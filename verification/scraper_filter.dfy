/**
 From the command line and a request to the goroutines of a scrape: the scrapers enabled
 by flag, those of them named in `collect[]`, and those of them the server is recent
 enough for.
 */
module ScraperFilter {
  import Outcomes
  import opened Sequences
  import opened Decimals
  import opened Exporter
  import opened ServerVersion

  /** The elements of s for which keep holds, in order. */
  function Select<T>(s: seq<T>, keep: T -> bool): seq<T> {
    if s == [] then [] else Select(Init(s), keep) + (if keep(Last(s)) then [Last(s)] else [])
  }

  /** `sub` is s with some elements left out. */
  ghost predicate Subsequence<T(!new)>(sub: seq<T>, s: seq<T>) {
    sub == [] || (s != [] && (Subsequence(sub, Init(s)) || (Last(sub) == Last(s) && Subsequence(Init(sub), Init(s)))))
  }

  lemma {:induction false} SelectHas<T>(s: seq<T>, keep: T -> bool, x: T)
    ensures x in Select(s, keep) <==> x in s && keep(x)
  {
    if s != [] {
      SelectHas(Init(s), keep, x);
      assert s == Init(s) + [Last(s)];
    }
  }

  /** With SelectOne: what is kept, in order, each as often as it occurs. */
  lemma {:induction false} SelectConcat<T>(s: seq<T>, t: seq<T>, keep: T -> bool)
    ensures Select(s + t, keep) == Select(s, keep) + Select(t, keep)
  {
    if t == [] {
      assert s + t == s;
    } else {
      SelectConcat(s, Init(t), keep);
      assert Init(s + t) == s + Init(t);
    }
  }

  lemma SelectOne<T>(x: T, keep: T -> bool)
    ensures Select([x], keep) == if keep(x) then [x] else []
  {
    assert Init([x]) == [];
  }

  lemma {:induction false} SelectIsSubsequence<T(!new)>(s: seq<T>, keep: T -> bool)
    ensures Subsequence(Select(s, keep), s)
  {
    if s != [] {
      var kept := Select(Init(s), keep);
      SelectIsSubsequence(Init(s), keep);
      if keep(Last(s)) {
        assert Init(kept + [Last(s)]) == kept;
        assert Select(s, keep) == kept + [Last(s)];
      } else {
        assert Select(s, keep) == kept;
      }
    }
  }

  // ------------------------------------------------------------- the filters

  function Named(params: set<string>): Scraper -> bool {
    (s: Scraper) => s.name in params
  }

  /** The scrapers a request gets: those it names, or all if it names none of them. */
  function Filtered(scrapers: seq<Scraper>, params: set<string>): seq<Scraper> {
    var named := Select(scrapers, Named(params));
    if named == [] then scrapers else named
  }

  method FilterScrapers(scrapers: seq<Scraper>, collectParams: seq<string>) returns (r: seq<Scraper>)
    ensures r == Filtered(scrapers, set p | p in collectParams)
  {
    r := [];
    if |collectParams| > 0 {
      var filters: map<string, bool> := map[];
      for i := 0 to |collectParams|
        invariant forall p :: p in filters <==> p in collectParams[..i]
        invariant forall p :: p in filters ==> filters[p]
      {
        filters := filters[collectParams[i] := true];
      }
      assert collectParams[..|collectParams|] == collectParams;
      var named := Named(set p | p in collectParams);
      for i := 0 to |scrapers|
        invariant r == Select(scrapers[..i], named)
      {
        assert Init(scrapers[..i + 1]) == scrapers[..i];
        if scrapers[i].name in filters && filters[scrapers[i].name] {
          r := r + [scrapers[i]];
        }
      }
      assert scrapers[..|scrapers|] == scrapers;
    } else {
      assert (set p | p in collectParams) == {};
      NothingNamed(scrapers);
    }
    if r == [] {
      r := scrapers;
    }
  }

  lemma {:induction false} NothingNamed(scrapers: seq<Scraper>)
    ensures Select(scrapers, Named({})) == []
  {
    if scrapers != [] {
      NothingNamed(Init(scrapers));
    }
  }

  /** `main`: the scrapers whose flag is set, in the sorted order. */
  method EnabledScrapers(sorted: seq<Scraper>, flags: map<string, bool>) returns (enabled: seq<Scraper>)
    requires forall s :: s in sorted ==> s.name in flags
    ensures Subsequence(enabled, sorted)
    ensures forall s :: s in enabled <==> s in sorted && flags[s.name]
  {
    var flagged := (s: Scraper) => s.name in flags && flags[s.name];
    enabled := [];
    for i := 0 to |sorted|
      invariant enabled == Select(sorted[..i], flagged)
    {
      assert Init(sorted[..i + 1]) == sorted[..i];
      if flags[sorted[i].name] {
        enabled := enabled + [sorted[i]];
      }
    }
    assert sorted[..|sorted|] == sorted;
    SelectIsSubsequence(sorted, flagged);
    forall s: Scraper ensures s in enabled <==> s in sorted && flags[s.name] {
      SelectHas(sorted, flagged, s);
    }
  }

  // ---------------------------------------------------------- whole requests

  /** The names that a request selects: the enabled ones it lists, or every enabled one if it lists none of them. */
  ghost predicate Selected(enabled: seq<Scraper>, params: seq<string>, s: Scraper) {
    s in enabled && (s.name in params || forall e :: e in enabled ==> e.name !in params)
  }

  lemma FilteredAre(enabled: seq<Scraper>, params: seq<string>, s: Scraper)
    ensures s in Filtered(enabled, set p | p in params) <==> Selected(enabled, params, s)
    ensures Subsequence(Filtered(enabled, set p | p in params), enabled)
  {
    var named := Named(set p | p in params);
    SelectIsSubsequence(enabled, named);
    SubsequenceReflexive(enabled);
    SelectHas(enabled, named, s);
    if Select(enabled, named) == [] {
      forall e | e in enabled ensures e.name !in params {
        SelectHas(enabled, named, e);
      }
    } else {
      var e := Select(enabled, named)[0];
      SelectHas(enabled, named, e);
    }
  }

  lemma {:induction false} SubsequenceReflexive<T(!new)>(s: seq<T>)
    ensures Subsequence(s, s)
  {
    if s != [] {
      SubsequenceReflexive(Init(s));
    }
  }

  lemma {:induction false} SubsequenceTransitive<T(!new)>(a: seq<T>, b: seq<T>, c: seq<T>)
    requires Subsequence(a, b) && Subsequence(b, c)
    ensures Subsequence(a, c)
    decreases |c|
  {
    if a != [] {
      if Subsequence(b, Init(c)) {
        SubsequenceTransitive(a, b, Init(c));
      } else if Subsequence(a, Init(b)) {
        SubsequenceTransitive(a, Init(b), Init(c));
      } else {
        SubsequenceTransitive(Init(a), Init(b), Init(c));
      }
    }
  }

  /** The version gate as a filter. */
  function Gate(version: real): Scraper -> bool {
    (s: Scraper) => Passes(version, s.minVersion)
  }

  /** The scrapers whose goroutines a run spawns, in the order it spawns them. */
  ghost function Spawned(cfg: Config, run: seq<Step>): seq<Scraper>
    requires Valid(cfg, run)
  {
    if run == [] then []
    else Spawned(cfg, Init(run)) + SpawnedBy(cfg, After(cfg, Init(run)), Last(run))
  }

  /** What one step spawns: seen by a thread that was not there before. */
  ghost function SpawnedBy(cfg: Config, s: State, step: Step): seq<Scraper>
    requires Enabled(cfg, s, step)
  {
    if step == Main && s.phase.Spawning? && s.phase.next < |s.threads| == |cfg.scrapers|
       && s.threads[s.phase.next].NotSpawned? && Apply(cfg, s, step).threads[s.phase.next].At?
    then [cfg.scrapers[s.phase.next]]
    else []
  }

  lemma SelectNext<T>(s: seq<T>, n: nat, keep: T -> bool)
    requires n < |s|
    ensures Select(s[..n + 1], keep) == Select(s[..n], keep) + (if keep(s[n]) then [s[n]] else [])
  {
    assert Init(s[..n + 1]) == s[..n];
  }

  lemma PassedInRange(cfg: Config, s: State)
    requires Invariant(cfg, s)
    ensures Passed(cfg, s.phase) <= |cfg.scrapers|
  {
  }

  lemma PassedNext(cfg: Config, s: State, step: Step)
    requires Invariant(cfg, s) && Enabled(cfg, s, step)
    ensures Passed(cfg, Apply(cfg, s, step).phase) ==
            Passed(cfg, s.phase) + (if step == Main && s.phase.Spawning? && s.phase.next < |s.threads| then 1 else 0)
  {
  }

  lemma SpawnedNext(cfg: Config, s: State, step: Step)
    requires Invariant(cfg, s) && Enabled(cfg, s, step)
    ensures Passed(cfg, s.phase) <= |cfg.scrapers| && Passed(cfg, Apply(cfg, s, step).phase) <= |cfg.scrapers|
    ensures Select(cfg.scrapers[..Passed(cfg, Apply(cfg, s, step).phase)], Gate(cfg.version)) ==
            Select(cfg.scrapers[..Passed(cfg, s.phase)], Gate(cfg.version)) + SpawnedBy(cfg, s, step)
  {
    PassedInRange(cfg, s);
    PassedNext(cfg, s, step);
    if step == Main && s.phase.Spawning? && s.phase.next < |s.threads| {
      assert ThreadOk(cfg, s, s.phase.next);
      SelectNext(cfg.scrapers, s.phase.next, Gate(cfg.version));
    }
  }

  /**
   At every moment of every run, what has been spawned is what passes the gate of the scrapers the loop has
   passed.
   */
  lemma {:induction false} SpawnedSoFar(cfg: Config, run: seq<Step>)
    requires Valid(cfg, run)
    ensures Passed(cfg, After(cfg, run).phase) <= |cfg.scrapers|
    ensures Spawned(cfg, run) == Select(cfg.scrapers[..Passed(cfg, After(cfg, run).phase)], Gate(cfg.version))
  {
    if run != [] {
      SpawnedSoFar(cfg, Init(run));
      InvariantAlways(cfg, Init(run));
      SpawnedNext(cfg, After(cfg, Init(run)), Last(run));
    }
  }

  /**
   Over every complete run for a request the spawned scrapers are, in this order, the filtered
   ones that pass the gate: a subsequence of the sorted list.
   */
  lemma SpawnOrderIsSorted(sorted: seq<Scraper>, enabled: seq<Scraper>, params: set<string>,
                           cfg: Config, run: seq<Step>)
    requires Subsequence(enabled, sorted) && cfg.scrapers == Filtered(enabled, params) && cfg.Up()
    requires Valid(cfg, run) && After(cfg, run).phase == Finished
    ensures Spawned(cfg, run) == Select(Filtered(enabled, params), Gate(cfg.version))
    ensures Subsequence(Spawned(cfg, run), sorted)
  {
    SpawnedSoFar(cfg, run);
    assert cfg.scrapers[..|cfg.scrapers|] == cfg.scrapers;
    SelectIsSubsequence(enabled, Named(params));
    SubsequenceReflexive(enabled);
    SelectIsSubsequence(cfg.scrapers, Gate(cfg.version));
    SubsequenceTransitive(cfg.scrapers, enabled, sorted);
    SubsequenceTransitive(Select(cfg.scrapers, Gate(cfg.version)), cfg.scrapers, sorted);
  }

  /** The order and repetition of the parameters do not matter. */
  lemma ParamOrderIrrelevant(enabled: seq<Scraper>, params: seq<string>, other: seq<string>)
    requires forall p :: p in params <==> p in other
    ensures Filtered(enabled, set p | p in params) == Filtered(enabled, set p | p in other)
  {
    assert (set p | p in params) == (set p | p in other);
  }

  /** A success flag of scraper s was sent. */
  ghost predicate Reported(cfg: Config, trace: seq<Event>, s: Scraper) {
    exists i :: 0 <= i < |cfg.scrapers| && cfg.scrapers[i] == s && Success(i, !s.fails) in trace
  }

  /**
   Every complete scrape for a request reports a success flag for exactly the enabled
   scrapers the request selects that pass the version gate.
   */
  lemma ReportedIff(enabled: seq<Scraper>, params: seq<string>, cfg: Config, run: seq<Step>, s: Scraper)
    requires cfg.scrapers == Filtered(enabled, set p | p in params) && cfg.Up()
    requires Valid(cfg, run) && After(cfg, run).phase == Finished
    ensures Reported(cfg, After(cfg, run).trace, s) <==> Selected(enabled, params, s) && !(cfg.version < s.minVersion)
  {
    FilteredAre(enabled, params, s);
    var trace := After(cfg, run).trace;
    forall i: nat | i < |cfg.scrapers|
      ensures Success(i, !cfg.scrapers[i].fails) in trace <==> cfg.Eligible(i)
    {
      FlagSentIff(cfg, run, i);
    }
    if Selected(enabled, params, s) && !(cfg.version < s.minVersion) {
      var i :| 0 <= i < |cfg.scrapers| && cfg.scrapers[i] == s;
      assert cfg.Eligible(i);
    }
  }

  /**
   The gate in terms of versions: against a server of version M.m, a scraper with threshold T.t
   reports iff it is selected and (M, first digit of m) is at or above (T, t).
   */
  lemma ReportedByVersionIff(enabled: seq<Scraper>, params: seq<string>, cfg: Config, run: seq<Step>, s: Scraper,
                             major: nat, minor: nat, t: nat, u: nat)
    requires cfg.scrapers == Filtered(enabled, set p | p in params) && cfg.Up()
    requires Valid(cfg, run) && After(cfg, run).phase == Finished
    requires VersionMajorMinor(major, minor) == Outcomes.Some(cfg.version)
    requires u < 10 && s.minVersion == Threshold(t, u)
    ensures Reported(cfg, After(cfg, run).trace, s) <==>
            Selected(enabled, params, s) && AtLeast(major, LeadingDigit(minor), t, u)
  {
    ReportedIff(enabled, params, cfg, run, s);
    GateComparesLeadingDigit(major, minor, t, u);
  }

  lemma FlagSentIff(cfg: Config, run: seq<Step>, i: nat)
    requires Valid(cfg, run) && After(cfg, run).phase == Finished && cfg.Up() && i < |cfg.scrapers|
    ensures Success(i, !cfg.scrapers[i].fails) in After(cfg, run).trace <==> cfg.Eligible(i)
  {
    var trace, flag := After(cfg, run).trace, Success(i, !cfg.scrapers[i].fails);
    CompleteProjections(cfg, run, Goroutine(i));
    if flag in trace {
      ProjectionHas(trace, flag);
    }
    if cfg.Eligible(i) {
      assert Script(cfg, i)[|cfg.scrapers[i].samples|] == flag;
      ProjectionWithin(trace, Goroutine(i), flag);
    }
  }

  lemma {:induction false} ProjectionWithin(trace: seq<Event>, owner: Owner, e: Event)
    requires e in Projection(trace, owner)
    ensures e in trace
  {
    if trace != [] && e !in Init(trace) {
      if e in Projection(Init(trace), owner) {
        ProjectionWithin(Init(trace), owner, e);
      }
    }
  }
}
