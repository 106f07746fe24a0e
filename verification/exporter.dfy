/**
 One scrape of the exporter: the collecting goroutine opens the database, spawns one
 goroutine per eligible scraper, waits for all of them, closes the database and reports
 `mysql_up`; every goroutine sends on the same channel. A scrape is modelled as the
 interleaving of the steps of all these goroutines, and the channel as the trace of what
 was sent on it.
 */
module Exporter {
  import opened Sequences

  /** A metric that a scraper sends of its own. */
  datatype Sample = Sample(desc: string, labels: seq<string>, value: real)

  /** A scraper and what its `Scrape` does this time: the metrics it sends, then success or failure. */
  datatype Scraper = Scraper(name: string, minVersion: real, samples: seq<Sample>, fails: bool)

  /** What the server does: refuse the connection, fail the ping, or answer with a version. */
  datatype Config = Config(scrapers: seq<Scraper>, connects: bool, pings: bool, version: real) {
    predicate Up() {
      connects && pings
    }

    /** The version gate. */
    predicate Eligible(i: nat) {
      i < |scrapers| && !(version < scrapers[i].minVersion)
    }
  }

  /** What is sent on the channel, tagged with the goroutine that sends it; clock readings are left out. */
  datatype Event =
    | ConnectionDuration
    | Up(up: bool)
    | Own(scraper: nat, sample: Sample)
    | Success(scraper: nat, success: bool)
    | Duration(scraper: nat)

  /** Where the collecting goroutine is; deferred calls run in the order wait, close. */
  datatype Phase =
    | Connecting
    | Pinging
    | Spawning(next: nat)
    | Waiting
    | Closing(up: bool)
    | Returned(up: bool)
    | Finished

  datatype Thread = NotSpawned | At(pc: nat)

  datatype State = State(phase: Phase, threads: seq<Thread>, closed: bool, trace: seq<Event>)

  datatype Step = Main | Run(scraper: nat)

  /** Everything one scraper's goroutine sends, in order. */
  function Script(cfg: Config, i: nat): seq<Event>
    requires i < |cfg.scrapers|
  {
    var s := cfg.scrapers[i];
    seq(|s.samples|, k requires 0 <= k < |s.samples| => Own(i, s.samples[k])) + [Success(i, !s.fails), Duration(i)]
  }

  predicate Done(cfg: Config, threads: seq<Thread>) {
    |threads| == |cfg.scrapers| &&
    forall i :: 0 <= i < |threads| ==> threads[i].At? ==> threads[i].pc == |Script(cfg, i)|
  }

  predicate Enabled(cfg: Config, s: State, step: Step) {
    match step
    case Main => s.phase != Finished && (s.phase == Waiting ==> Done(cfg, s.threads))
    case Run(i) =>
      |s.threads| == |cfg.scrapers| && i < |s.threads| && s.threads[i].At? && s.threads[i].pc < |Script(cfg, i)|
  }

  function Initial(cfg: Config): State {
    State(Connecting, seq(|cfg.scrapers|, _ => NotSpawned), false, [])
  }

  function Apply(cfg: Config, s: State, step: Step): State
    requires Enabled(cfg, s, step)
  {
    match step
    case Run(i) =>
      s.(threads := s.threads[i := At(s.threads[i].pc + 1)], trace := s.trace + [Script(cfg, i)[s.threads[i].pc]])
    case Main =>
      match s.phase
      case Connecting => if cfg.connects then s.(phase := Pinging) else s.(phase := Returned(false))
      case Pinging =>
        if cfg.pings then s.(phase := Spawning(0), trace := s.trace + [ConnectionDuration])
        else s.(phase := Closing(false), closed := true)  // a failed ping closes the database itself
      case Spawning(next) =>
        if next < |s.threads| then
          s.(phase := Spawning(next + 1), threads := if cfg.Eligible(next) then s.threads[next := At(0)] else s.threads)
        else s.(phase := Waiting)
      case Waiting => s.(phase := Closing(true))
      case Closing(up) => s.(phase := Returned(up), closed := true)
      case Returned(up) => s.(phase := Finished, trace := s.trace + [Up(up)])
      case Finished => s
  }

  ghost predicate Valid(cfg: Config, run: seq<Step>)
    decreases |run|, 0
  {
    run == [] || (Valid(cfg, Init(run)) && Enabled(cfg, After(cfg, Init(run)), Last(run)))
  }

  ghost function After(cfg: Config, run: seq<Step>): State
    requires Valid(cfg, run)
    decreases |run|, 1
  {
    if run == [] then Initial(cfg) else Apply(cfg, After(cfg, Init(run)), Last(run))
  }

  // ------------------------------------------------------------ projections

  /** Who sends an event: a scraper's goroutine or the collecting goroutine. */
  datatype Owner = Collector | Goroutine(scraper: nat)

  function OwnerOf(e: Event): Owner {
    match e
    case ConnectionDuration => Collector
    case Up(_) => Collector
    case Own(i, _) => Goroutine(i)
    case Success(i, _) => Goroutine(i)
    case Duration(i) => Goroutine(i)
  }

  /** The part of a trace that one goroutine sent. */
  function Projection(trace: seq<Event>, owner: Owner): seq<Event> {
    if trace == [] then []
    else Projection(Init(trace), owner) + (if OwnerOf(Last(trace)) == owner then [Last(trace)] else [])
  }

  lemma ProjectionNext(trace: seq<Event>, e: Event, owner: Owner)
    ensures Projection(trace + [e], owner) == Projection(trace, owner) + (if OwnerOf(e) == owner then [e] else [])
  {
    assert Init(trace + [e]) == trace;
  }

  // -------------------------------------------------------------- invariant

  /** How many scrapers the spawning loop has passed. */
  function Passed(cfg: Config, phase: Phase): nat {
    match phase
    case Connecting => 0
    case Pinging => 0
    case Spawning(next) => next
    case Waiting => |cfg.scrapers|
    case Closing(up) => if up then |cfg.scrapers| else 0
    case Returned(up) => if up then |cfg.scrapers| else 0
    case Finished => if cfg.Up() then |cfg.scrapers| else 0
  }

  /** What the collecting goroutine has sent. */
  function CollectorScript(cfg: Config, phase: Phase): seq<Event> {
    match phase
    case Connecting => []
    case Pinging => []
    case Spawning(_) => [ConnectionDuration]
    case Waiting => [ConnectionDuration]
    case Closing(up) => if up then [ConnectionDuration] else []
    case Returned(up) => if up then [ConnectionDuration] else []
    case Finished => (if cfg.Up() then [ConnectionDuration] else []) + [Up(cfg.Up())]
  }

  predicate PhaseOk(cfg: Config, phase: Phase) {
    match phase
    case Connecting => true
    case Pinging => cfg.connects
    case Spawning(next) => cfg.Up() && next <= |cfg.scrapers|
    case Waiting => cfg.Up()
    case Closing(up) => up == cfg.Up()
    case Returned(up) => up == cfg.Up()
    case Finished => true
  }

  ghost predicate ThreadOk(cfg: Config, s: State, i: nat)
    requires i < |s.threads| == |cfg.scrapers|
  {
    && (s.threads[i].At? <==> i < Passed(cfg, s.phase) && cfg.Eligible(i))
    && (s.threads[i].At? ==>
          s.threads[i].pc <= |Script(cfg, i)| && Projection(s.trace, Goroutine(i)) == Script(cfg, i)[..s.threads[i].pc])
    && (s.threads[i].NotSpawned? ==> Projection(s.trace, Goroutine(i)) == [])
  }

  predicate PastWait(phase: Phase) {
    phase.Closing? || phase.Returned? || phase.Finished?
  }

  ghost predicate Invariant(cfg: Config, s: State) {
    && |s.threads| == |cfg.scrapers|
    && PhaseOk(cfg, s.phase)
    && (forall i :: 0 <= i < |s.threads| ==> ThreadOk(cfg, s, i))
    && (forall i :: |s.threads| <= i ==> Projection(s.trace, Goroutine(i)) == [])
    && Projection(s.trace, Collector) == CollectorScript(cfg, s.phase)
    && (PastWait(s.phase) ==> Done(cfg, s.threads))
    && (s.closed ==> PastWait(s.phase))
    && (s.phase == Finished ==> s.trace != [] && Last(s.trace) == Up(cfg.Up()))
    && ((s.phase.Returned? || s.phase.Finished?) && cfg.connects ==> s.closed)
  }

  lemma ScriptOwner(cfg: Config, i: nat, k: nat)
    requires i < |cfg.scrapers| && k < |Script(cfg, i)|
    ensures OwnerOf(Script(cfg, i)[k]) == Goroutine(i)
  {
  }

  lemma InvariantInitially(cfg: Config)
    ensures Invariant(cfg, Initial(cfg))
  {
  }

  lemma RunKeepsInvariant(cfg: Config, s: State, i: nat)
    requires Invariant(cfg, s) && Enabled(cfg, s, Run(i))
    ensures Invariant(cfg, Apply(cfg, s, Run(i)))
    ensures !PastWait(s.phase)
  {
    var e, s' := Script(cfg, i)[s.threads[i].pc], Apply(cfg, s, Run(i));
    assert ThreadOk(cfg, s, i);
    ScriptOwner(cfg, i, s.threads[i].pc);
    forall owner: Owner
      ensures Projection(s'.trace, owner) == Projection(s.trace, owner) + (if owner == Goroutine(i) then [e] else [])
    {
      ProjectionNext(s.trace, e, owner);
    }
    forall j | 0 <= j < |s'.threads| ensures ThreadOk(cfg, s', j) {
      assert ThreadOk(cfg, s, j);
    }
  }

  /** What the collecting goroutine sends in its next step. */
  function Sends(cfg: Config, phase: Phase): seq<Event> {
    if phase.Pinging? && cfg.pings then [ConnectionDuration]
    else if phase.Returned? then [Up(phase.up)]
    else []
  }

  lemma MainSends(cfg: Config, s: State)
    requires PhaseOk(cfg, s.phase) && |s.threads| == |cfg.scrapers| && Enabled(cfg, s, Main)
    ensures Apply(cfg, s, Main).trace == s.trace + Sends(cfg, s.phase)
    ensures CollectorScript(cfg, Apply(cfg, s, Main).phase) == CollectorScript(cfg, s.phase) + Sends(cfg, s.phase)
  {
  }

  lemma MainProjections(cfg: Config, s: State, owner: Owner)
    requires Invariant(cfg, s) && Enabled(cfg, s, Main)
    ensures Projection(Apply(cfg, s, Main).trace, owner) ==
            Projection(s.trace, owner) + (if owner == Collector then Sends(cfg, s.phase) else [])
  {
    MainSends(cfg, s);
    if Sends(cfg, s.phase) != [] {
      ProjectionNext(s.trace, Sends(cfg, s.phase)[0], owner);
    }
  }

  lemma MainSpawns(cfg: Config, s: State, j: nat)
    requires Invariant(cfg, s) && Enabled(cfg, s, Main) && j < |s.threads|
    ensures var s' := Apply(cfg, s, Main);
            && |s'.threads| == |s.threads|
            && s'.threads[j] == (if s.phase == Spawning(j) && cfg.Eligible(j) then At(0) else s.threads[j])
            && (j < Passed(cfg, s'.phase) <==> s.phase == Spawning(j) || j < Passed(cfg, s.phase))
  {
  }

  lemma MainThreads(cfg: Config, s: State, j: nat)
    requires Invariant(cfg, s) && Enabled(cfg, s, Main) && j < |s.threads|
    ensures |Apply(cfg, s, Main).threads| == |s.threads| && ThreadOk(cfg, Apply(cfg, s, Main), j)
  {
    assert ThreadOk(cfg, s, j);
    MainSpawns(cfg, s, j);
    MainProjections(cfg, s, Goroutine(j));
  }

  lemma MainWaits(cfg: Config, s: State)
    requires Invariant(cfg, s) && Enabled(cfg, s, Main)
    ensures PastWait(Apply(cfg, s, Main).phase) ==> Done(cfg, Apply(cfg, s, Main).threads)
  {
    if s.phase.Connecting? || s.phase.Pinging? {
      forall j | 0 <= j < |s.threads| ensures !s.threads[j].At? {
        assert ThreadOk(cfg, s, j);
      }
    }
  }

  lemma MainCloses(cfg: Config, s: State)
    requires Invariant(cfg, s) && Enabled(cfg, s, Main)
    ensures var s' := Apply(cfg, s, Main);
            && PhaseOk(cfg, s'.phase)
            && (s'.closed ==> PastWait(s'.phase))
            && (s'.phase == Finished ==> s'.trace != [] && Last(s'.trace) == Up(cfg.Up()))
            && ((s'.phase.Returned? || s'.phase.Finished?) && cfg.connects ==> s'.closed)
  {
    MainSends(cfg, s);
  }

  lemma MainKeepsInvariant(cfg: Config, s: State)
    requires Invariant(cfg, s) && Enabled(cfg, s, Main)
    ensures Invariant(cfg, Apply(cfg, s, Main))
  {
    var s' := Apply(cfg, s, Main);
    forall j | 0 <= j < |s'.threads|
      ensures ThreadOk(cfg, s', j)
    {
      MainThreads(cfg, s, j);
    }
    forall i: nat | |s.threads| <= i ensures Projection(s'.trace, Goroutine(i)) == [] {
      MainProjections(cfg, s, Goroutine(i));
    }
    MainProjections(cfg, s, Collector);
    MainSends(cfg, s);
    MainWaits(cfg, s);
    MainCloses(cfg, s);
  }

  lemma {:induction false} InvariantAlways(cfg: Config, run: seq<Step>)
    requires Valid(cfg, run)
    ensures Invariant(cfg, After(cfg, run))
  {
    if run == [] {
      InvariantInitially(cfg);
    } else {
      InvariantAlways(cfg, Init(run));
      match Last(run)
      case Main => MainKeepsInvariant(cfg, After(cfg, Init(run)));
      case Run(i) => RunKeepsInvariant(cfg, After(cfg, Init(run)), i);
    }
  }

  // --------------------------------------------------------------- theorems

  /** The database is closed only after every spawned scraper has finished, and no scraper step can follow. */
  lemma ClosedAfterAllScrapers(cfg: Config, run: seq<Step>, i: nat)
    requires Valid(cfg, run) && After(cfg, run).closed
    ensures Done(cfg, After(cfg, run).threads)
    ensures !Enabled(cfg, After(cfg, run), Run(i))
  {
    InvariantAlways(cfg, run);
  }

  /**
   Scrapers are spawned in list order, exactly the eligible ones: none is spawned before an eligible one ahead of
   it.
   */
  lemma SpawnedInOrder(cfg: Config, run: seq<Step>, i: nat, j: nat)
    requires Valid(cfg, run) && i <= j < |cfg.scrapers|
    ensures var threads := After(cfg, run).threads;
            && |threads| == |cfg.scrapers|
            && (threads[j].At? ==> cfg.Eligible(j) && (cfg.Eligible(i) ==> threads[i].At?))
            && (After(cfg, run).phase == Finished && cfg.Up() ==> (threads[j].At? <==> cfg.Eligible(j)))
  {
    InvariantAlways(cfg, run);
    assert ThreadOk(cfg, After(cfg, run), i) && ThreadOk(cfg, After(cfg, run), j);
  }

  lemma FinishedIsOver(cfg: Config, s: State)
    requires Invariant(cfg, s) && s.phase == Finished
    ensures forall step :: !Enabled(cfg, s, step)
  {
    assert Done(cfg, s.threads);
  }

  /** Every finished run has closed a database it opened, and `mysql_up` is the last thing on the channel, once. */
  lemma UpIsLast(cfg: Config, run: seq<Step>)
    requires Valid(cfg, run) && After(cfg, run).phase == Finished
    ensures var s := After(cfg, run);
            && s.trace != [] && Last(s.trace) == Up(cfg.Up())
            && (forall e :: e in Init(s.trace) ==> !e.Up?)
            && (cfg.connects ==> s.closed)
            && forall step :: !Enabled(cfg, s, step)
  {
    InvariantAlways(cfg, run);
    FinishedIsOver(cfg, After(cfg, run));
    OneUp(cfg, After(cfg, run).trace);
  }

  lemma DropLast(a: seq<Event>, b: seq<Event>, e: Event)
    requires a + [e] == b + [e]
    ensures a == b
  {
    assert a == (a + [e])[..|a|] && b == (b + [e])[..|b|];
  }

  lemma NoUpAmong(trace: seq<Event>)
    requires Projection(trace, Collector) == [] || Projection(trace, Collector) == [ConnectionDuration]
    ensures forall e :: e in trace ==> !e.Up?
  {
    forall e | e in trace && e.Up? ensures false {
      ProjectionHas(trace, e);
    }
  }

  lemma OneUp(cfg: Config, trace: seq<Event>)
    requires trace != [] && Last(trace) == Up(cfg.Up())
    requires Projection(trace, Collector) == CollectorScript(cfg, Finished)
    ensures forall e :: e in Init(trace) ==> !e.Up?
  {
    DropLast(Projection(Init(trace), Collector), if cfg.Up() then [ConnectionDuration] else [], Last(trace));
    NoUpAmong(Init(trace));
  }

  lemma {:induction false} ProjectionHas(trace: seq<Event>, e: Event)
    requires e in trace
    ensures e in Projection(trace, OwnerOf(e))
  {
    if e != Last(trace) {
      ProjectionHas(Init(trace), e);
    }
  }

  /** What a complete run sends, goroutine by goroutine: nothing but `mysql_up` 0 if the server is down. */
  ghost function Expected(cfg: Config, owner: Owner): seq<Event> {
    match owner
    case Collector => (if cfg.Up() then [ConnectionDuration] else []) + [Up(cfg.Up())]
    case Goroutine(i) => if cfg.Up() && cfg.Eligible(i) then Script(cfg, i) else []
  }

  /**
   In every complete interleaving an eligible scraper's part of the trace is its own metrics,
   then one success flag (set iff it returned nil), then one duration; it depends on no other scraper.
   */
  lemma CompleteProjections(cfg: Config, run: seq<Step>, owner: Owner)
    requires Valid(cfg, run) && After(cfg, run).phase == Finished
    ensures Projection(After(cfg, run).trace, owner) == Expected(cfg, owner)
  {
    InvariantAlways(cfg, run);
    var s := After(cfg, run);
    if owner.Goroutine? && owner.scraper < |s.threads| {
      assert ThreadOk(cfg, s, owner.scraper);
    }
  }

  /**
   All that scraper i sends: each of its samples in order, whether it fails after them or not, then one success flag
   and one duration; nothing if the server is down or too old for it.
   */
  ghost predicate SendsItsPart(cfg: Config, part: seq<Event>, i: nat)
    requires i < |cfg.scrapers|
  {
    var s := cfg.scrapers[i];
    var n := |s.samples|;
    if !cfg.connects || !cfg.pings || cfg.version < s.minVersion then part == []
    else
      && |part| == n + 2
      && (forall k :: 0 <= k < n ==> part[k] == Own(i, s.samples[k]))
      && part[n] == Success(i, !s.fails)
      && part[n + 1] == Duration(i)
  }

  lemma ScriptIsPart(cfg: Config, i: nat)
    requires i < |cfg.scrapers|
    ensures SendsItsPart(cfg, Expected(cfg, Goroutine(i)), i)
  {
  }

  /** A complete run, element by element: what each scraper sends, what the collecting goroutine sends. */
  lemma EachSendsItsPart(cfg: Config, run: seq<Step>, i: nat)
    requires Valid(cfg, run) && After(cfg, run).phase == Finished
    ensures i < |cfg.scrapers| ==> SendsItsPart(cfg, Projection(After(cfg, run).trace, Goroutine(i)), i)
    ensures Projection(After(cfg, run).trace, Collector) ==
            if cfg.connects && cfg.pings then [ConnectionDuration, Up(true)] else [Up(false)]
  {
    CompleteProjections(cfg, run, Collector);
    CompleteProjections(cfg, run, Goroutine(i));
    if i < |cfg.scrapers| {
      ScriptIsPart(cfg, i);
    }
  }

  /** In every run the duration of the connection is sent before anything a scraper sends. */
  lemma {:induction false} ConnectionIsFirst(cfg: Config, run: seq<Step>)
    requires Valid(cfg, run) && After(cfg, run).trace != []
    ensures cfg.connects && cfg.pings ==> After(cfg, run).trace[0] == ConnectionDuration
    ensures !(cfg.connects && cfg.pings) ==> After(cfg, run).trace[0] == Up(false)
  {
    var s := After(cfg, Init(run));
    InvariantAlways(cfg, Init(run));
    if s.trace != [] {
      ConnectionIsFirst(cfg, Init(run));
    } else {
      FirstSent(cfg, s, Last(run));
    }
  }

  lemma FirstSent(cfg: Config, s: State, step: Step)
    requires Invariant(cfg, s) && Enabled(cfg, s, step) && s.trace == [] && Apply(cfg, s, step).trace != []
    ensures Apply(cfg, s, step).trace == [if cfg.connects && cfg.pings then ConnectionDuration else Up(false)]
  {
    NoScraperYet(cfg, s);
    if step == Main {
      MainSends(cfg, s);
    }
  }

  lemma NoScraperYet(cfg: Config, s: State)
    requires Invariant(cfg, s) && s.trace == []
    ensures forall i :: !Enabled(cfg, s, Run(i))
  {
    forall i | 0 <= i < |s.threads| ensures !s.threads[i].At? {
      assert ThreadOk(cfg, s, i);
    }
  }

  lemma {:induction false} MultisetByOwner(trace: seq<Event>, e: Event)
    ensures multiset(trace)[e] == multiset(Projection(trace, OwnerOf(e)))[e]
  {
    if trace != [] {
      MultisetByOwner(Init(trace), e);
      assert trace == Init(trace) + [Last(trace)];
    }
  }

  /** All complete runs over the same scraper outcomes send the same metrics, each as often. */
  lemma CompleteRunsSendTheSame(cfg: Config, run: seq<Step>, other: seq<Step>)
    requires Valid(cfg, run) && After(cfg, run).phase == Finished
    requires Valid(cfg, other) && After(cfg, other).phase == Finished
    ensures multiset(After(cfg, run).trace) == multiset(After(cfg, other).trace)
  {
    var t, u := After(cfg, run).trace, After(cfg, other).trace;
    forall e ensures multiset(t)[e] == multiset(u)[e] {
      CompleteProjections(cfg, run, OwnerOf(e));
      CompleteProjections(cfg, other, OwnerOf(e));
      MultisetByOwner(t, e);
      MultisetByOwner(u, e);
    }
  }

  /**
   Changing what scraper j does, be it to fail, changes neither another scraper's part of the trace nor
   `mysql_up`.
   */
  lemma FailuresAreIsolated(cfg: Config, other: Config, run: seq<Step>, run': seq<Step>, j: nat, owner: Owner)
    requires j < |cfg.scrapers| && other == cfg.(scrapers := other.scrapers)
    requires |other.scrapers| == |cfg.scrapers| && other.scrapers == cfg.scrapers[j := other.scrapers[j]]
    requires Valid(cfg, run) && After(cfg, run).phase == Finished
    requires Valid(other, run') && After(other, run').phase == Finished
    requires owner != Goroutine(j)
    ensures Projection(After(cfg, run).trace, owner) == Projection(After(other, run').trace, owner)
  {
    CompleteProjections(cfg, run, owner);
    CompleteProjections(other, run', owner);
  }

  /** A failed connection or ping yields `mysql_up` 0 and nothing else. */
  lemma DownSendsOnlyUp(cfg: Config, run: seq<Step>)
    requires Valid(cfg, run) && After(cfg, run).phase == Finished && !cfg.Up()
    ensures After(cfg, run).trace == [Up(false)]
  {
    UpIsLast(cfg, run);
    var trace := After(cfg, run).trace;
    if Init(trace) != [] {
      var e := trace[0];
      assert e == Init(trace)[0];
      ProjectionHas(trace, e);
      CompleteProjections(cfg, run, OwnerOf(e));
    }
  }

  // --------------------------------------------------- every scrape finishes

  /** A step by number: the collecting goroutine, or a scraper's. */
  function StepOf(i: int): Step
    requires -1 <= i
  {
    if i < 0 then Main else Run(i)
  }

  lemma SomeGoroutineCanStep(cfg: Config, s: State)
    requires Invariant(cfg, s) && s.phase != Finished
    ensures exists i :: -1 <= i < |s.threads| && Enabled(cfg, s, StepOf(i))
  {
    if s.phase == Waiting && !Done(cfg, s.threads) {
      var i :| 0 <= i < |s.threads| && s.threads[i].At? && s.threads[i].pc != |Script(cfg, i)|;
      assert ThreadOk(cfg, s, i);
      assert Enabled(cfg, s, StepOf(i));
    } else {
      assert Enabled(cfg, s, StepOf(-1));
    }
  }

  /** No schedule gets stuck before the end. */
  lemma NoDeadlock(cfg: Config, run: seq<Step>)
    requires Valid(cfg, run) && After(cfg, run).phase != Finished
    ensures exists step :: Enabled(cfg, After(cfg, run), step)
  {
    InvariantAlways(cfg, run);
    SomeGoroutineCanStep(cfg, After(cfg, run));
  }

  function StepsLeft(cfg: Config, threads: seq<Thread>, n: nat): int
    requires n <= |threads| && n <= |cfg.scrapers|
  {
    if n == 0 then 0
    else StepsLeft(cfg, threads, n - 1)
         + |Script(cfg, n - 1)| - (if threads[n - 1].At? then threads[n - 1].pc else 0)
  }

  function MainStepsLeft(cfg: Config, phase: Phase): int {
    match phase
    case Connecting => |cfg.scrapers| + 6
    case Pinging => |cfg.scrapers| + 5
    case Spawning(next) => |cfg.scrapers| - next + 4
    case Waiting => 3
    case Closing(_) => 2
    case Returned(_) => 1
    case Finished => 0
  }

  /** A bound on how many more steps any schedule can take. */
  function Measure(cfg: Config, s: State): int
    requires |s.threads| == |cfg.scrapers|
  {
    MainStepsLeft(cfg, s.phase) + StepsLeft(cfg, s.threads, |s.threads|)
  }

  lemma {:induction false} StepsLeftChanges(cfg: Config, threads: seq<Thread>, i: nat, t: Thread, n: nat)
    requires n <= |threads| == |cfg.scrapers| && i < |threads|
    ensures StepsLeft(cfg, threads[i := t], n) ==
            StepsLeft(cfg, threads, n)
            + (if i < n then (if threads[i].At? then threads[i].pc else 0) - (if t.At? then t.pc else 0) else 0)
  {
    if n > 0 {
      StepsLeftChanges(cfg, threads, i, t, n - 1);
    }
  }

  lemma RunDecreases(cfg: Config, s: State, i: nat)
    requires Enabled(cfg, s, Run(i))
    ensures |Apply(cfg, s, Run(i)).threads| == |s.threads|
    ensures Measure(cfg, Apply(cfg, s, Run(i))) < Measure(cfg, s)
  {
    StepsLeftChanges(cfg, s.threads, i, At(s.threads[i].pc + 1), |s.threads|);
  }

  lemma MainDecreases(cfg: Config, s: State)
    requires Invariant(cfg, s) && Enabled(cfg, s, Main)
    ensures |Apply(cfg, s, Main).threads| == |s.threads|
    ensures Measure(cfg, Apply(cfg, s, Main)) < Measure(cfg, s)
  {
    if s.phase.Spawning? && s.phase.next < |s.threads| {
      assert ThreadOk(cfg, s, s.phase.next);
      StepsLeftChanges(cfg, s.threads, s.phase.next, At(0), |s.threads|);
    }
  }

  lemma StepDecreases(cfg: Config, s: State, step: Step)
    requires Invariant(cfg, s) && Enabled(cfg, s, step)
    ensures |Apply(cfg, s, step).threads| == |s.threads|
    ensures Measure(cfg, Apply(cfg, s, step)) < Measure(cfg, s)
  {
    match step
    case Run(i) => RunDecreases(cfg, s, i);
    case Main => MainDecreases(cfg, s);
  }

  lemma {:induction false} StepsLeftNonNegative(cfg: Config, s: State, n: nat)
    requires Invariant(cfg, s) && n <= |s.threads|
    ensures StepsLeft(cfg, s.threads, n) >= 0
  {
    if n > 0 {
      StepsLeftNonNegative(cfg, s, n - 1);
      assert ThreadOk(cfg, s, n - 1);
    }
  }

  /** Every schedule is finite: with NoDeadlock, every scrape reaches its end whatever the scheduler does. */
  lemma {:induction false} RunsAreBounded(cfg: Config, run: seq<Step>)
    requires Valid(cfg, run)
    ensures |After(cfg, run).threads| == |cfg.scrapers|
    ensures |run| + Measure(cfg, After(cfg, run)) <= Measure(cfg, Initial(cfg))
    ensures |run| <= Measure(cfg, Initial(cfg))
  {
    InvariantAlways(cfg, run);
    StepsLeftNonNegative(cfg, After(cfg, run), |cfg.scrapers|);
    if run != [] {
      InvariantAlways(cfg, Init(run));
      RunsAreBounded(cfg, Init(run));
      StepDecreases(cfg, After(cfg, Init(run)), Last(run));
    }
  }

  /** `Collect`, with the scheduler picking any goroutine that can step. */
  method Collect(cfg: Config) returns (ch: seq<Event>, ghost run: seq<Step>)
    ensures Valid(cfg, run) && After(cfg, run).phase == Finished && ch == After(cfg, run).trace
    ensures forall owner :: Projection(ch, owner) == Expected(cfg, owner)
    ensures forall i :: 0 <= i < |cfg.scrapers| ==> SendsItsPart(cfg, Projection(ch, Goroutine(i)), i)
    ensures Projection(ch, Collector) ==
            if cfg.connects && cfg.pings then [ConnectionDuration, Up(true)] else [Up(false)]
    ensures ch != [] && Last(ch) == Up(cfg.Up())
  {
    var s := Initial(cfg);
    run := [];
    while s.phase != Finished
      invariant Valid(cfg, run) && s == After(cfg, run) && Invariant(cfg, s)
      decreases Measure(cfg, s)
    {
      StepsLeftNonNegative(cfg, s, |s.threads|);
      SomeGoroutineCanStep(cfg, s);
      var i :| -1 <= i < |s.threads| && Enabled(cfg, s, StepOf(i));
      var step := StepOf(i);
      StepDecreases(cfg, s, step);
      assert Init(run + [step]) == run;
      run := run + [step];
      s := Apply(cfg, s, step);
      InvariantAlways(cfg, run);
    }
    ch := s.trace;
    UpIsLast(cfg, run);
    forall owner ensures Projection(ch, owner) == Expected(cfg, owner) {
      CompleteProjections(cfg, run, owner);
    }
    EachSendsItsPart(cfg, run, 0);
    forall i | 0 <= i < |cfg.scrapers| ensures SendsItsPart(cfg, Projection(ch, Goroutine(i)), i) {
      EachSendsItsPart(cfg, run, i);
    }
  }
}
