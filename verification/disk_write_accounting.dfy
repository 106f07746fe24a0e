/**
 What the counters mean: the server keeps a per-second history of each key, and every
 successful tick adds up the newest seconds of it. Time is counted in whole seconds.
 */
module DiskWriteAccounting {
  import opened DiskWriteCounters
  import opened DiskWriteRuns
  import opened DiskWriteTask
  import opened Sequences
  import opened Words

  /** Bytes written in each second, for one key or for all of them. */
  type History = int -> Bytes

  type ClusterHistory = Lookup -> History

  /** The bytes of the seconds lo, ..., hi - 1. */
  function Window(h: History, lo: int, hi: int): Bytes
    decreases hi - lo
  {
    if hi <= lo then ZERO else Plus(Window(h, lo, hi - 1), h(hi - 1))
  }

  /** The server's answer for one key at time t: its `kept` newest seconds, newest first. */
  function NewestFirst(h: History, t: int, kept: nat): seq<Bytes> {
    seq(kept, j => h(t - 1 - j))
  }

  /** A query result at time t: every key's newest seconds in order, keys interleaved in any way. */
  ghost predicate Served(rows: seq<Row>, h: ClusterHistory, keys: set<Lookup>, t: int, kept: nat) {
    forall k :: Project(rows, k) == if k in keys then NewestFirst(h(k), t, kept) else []
  }

  lemma {:induction false} WindowOldestFirst(h: History, lo: int, hi: int)
    requires lo < hi
    ensures Window(h, lo, hi) == Plus(h(lo), Window(h, lo + 1, hi))
    decreases hi - lo
  {
    if lo + 1 < hi {
      WindowOldestFirst(h, lo, hi - 1);
      PlusAssociative(h(lo), Window(h, lo + 1, hi - 1), h(hi - 1));
    } else {
      assert Window(h, lo, lo) == ZERO == Window(h, lo + 1, hi);
    }
  }

  lemma {:induction false} NewestFirstTotal(h: History, t: int, n: nat)
    ensures Total(NewestFirst(h, t, n)) == Window(h, t - n, t)
  {
    if n > 0 {
      NewestFirstTotal(h, t, n - 1);
      assert NewestFirst(h, t, n)[..n - 1] == NewestFirst(h, t, n - 1);
      WindowOldestFirst(h, t - n, t);
    }
  }

  /** One tick adds up a window as wide as the cap, or as the server's history if that is shorter. */
  function Width(cap: nat, kept: nat): nat {
    if kept <= cap then kept else cap
  }

  lemma FirstOfNewest(h: History, t: int, cap: nat, kept: nat)
    ensures First(cap, NewestFirst(h, t, kept)) == NewestFirst(h, t, Width(cap, kept))
  {
  }

  lemma TickAddsOneWindow(rows: seq<Row>, h: ClusterHistory, keys: set<Lookup>, t: int, cap: nat, kept: nat, k: Lookup)
    requires Served(rows, h, keys, t, kept)
    ensures k in CappedUpdate(rows, cap) <==> k in keys && Width(cap, kept) > 0
    ensures k in CappedUpdate(rows, cap) ==> CappedUpdate(rows, cap)[k] == Window(h(k), t - Width(cap, kept), t)
  {
    assert Project(rows, k) == if k in keys then NewestFirst(h(k), t, kept) else [];
    ProjectEmpty(rows, k);
    if k in keys {
      FirstOfNewest(h(k), t, cap, kept);
      NewestFirstTotal(h(k), t, Width(cap, kept));
      assert CappedTotal(rows, cap, k) == Window(h(k), t - Width(cap, kept), t);
    }
  }

  // --------------------------------------------- how often a second counts

  /** How many of the ticks add up second s. */
  function Coverage(ticks: seq<int>, w: nat, s: int): nat {
    if ticks == [] then 0 else Coverage(Init(ticks), w, s) + (if Covers(Last(ticks), w, s) then 1 else 0)
  }

  predicate Covers(t: int, w: nat, s: int) {
    t - w <= s < t
  }

  function Times(n: nat, b: Bytes): Bytes {
    if n == 0 then ZERO else Plus(Times(n - 1, b), b)
  }

  /** Every second of lo, ..., hi - 1, counted as often as the ticks cover it. */
  function Weighted(h: History, ticks: seq<int>, w: nat, lo: int, hi: int): Bytes
    decreases hi - lo
  {
    if hi <= lo then ZERO
    else Plus(Weighted(h, ticks, w, lo, hi - 1), Times(Coverage(ticks, w, hi - 1), h(hi - 1)))
  }

  function SumOfWindows(h: History, ticks: seq<int>, w: nat): Bytes {
    if ticks == [] then ZERO
    else Plus(SumOfWindows(h, Init(ticks), w), Window(h, Last(ticks) - w, Last(ticks)))
  }

  function Max(x: int, y: int): int { if x < y then y else x }

  function Min(x: int, y: int): int { if x < y then x else y }

  lemma Regroup(a: Bytes, b: Bytes, c: Bytes, d: Bytes)
    ensures Plus(Plus(a, b), Plus(c, d)) == Plus(Plus(a, c), Plus(b, d))
  {
  }

  /** One more tick adds its window, clipped to the seconds in view. */
  lemma {:induction false} WeightedNext(h: History, ticks: seq<int>, t: int, w: nat, lo: int, hi: int)
    ensures Weighted(h, ticks + [t], w, lo, hi) ==
            Plus(Weighted(h, ticks, w, lo, hi), Window(h, Max(lo, t - w), Min(hi, t)))
    decreases hi - lo
  {
    assert Init(ticks + [t]) == ticks;
    if lo < hi {
      WeightedNext(h, ticks, t, w, lo, hi - 1);
      var c, b := Coverage(ticks, w, hi - 1), h(hi - 1);
      var once := if Covers(t, w, hi - 1) then b else ZERO;
      assert Times(Coverage(ticks + [t], w, hi - 1), b) == Plus(Times(c, b), once);
      ClippedWindowNext(h, t, w, lo, hi);
      Regroup(Weighted(h, ticks, w, lo, hi - 1), Window(h, Max(lo, t - w), Min(hi - 1, t)), Times(c, b), once);
    }
  }

  lemma ClippedWindowNext(h: History, t: int, w: nat, lo: int, hi: int)
    requires lo < hi
    ensures Window(h, Max(lo, t - w), Min(hi, t)) ==
            Plus(Window(h, Max(lo, t - w), Min(hi - 1, t)), if Covers(t, w, hi - 1) then h(hi - 1) else ZERO)
  {
  }

  /** Every tick's window lies within lo, ..., hi - 1. */
  ghost predicate InView(ticks: seq<int>, w: nat, lo: int, hi: int) {
    forall i :: 0 <= i < |ticks| ==> lo <= ticks[i] - w && ticks[i] <= hi
  }

  /** Summing the ticks' windows is summing the seconds by how often they are covered. */
  lemma {:induction false} WindowsBySecond(h: History, ticks: seq<int>, w: nat, lo: int, hi: int)
    requires InView(ticks, w, lo, hi)
    ensures SumOfWindows(h, ticks, w) == Weighted(h, ticks, w, lo, hi)
  {
    if ticks == [] {
      NoTicksNoWeight(h, w, lo, hi);
    } else {
      assert ticks == Init(ticks) + [Last(ticks)];
      WindowsBySecond(h, Init(ticks), w, lo, hi);
      WeightedNext(h, Init(ticks), Last(ticks), w, lo, hi);
    }
  }

  lemma NoTicksNoWeight(h: History, w: nat, lo: int, hi: int)
    ensures Weighted(h, [], w, lo, hi) == ZERO
    decreases hi - lo
  {
    if lo < hi {
      NoTicksNoWeight(h, w, lo, hi - 1);
    }
  }

  // -------------------------------------------------- whole runs of ticks

  /** One successful tick at time t, on what the server holds then. */
  ghost predicate ObservesTick(u: CounterMap, rows: seq<Row>, h: ClusterHistory, keys: set<Lookup>,
                               t: int, cap: nat, kept: nat) {
    u == CappedUpdate(rows, cap) && Served(rows, h, keys, t, kept)
  }

  /** Updates seen at the given times. */
  ghost predicate Observes(us: seq<CounterMap>, feeds: seq<seq<Row>>, h: ClusterHistory, keys: set<Lookup>,
                           ticks: seq<int>, cap: nat, kept: nat) {
    && |us| == |feeds| == |ticks|
    && forall i :: 0 <= i < |us| ==> ObservesTick(us[i], feeds[i], h, keys, ticks[i], cap, kept)
  }

  /** The successful ticks of a run happen at the given times, on what the server holds then. */
  ghost predicate ServedAt(run: seq<Event>, h: ClusterHistory, keys: set<Lookup>, ticks: seq<int>, kept: nat) {
    && |Feeds(run)| == |ticks|
    && forall i :: 0 <= i < |ticks| ==> Served(Feeds(run)[i], h, keys, ticks[i], kept)
  }

  lemma ServedObserves(cap: nat, run: seq<Event>, h: ClusterHistory, keys: set<Lookup>, ticks: seq<int>, kept: nat)
    requires ServedAt(run, h, keys, ticks, kept)
    ensures Observes(Updates(cap, run), Feeds(run), h, keys, ticks, cap, kept)
  {
    UpdatesAreCappedFeeds(cap, run);
    forall i | 0 <= i < |ticks|
      ensures ObservesTick(Updates(cap, run)[i], Feeds(run)[i], h, keys, ticks[i], cap, kept)
    {
      assert Served(Feeds(run)[i], h, keys, ticks[i], kept);
    }
  }

  /** The update holds the window of key k's history that ends at time t. */
  ghost predicate AddsWindow(u: CounterMap, k: Lookup, h: History, t: int, w: nat) {
    k in u && u[k] == Window(h, t - w, t)
  }

  /** Each update holds one window of key k's history. */
  ghost predicate AddsWindows(us: seq<CounterMap>, k: Lookup, h: History, ticks: seq<int>, w: nat) {
    && |us| == |ticks|
    && forall i :: 0 <= i < |us| ==> AddsWindow(us[i], k, h, ticks[i], w)
  }

  lemma ObservedWindow(u: CounterMap, rows: seq<Row>, h: ClusterHistory, keys: set<Lookup>,
                       t: int, cap: nat, kept: nat, k: Lookup)
    requires ObservesTick(u, rows, h, keys, t, cap, kept) && k in keys && Width(cap, kept) > 0
    ensures AddsWindow(u, k, h(k), t, Width(cap, kept))
  {
    TickAddsOneWindow(rows, h, keys, t, cap, kept, k);
  }

  lemma ObservedWindows(us: seq<CounterMap>, feeds: seq<seq<Row>>, h: ClusterHistory, keys: set<Lookup>,
                        ticks: seq<int>, cap: nat, kept: nat, k: Lookup)
    requires Observes(us, feeds, h, keys, ticks, cap, kept) && k in keys && Width(cap, kept) > 0
    ensures AddsWindows(us, k, h(k), ticks, Width(cap, kept))
  {
    forall i | 0 <= i < |us| ensures AddsWindow(us[i], k, h(k), ticks[i], Width(cap, kept)) {
      ObservedWindow(us[i], feeds[i], h, keys, ticks[i], cap, kept, k);
    }
  }

  lemma {:induction false} ContributionsAreWindows(us: seq<CounterMap>, k: Lookup, h: History, ticks: seq<int>, w: nat)
    requires AddsWindows(us, k, h, ticks, w)
    ensures |Contributions(us, k)| == |us|
    ensures Total(Contributions(us, k)) == SumOfWindows(h, ticks, w)
  {
    if us != [] {
      ContributionsAreWindows(Init(us), k, h, Init(ticks), w);
      assert AddsWindow(Last(us), k, h, Last(ticks), w);
      TotalNext(Contributions(Init(us), k), Last(us)[k]);
    }
  }

  lemma FoldWeighsSeconds(us: seq<CounterMap>, k: Lookup, h: History, ticks: seq<int>, w: nat, lo: int, hi: int)
    requires AddsWindows(us, k, h, ticks, w) && ticks != [] && InView(ticks, w, lo, hi)
    ensures k in Fold(us) && Fold(us)[k] == Weighted(h, ticks, w, lo, hi)
  {
    FoldPerKey(us, k);
    ContributionsAreWindows(us, k, h, ticks, w);
    WindowsBySecond(h, ticks, w, lo, hi);
  }

  /**
   Accounting for any run, whatever its tick times: after its successful ticks each key's
   counter is the sum over all seconds of the bytes of that second times the number of
   ticks that covered it.
   */
  lemma CountersWeighSeconds(run: seq<Event>, h: ClusterHistory, keys: set<Lookup>,
                             ticks: seq<int>, cap: nat, kept: nat, k: Lookup, lo: int, hi: int)
    requires Valid(cap, run) && ServedAt(run, h, keys, ticks, kept)
    requires k in keys && cap > 0 && kept > 0 && ticks != []
    requires InView(ticks, Width(cap, kept), lo, hi)
    ensures k in After(cap, run).counter
    ensures After(cap, run).counter[k] == Weighted(h(k), ticks, Width(cap, kept), lo, hi)
  {
    CountersAreFoldOfUpdates(cap, run);
    ServedObserves(cap, run, h, keys, ticks, kept);
    ObservedWindows(Updates(cap, run), Feeds(run), h, keys, ticks, cap, kept, k);
    FoldWeighsSeconds(Updates(cap, run), k, h(k), ticks, Width(cap, kept), lo, hi);
  }

  ghost predicate Increasing(ticks: seq<int>) {
    forall i, j :: 0 <= i < j < |ticks| ==> ticks[i] < ticks[j]
  }

  ghost predicate Spaced(ticks: seq<int>, w: nat) {
    forall i :: 0 <= i < |ticks| - 1 ==> ticks[i + 1] == ticks[i] + w
  }

  lemma {:induction false} SpacedCoverage(ticks: seq<int>, w: nat, s: int)
    requires ticks != [] && w > 0 && Spaced(ticks, w)
    ensures ticks[0] <= Last(ticks)
    ensures Coverage(ticks, w, s) == if ticks[0] - w <= s < Last(ticks) then 1 else 0
  {
    if |ticks| > 1 {
      SpacedCoverage(Init(ticks), w, s);
      assert ticks[|ticks| - 2 + 1] == ticks[|ticks| - 2] + w;
    } else {
      assert Coverage(Init(ticks), w, s) == 0;
    }
  }

  lemma {:induction false} CoverageAtLeast(ticks: seq<int>, w: nat, s: int, i: nat)
    requires i < |ticks| && Covers(ticks[i], w, s)
    ensures Coverage(ticks, w, s) >= 1
    ensures forall j :: i < j < |ticks| && Covers(ticks[j], w, s) ==> Coverage(ticks, w, s) >= 2
  {
    if i < |ticks| - 1 {
      CoverageAtLeast(Init(ticks), w, s, i);
    }
  }

  lemma {:induction false} CoverageNone(ticks: seq<int>, w: nat, s: int)
    requires forall i :: 0 <= i < |ticks| ==> !Covers(ticks[i], w, s)
    ensures Coverage(ticks, w, s) == 0
  {
    if ticks != [] {
      CoverageNone(Init(ticks), w, s);
    }
  }

  /** A gap wider than a window loses a second; a narrower one counts a second twice. */
  lemma UnevenGap(ticks: seq<int>, w: nat, i: nat)
    requires i + 1 < |ticks| && Increasing(ticks) && w > 0 && ticks[i + 1] != ticks[i] + w
    ensures exists s :: ticks[0] - w <= s < Last(ticks) && Coverage(ticks, w, s) != 1
  {
    assert ticks[0] <= ticks[i] && ticks[i + 1] <= Last(ticks);
    if ticks[i + 1] > ticks[i] + w {
      var s := ticks[i];
      forall j | 0 <= j < |ticks| ensures !Covers(ticks[j], w, s) {
        assert j <= i ==> ticks[j] <= ticks[i];
        assert j > i ==> ticks[j] >= ticks[i + 1];
      }
      CoverageNone(ticks, w, s);
      assert Coverage(ticks, w, s) != 1;
    } else {
      var s := ticks[i] - 1;
      CoverageAtLeast(ticks, w, s, i);
      assert Covers(ticks[i + 1], w, s);
      assert Coverage(ticks, w, s) != 1;
    }
  }

  /** No second is lost or counted twice exactly when the ticks are one window apart. */
  lemma EachSecondOnceIffSpaced(ticks: seq<int>, w: nat)
    requires ticks != [] && Increasing(ticks) && w > 0
    ensures (forall s :: ticks[0] - w <= s < Last(ticks) ==> Coverage(ticks, w, s) == 1) <==> Spaced(ticks, w)
  {
    if Spaced(ticks, w) {
      forall s | ticks[0] - w <= s < Last(ticks) ensures Coverage(ticks, w, s) == 1 {
        SpacedCoverage(ticks, w, s);
      }
    } else {
      var i :| 0 <= i < |ticks| - 1 && ticks[i + 1] != ticks[i] + w;
      UnevenGap(ticks, w, i);
    }
  }

  lemma {:induction false} SpacedWeight(h: History, ticks: seq<int>, w: nat, hi: int)
    requires ticks != [] && w > 0 && Spaced(ticks, w) && hi <= Last(ticks)
    ensures Weighted(h, ticks, w, ticks[0] - w, hi) == Window(h, ticks[0] - w, hi)
    decreases hi - (ticks[0] - w)
  {
    if ticks[0] - w < hi {
      SpacedWeight(h, ticks, w, hi - 1);
      SpacedCoverage(ticks, w, hi - 1);
      assert Times(0, h(hi - 1)) == ZERO && Times(1, h(hi - 1)) == h(hi - 1);
    }
  }

  /**
   Exactly-once accounting: if the server keeps at least `cap` seconds and the successful
   ticks are `cap` seconds apart, then the counter is the sum over exactly the last
   |ticks| * cap seconds (MultipleIsProduct), each counted once.
   */
  lemma ExactlyOnce(run: seq<Event>, h: ClusterHistory, keys: set<Lookup>,
                    ticks: seq<int>, cap: nat, kept: nat, k: Lookup)
    requires Valid(cap, run) && ServedAt(run, h, keys, ticks, kept)
    requires k in keys && ticks != [] && 0 < cap <= kept && Spaced(ticks, cap)
    ensures k in After(cap, run).counter
    ensures After(cap, run).counter[k] == Window(h(k), Last(ticks) - Multiple(|ticks|, cap), Last(ticks))
  {
    CountersAreFoldOfUpdates(cap, run);
    ServedObserves(cap, run, h, keys, ticks, kept);
    ObservedExactlyOnce(Updates(cap, run), Feeds(run), h, keys, ticks, cap, kept, k);
  }

  lemma ObservedExactlyOnce(us: seq<CounterMap>, feeds: seq<seq<Row>>, h: ClusterHistory, keys: set<Lookup>,
                            ticks: seq<int>, cap: nat, kept: nat, k: Lookup)
    requires Observes(us, feeds, h, keys, ticks, cap, kept)
    requires k in keys && ticks != [] && 0 < cap <= kept && Spaced(ticks, cap)
    ensures k in Fold(us) && Fold(us)[k] == Window(h(k), Last(ticks) - Multiple(|ticks|, cap), Last(ticks))
  {
    ObservedWindows(us, feeds, h, keys, ticks, cap, kept, k);
    SpacedFold(us, k, h(k), ticks, cap);
  }

  lemma SpacedFold(us: seq<CounterMap>, k: Lookup, h: History, ticks: seq<int>, w: nat)
    requires AddsWindows(us, k, h, ticks, w) && ticks != [] && w > 0 && Spaced(ticks, w)
    ensures k in Fold(us) && Fold(us)[k] == Window(h, Last(ticks) - Multiple(|ticks|, w), Last(ticks))
  {
    FoldPerKey(us, k);
    ContributionsAreWindows(us, k, h, ticks, w);
    SpacedSum(h, ticks, w);
  }

  lemma SpacedSum(h: History, ticks: seq<int>, w: nat)
    requires ticks != [] && w > 0 && Spaced(ticks, w)
    ensures SumOfWindows(h, ticks, w) == Window(h, Last(ticks) - Multiple(|ticks|, w), Last(ticks))
  {
    SpacedBounds(ticks, w);
    WindowsBySecond(h, ticks, w, ticks[0] - w, Last(ticks));
    SpacedWeight(h, ticks, w, Last(ticks));
  }

  lemma {:induction false} SpacedBounds(ticks: seq<int>, w: nat)
    requires ticks != [] && Spaced(ticks, w)
    ensures InView(ticks, w, ticks[0] - w, Last(ticks))
    ensures ticks[0] - w == Last(ticks) - Multiple(|ticks|, w)
  {
    if |ticks| > 1 {
      SpacedBounds(Init(ticks), w);
      assert ticks[|ticks| - 2 + 1] == ticks[|ticks| - 2] + w;
    } else {
      assert Multiple(1, w) == Multiple(0, w) + w;
    }
  }

  // -------------------------------------------------------------- a witness

  /**
   Ticks at 1 and 3 with windows of one second lose second 1; ticks at 2 and 3 with windows of two count second 1
   twice.
   */
  lemma UnevenTicksMiscount()
    ensures Coverage([1, 3], 1, 0) == 1 && Coverage([1, 3], 1, 1) == 0 && Coverage([1, 3], 1, 2) == 1
    ensures Coverage([2, 3], 2, 1) == 2
  {
    assert Init([1, 3]) == [1] && Init([1]) == [];
    assert Init([2, 3]) == [2] && Init([2]) == [];
  }
}
