/**
 How far the artificial sum can be from the true sum of the observations that the raw
 buckets count, and that no better bound exists.
 */
module HistogramError {
  import opened Histogram

  /** Bucket i holds the values above the previous bound and up to its own; the first one also holds zero. */
  ghost predicate InBucket(bounds: seq<real>, i: nat, x: real) {
    i < |bounds| && (if i == 0 then 0.0 <= x else bounds[i - 1] < x) && x <= bounds[i]
  }

  ghost predicate Placed(bounds: seq<real>, x: real) {
    exists i :: InBucket(bounds, i, x)
  }

  ghost function CountIn(bounds: seq<real>, obs: seq<real>, i: nat): nat {
    if obs == [] then 0
    else CountIn(bounds, obs[..|obs| - 1], i) + (if InBucket(bounds, i, obs[|obs| - 1]) then 1 else 0)
  }

  /** The observations are what the raw counts count. */
  ghost predicate Consistent(bounds: seq<real>, counts: Counts, obs: seq<real>) {
    && (forall x :: x in obs ==> Placed(bounds, x))
    && (forall i :: 0 <= i < |bounds| ==> CountIn(bounds, obs, i) == Get(counts, bounds[i]))
  }

  ghost predicate BoundTable(bounds: seq<real>) {
    Increasing(bounds) && (bounds != [] ==> bounds[0] >= 0.0)
  }

  function RealSum(obs: seq<real>): real {
    if obs == [] then 0.0 else RealSum(obs[..|obs| - 1]) + obs[|obs| - 1]
  }

  function HalfWidth(bounds: seq<real>, i: nat): real
    requires i < |bounds|
  {
    (bounds[i] - Prev(bounds, i)) / 2.0
  }

  /** Sum over the first n buckets of half the width times the count. */
  function ErrorBoundTo(bounds: seq<real>, counts: Counts, n: nat): real
    requires n <= |bounds|
  {
    if n == 0 then 0.0
    else ErrorBoundTo(bounds, counts, n - 1) + Times(HalfWidth(bounds, n - 1), Get(counts, bounds[n - 1]))
  }

  // ---------------------------- from counts per bucket to single observations

  /** Weights summed bucket by bucket, by count. */
  ghost function ByBucket(w: seq<real>, bounds: seq<real>, obs: seq<real>, n: nat): real
    requires n <= |w|
  {
    if n == 0 then 0.0 else ByBucket(w, bounds, obs, n - 1) + Times(w[n - 1], CountIn(bounds, obs, n - 1))
  }

  lemma {:induction false} OneMoreObservation(w: seq<real>, bounds: seq<real>, obs: seq<real>, x: real, i: nat, n: nat)
    requires n <= |w| == |bounds| && BoundTable(bounds) && InBucket(bounds, i, x)
    ensures ByBucket(w, bounds, obs + [x], n) == ByBucket(w, bounds, obs, n) + (if i < n then w[i] else 0.0)
  {
    if n > 0 {
      OneMoreObservation(w, bounds, obs, x, i, n - 1);
      assert (obs + [x])[..|obs|] == obs;
      assert InBucket(bounds, n - 1, x) <==> i == n - 1;
    }
  }

  function Middles(bounds: seq<real>): seq<real> {
    seq(|bounds|, i requires 0 <= i < |bounds| => Middle(bounds, i))
  }

  function HalfWidths(bounds: seq<real>): seq<real> {
    seq(|bounds|, i requires 0 <= i < |bounds| => HalfWidth(bounds, i))
  }

  lemma {:induction false} ErrorPerObservation(bounds: seq<real>, obs: seq<real>)
    requires BoundTable(bounds) && forall x :: x in obs ==> Placed(bounds, x)
    ensures var middle := ByBucket(Middles(bounds), bounds, obs, |bounds|);
            var half := ByBucket(HalfWidths(bounds), bounds, obs, |bounds|);
            -half <= RealSum(obs) - middle <= half
  {
    if obs == [] {
      NoObservations(Middles(bounds), bounds, |bounds|);
      NoObservations(HalfWidths(bounds), bounds, |bounds|);
    } else {
      var init, x := obs[..|obs| - 1], obs[|obs| - 1];
      assert Placed(bounds, x);
      var i :| InBucket(bounds, i, x);
      assert obs == init + [x];
      ErrorPerObservation(bounds, init);
      OneMoreObservation(Middles(bounds), bounds, init, x, i, |bounds|);
      OneMoreObservation(HalfWidths(bounds), bounds, init, x, i, |bounds|);
    }
  }

  lemma NoObservations(w: seq<real>, bounds: seq<real>, n: nat)
    requires n <= |w|
    ensures ByBucket(w, bounds, [], n) == 0.0
  {
    if n > 0 {
      NoObservations(w, bounds, n - 1);
    }
  }

  lemma {:induction false} ConsistentSums(bounds: seq<real>, counts: Counts, obs: seq<real>, n: nat)
    requires Consistent(bounds, counts, obs) && n <= |bounds|
    ensures ByBucket(Middles(bounds), bounds, obs, n) == ArtificialSumTo(bounds, counts, n)
    ensures ByBucket(HalfWidths(bounds), bounds, obs, n) == ErrorBoundTo(bounds, counts, n)
  {
    if n > 0 {
      ConsistentSums(bounds, counts, obs, n - 1);
      assert CountIn(bounds, obs, n - 1) == Get(counts, bounds[n - 1]);
    }
  }

  /**
   For whatever observations the raw buckets count, the artificial sum is within half a bucket width per
   observation.
   */
  lemma ArtificialSumError(bounds: seq<real>, counts: Counts, obs: seq<real>)
    requires BoundTable(bounds) && Consistent(bounds, counts, obs)
    ensures -ErrorBoundTo(bounds, counts, |bounds|)
            <= RealSum(obs) - ArtificialSumTo(bounds, counts, |bounds|)
            <= ErrorBoundTo(bounds, counts, |bounds|)
  {
    ErrorPerObservation(bounds, obs);
    ConsistentSums(bounds, counts, obs, |bounds|);
  }

  // ------------------------------------------------- the bound is attained

  function Repeat(x: real, n: nat): seq<real> {
    if n == 0 then [] else Repeat(x, n - 1) + [x]
  }

  /** Every observation as large as its bucket allows. */
  function AllAtBounds(bounds: seq<real>, counts: Counts, n: nat): seq<real>
    requires n <= |bounds|
  {
    if n == 0 then [] else AllAtBounds(bounds, counts, n - 1) + Repeat(bounds[n - 1], Get(counts, bounds[n - 1]))
  }

  lemma {:induction false} AppendRepeated(bounds: seq<real>, obs: seq<real>, x: real, n: nat, i: nat)
    ensures CountIn(bounds, obs + Repeat(x, n), i) ==
            CountIn(bounds, obs, i) + (if InBucket(bounds, i, x) then n else 0)
    ensures RealSum(obs + Repeat(x, n)) == RealSum(obs) + Times(x, n)
  {
    if n == 0 {
      assert obs + Repeat(x, 0) == obs;
    } else {
      AppendRepeated(bounds, obs, x, n - 1, i);
      var all := obs + Repeat(x, n);
      assert all[..|all| - 1] == obs + Repeat(x, n - 1) && all[|all| - 1] == x;
    }
  }

  lemma {:induction false} AllAtBoundsSum(bounds: seq<real>, counts: Counts, n: nat)
    requires n <= |bounds|
    ensures RealSum(AllAtBounds(bounds, counts, n)) ==
            ArtificialSumTo(bounds, counts, n) + ErrorBoundTo(bounds, counts, n)
  {
    if n > 0 {
      AllAtBoundsSum(bounds, counts, n - 1);
      AppendRepeated(bounds, AllAtBounds(bounds, counts, n - 1), bounds[n - 1], Get(counts, bounds[n - 1]), 0);
      assert Middle(bounds, n - 1) + HalfWidth(bounds, n - 1) == bounds[n - 1];
      TimesPlus(Middle(bounds, n - 1), HalfWidth(bounds, n - 1), Get(counts, bounds[n - 1]));
    }
  }

  lemma {:induction false} AllAtBoundsCounts(bounds: seq<real>, counts: Counts, n: nat, i: nat)
    requires BoundTable(bounds) && n <= |bounds| && i < |bounds|
    ensures CountIn(bounds, AllAtBounds(bounds, counts, n), i) == if i < n then Get(counts, bounds[i]) else 0
  {
    if n > 0 {
      AllAtBoundsCounts(bounds, counts, n - 1, i);
      AppendRepeated(bounds, AllAtBounds(bounds, counts, n - 1), bounds[n - 1], Get(counts, bounds[n - 1]), i);
      assert InBucket(bounds, i, bounds[n - 1]) <==> i == n - 1;
    }
  }

  lemma {:induction false} AllAtBoundsPlaced(bounds: seq<real>, counts: Counts, n: nat)
    requires BoundTable(bounds) && n <= |bounds|
    ensures forall x :: x in AllAtBounds(bounds, counts, n) ==> Placed(bounds, x)
  {
    if n > 0 {
      AllAtBoundsPlaced(bounds, counts, n - 1);
      RepeatHolds(bounds[n - 1], Get(counts, bounds[n - 1]));
      assert InBucket(bounds, n - 1, bounds[n - 1]);
    }
  }

  lemma {:induction false} RepeatHolds(x: real, n: nat)
    ensures forall y :: y in Repeat(x, n) ==> y == x
  {
    if n > 0 {
      RepeatHolds(x, n - 1);
    }
  }

  /** Some observations consistent with the buckets are off by exactly the bound, so it cannot be improved. */
  lemma ArtificialSumErrorAttained(bounds: seq<real>, counts: Counts)
    requires BoundTable(bounds)
    ensures exists obs ::
              && Consistent(bounds, counts, obs)
              && RealSum(obs) - ArtificialSumTo(bounds, counts, |bounds|) == ErrorBoundTo(bounds, counts, |bounds|)
  {
    var obs := AllAtBounds(bounds, counts, |bounds|);
    AllAtBoundsPlaced(bounds, counts, |bounds|);
    AllAtBoundsSum(bounds, counts, |bounds|);
    forall i | 0 <= i < |bounds| ensures CountIn(bounds, obs, i) == Get(counts, bounds[i]) {
      AllAtBoundsCounts(bounds, counts, |bounds|, i);
    }
    assert Consistent(bounds, counts, obs);
  }
}
