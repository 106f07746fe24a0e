/**
 The histogram helper of the ndbinfo collectors: a table of upper bounds, and buckets that
 map an upper bound to a count. Floating-point numbers are modelled as reals.
 */
module Histogram {
  import opened Words

  type Counts = map<real, U64>

  /** A Go bucket map: shared by reference, missing keys read as zero. */
  class Bucket {
    var counts: Counts

    constructor ()
      ensures counts == map[]
    {
      counts := map[];
    }
  }

  function Get(counts: Counts, bound: real): U64 {
    if bound in counts then counts[bound] else 0
  }

  function Prev(bounds: seq<real>, i: nat): real
    requires i <= |bounds|
  {
    if i == 0 then 0.0 else bounds[i - 1]
  }

  /** The middle of bucket i: what the artificial sum takes every observation in it to be. */
  function Middle(bounds: seq<real>, i: nat): real
    requires i < |bounds|
  {
    (bounds[i] + Prev(bounds, i)) / 2.0
  }

  /** x added n times: the product x * n, kept linear for the proofs below. */
  function Times(x: real, n: nat): real {
    if n == 0 then 0.0 else Times(x, n - 1) + x
  }

  lemma {:induction false} TimesIsProduct(x: real, n: nat)
    ensures Times(x, n) == x * n as real
  {
    if n > 0 {
      TimesIsProduct(x, n - 1);
      assert x * n as real == x * (n - 1) as real + x;
    }
  }

  lemma {:induction false} TimesAdd(x: real, m: nat, n: nat)
    ensures Times(x, m + n) == Times(x, m) + Times(x, n)
  {
    if n > 0 {
      TimesAdd(x, m, n - 1);
    }
  }

  lemma {:induction false} TimesPlus(x: real, y: real, n: nat)
    ensures Times(x + y, n) == Times(x, n) + Times(y, n)
  {
    if n > 0 {
      TimesPlus(x, y, n - 1);
    }
  }

  // ----------------------------------------------------- the artificial sum

  /** Sum over the first n buckets of middle times count. */
  function ArtificialSumTo(bounds: seq<real>, counts: Counts, n: nat): real
    requires n <= |bounds|
  {
    if n == 0 then 0.0
    else ArtificialSumTo(bounds, counts, n - 1) + Times(Middle(bounds, n - 1), Get(counts, bounds[n - 1]))
  }

  method ArtificialSum(upperBounds: seq<real>, bucket: Bucket) returns (sum: real)
    ensures sum == ArtificialSumTo(upperBounds, bucket.counts, |upperBounds|)
  {
    var prev := 0.0;
    sum := 0.0;
    for i := 0 to |upperBounds|
      invariant prev == Prev(upperBounds, i)
      invariant sum == ArtificialSumTo(upperBounds, bucket.counts, i)
    {
      TimesIsProduct(Middle(upperBounds, i), Get(bucket.counts, upperBounds[i]));
      sum := sum + (upperBounds[i] + prev) / 2.0 * Get(bucket.counts, upperBounds[i]) as real;
      prev := upperBounds[i];
    }
  }

  // ------------------------------------------------------------ cumulation

  /** The map after the first n bounds have been visited, for any bound table. */
  function Cumulate(bounds: seq<real>, counts: Counts, n: nat): Counts
    requires n <= |bounds|
    decreases n, 0
  {
    if n == 0 then counts
    else
      var done := Cumulate(bounds, counts, n - 1);
      done[bounds[n - 1] := Add64(Get(done, bounds[n - 1]), Carry(bounds, counts, n - 1))]
  }

  function Carry(bounds: seq<real>, counts: Counts, n: nat): U64
    requires n <= |bounds|
    decreases n, 1
  {
    if n == 0 then 0 else Get(Cumulate(bounds, counts, n), bounds[n - 1])
  }

  method MakeCumulative(upperBounds: seq<real>, bucket: Bucket)
    modifies bucket
    ensures bucket.counts == Cumulate(upperBounds, old(bucket.counts), |upperBounds|)
  {
    var sum: U64 := 0;
    for i := 0 to |upperBounds|
      invariant bucket.counts == Cumulate(upperBounds, old(bucket.counts), i)
      invariant sum == Carry(upperBounds, old(bucket.counts), i)
    {
      var bound := upperBounds[i];
      bucket.counts := bucket.counts[bound := Add64(Get(bucket.counts, bound), sum)];
      sum := bucket.counts[bound];
    }
  }

  ghost predicate Distinct(bounds: seq<real>) {
    forall i, j :: 0 <= i < j < |bounds| ==> bounds[i] != bounds[j]
  }

  ghost predicate Increasing(bounds: seq<real>) {
    forall i, j :: 0 <= i < j < |bounds| ==> bounds[i] < bounds[j]
  }

  /** Exact number of observations counted under the first n bounds. */
  function CountTo(bounds: seq<real>, counts: Counts, n: nat): nat
    requires n <= |bounds|
  {
    if n == 0 then 0 else CountTo(bounds, counts, n - 1) + Get(counts, bounds[n - 1])
  }

  /** The same count, wrapping at every addition. */
  function CountTo64(bounds: seq<real>, counts: Counts, n: nat): U64
    requires n <= |bounds|
  {
    if n == 0 then 0 else Add64(CountTo64(bounds, counts, n - 1), Get(counts, bounds[n - 1]))
  }

  lemma {:induction false} CountTo64IsModular(bounds: seq<real>, counts: Counts, n: nat)
    requires n <= |bounds|
    ensures CountTo64(bounds, counts, n) == Wrap64(CountTo(bounds, counts, n))
  {
    if n > 0 {
      CountTo64IsModular(bounds, counts, n - 1);
      Add64IsModular(CountTo(bounds, counts, n - 1), Get(counts, bounds[n - 1]));
    }
  }

  lemma {:induction false} CumulateElsewhere(bounds: seq<real>, counts: Counts, n: nat, b: real)
    requires n <= |bounds| && b !in bounds[..n]
    ensures b in Cumulate(bounds, counts, n) <==> b in counts
    ensures Get(Cumulate(bounds, counts, n), b) == Get(counts, b)
  {
    if n > 0 {
      assert bounds[..n] == bounds[..n - 1] + [bounds[n - 1]];
      CumulateElsewhere(bounds, counts, n - 1, b);
    }
  }

  lemma {:induction false} CumulateAt(bounds: seq<real>, counts: Counts, n: nat, i: nat)
    requires Distinct(bounds) && i < n <= |bounds|
    ensures bounds[i] in Cumulate(bounds, counts, n)
    ensures Get(Cumulate(bounds, counts, n), bounds[i]) == CountTo64(bounds, counts, i + 1)
  {
    if i < n - 1 {
      CumulateAt(bounds, counts, n - 1, i);
    } else {
      CumulateElsewhere(bounds, counts, n - 1, bounds[n - 1]);
      if n > 1 {
        CumulateAt(bounds, counts, n - 1, n - 2);
      }
    }
  }

  /**
   With distinct bounds, cumulation leaves at bound i the sum modulo 2^64 of the counts up
   to it (a missing key counting zero), makes every bound a key and leaves other keys alone.
   */
  lemma CumulateMeaning(bounds: seq<real>, counts: Counts)
    requires Distinct(bounds)
    ensures var c := Cumulate(bounds, counts, |bounds|);
            && (forall b :: b in c <==> b in counts || b in bounds)
            && (forall i :: 0 <= i < |bounds| ==> Get(c, bounds[i]) == Wrap64(CountTo(bounds, counts, i + 1)))
            && (forall b :: b in counts && b !in bounds ==> c[b] == counts[b])
  {
    var n, c := |bounds|, Cumulate(bounds, counts, |bounds|);
    forall i | 0 <= i < n ensures bounds[i] in c && Get(c, bounds[i]) == Wrap64(CountTo(bounds, counts, i + 1)) {
      CumulateAt(bounds, counts, n, i);
      CountTo64IsModular(bounds, counts, i + 1);
    }
    forall b | b !in bounds ensures (b in c <==> b in counts) && Get(c, b) == Get(counts, b) {
      CumulateElsewhere(bounds, counts, n, b);
    }
  }

  function Sub64(x: U64, y: U64): U64 {
    if x >= y then x - y else x + TWO_64 - y
  }

  /** Differences of neighbouring buckets. */
  function Difference(bounds: seq<real>, cumulative: Counts, i: nat): U64
    requires i < |bounds|
  {
    Sub64(Get(cumulative, bounds[i]), if i == 0 then 0 else Get(cumulative, bounds[i - 1]))
  }

  /** Taking differences gives back every raw count, overflow or not. */
  lemma DifferencesUndoCumulate(bounds: seq<real>, counts: Counts, i: nat)
    requires Distinct(bounds) && i < |bounds|
    ensures Difference(bounds, Cumulate(bounds, counts, |bounds|), i) == Get(counts, bounds[i])
  {
    CumulateAt(bounds, counts, |bounds|, i);
    if i > 0 {
      CumulateAt(bounds, counts, |bounds|, i - 1);
    }
  }

  lemma {:induction false} CountToGrows(bounds: seq<real>, counts: Counts, i: nat, n: nat)
    requires i <= n <= |bounds|
    ensures CountTo(bounds, counts, i) <= CountTo(bounds, counts, n)
  {
    if i < n {
      CountToGrows(bounds, counts, i, n - 1);
    }
  }

  lemma ExactBucket(bounds: seq<real>, counts: Counts, i: nat)
    requires Distinct(bounds) && i < |bounds| && CountTo(bounds, counts, |bounds|) < TWO_64
    ensures Get(Cumulate(bounds, counts, |bounds|), bounds[i]) == CountTo(bounds, counts, i + 1)
  {
    CumulateAt(bounds, counts, |bounds|, i);
    CountToGrows(bounds, counts, i + 1, |bounds|);
    CountTo64IsModular(bounds, counts, i + 1);
    Wrap64Small(CountTo(bounds, counts, i + 1));
  }

  /** Without overflow the buckets are exact counts; they never decrease and end in the number of all observations. */
  lemma CumulateExact(bounds: seq<real>, counts: Counts, i: nat)
    requires Distinct(bounds) && i < |bounds| && CountTo(bounds, counts, |bounds|) < TWO_64
    ensures var c := Cumulate(bounds, counts, |bounds|);
            && Get(c, bounds[i]) == CountTo(bounds, counts, i + 1)
            && (i > 0 ==> Get(c, bounds[i - 1]) <= Get(c, bounds[i]))
            && (i == |bounds| - 1 ==> Get(c, bounds[i]) == CountTo(bounds, counts, |bounds|))
  {
    ExactBucket(bounds, counts, i);
    if i > 0 {
      ExactBucket(bounds, counts, i - 1);
      CountToGrows(bounds, counts, i, i + 1);
    }
  }

  // ------------------------------------------------------ summation by parts

  /**
   The distance from bucket i's middle to the next one's, times the cumulative count at bound i, summed over i <
   n.
   */
  function Corrections(bounds: seq<real>, cumulative: Counts, n: nat): real
    requires n < |bounds| || n == 0
  {
    if n == 0 then 0.0
    else Corrections(bounds, cumulative, n - 1)
         + Times(Middle(bounds, n) - Middle(bounds, n - 1), Get(cumulative, bounds[n - 1]))
  }

  lemma {:induction false} ByPartsTo(bounds: seq<real>, counts: Counts, c: Counts, n: nat)
    requires 0 < n <= |bounds|
    requires forall i :: 0 <= i < n ==> Get(c, bounds[i]) == CountTo(bounds, counts, i + 1)
    ensures ArtificialSumTo(bounds, counts, n) ==
            Times(Middle(bounds, n - 1), Get(c, bounds[n - 1])) - Corrections(bounds, c, n - 1)
  {
    assert Get(c, bounds[n - 1]) == CountTo(bounds, counts, n);
    if n == 1 {
      assert CountTo(bounds, counts, 0) == 0;
    } else {
      ByPartsTo(bounds, counts, c, n - 1);
      assert Get(c, bounds[n - 2]) == CountTo(bounds, counts, n - 1);
      MoveToNextMiddle(Middle(bounds, n - 2), Middle(bounds, n - 1), Get(c, bounds[n - 2]), Get(counts, bounds[n - 1]));
    }
  }

  lemma MoveToNextMiddle(here: real, next: real, c: nat, x: nat)
    ensures Times(here, c) + Times(next, x) == Times(next, c + x) - Times(next - here, c)
  {
    TimesAdd(next, c, x);
    TimesPlus(here, next - here, c);
  }

  /** The artificial sum as it can be read off the cumulative buckets. */
  function ByParts(bounds: seq<real>, cumulative: Counts): real
    requires bounds != []
  {
    var n := |bounds|;
    Times(Middle(bounds, n - 1), Get(cumulative, bounds[n - 1])) - Corrections(bounds, cumulative, n - 1)
  }

  lemma ArtificialSumByParts(bounds: seq<real>, counts: Counts)
    requires Distinct(bounds) && bounds != [] && CountTo(bounds, counts, |bounds|) < TWO_64
    ensures ArtificialSumTo(bounds, counts, |bounds|) == ByParts(bounds, Cumulate(bounds, counts, |bounds|))
  {
    CumulatesExactly(bounds, counts);
    ByPartsTo(bounds, counts, Cumulate(bounds, counts, |bounds|), |bounds|);
  }

  lemma CumulatesExactly(bounds: seq<real>, counts: Counts)
    requires Distinct(bounds) && CountTo(bounds, counts, |bounds|) < TWO_64
    ensures forall i :: 0 <= i < |bounds| ==>
              Get(Cumulate(bounds, counts, |bounds|), bounds[i]) == CountTo(bounds, counts, i + 1)
  {
    forall i | 0 <= i < |bounds|
      ensures Get(Cumulate(bounds, counts, |bounds|), bounds[i]) == CountTo(bounds, counts, i + 1)
    {
      ExactBucket(bounds, counts, i);
    }
  }
}
