/**
 The query-response-time collector: the same kind of histogram, but built in one pass with
 a running count instead of being cumulated afterwards.
 */
module QueryResponseTime {
  import opened Words
  import opened Histogram
  import opened Sequences

  /** A row after its two texts were parsed; a text that is no number, like "TOO LONG", parses as zero. */
  datatype Row = Row(length: real, count: U64, total: real)

  function RunningCount(rows: seq<Row>): U64 {
    if rows == [] then 0 else Add64(RunningCount(Init(rows)), Last(rows).count)
  }

  function RunningTotal(rows: seq<Row>): real {
    if rows == [] then 0.0 else RunningTotal(Init(rows)) + Last(rows).total
  }

  /** The buckets of the running-count loop. */
  function Streamed(rows: seq<Row>): Counts {
    if rows == [] then map[]
    else if Last(rows).length == 0.0 then Streamed(Init(rows))
    else Streamed(Init(rows))[Last(rows).length := RunningCount(rows)]
  }

  method ProcessTable(rows: seq<Row>, scanFails: bool)
    returns (ok: bool, histogramCnt: U64, histogramSum: real, countBuckets: Counts)
    ensures ok <==> !scanFails
    ensures ok ==> histogramCnt == RunningCount(rows) && histogramSum == RunningTotal(rows)
    ensures ok ==> countBuckets == Streamed(rows)
  {
    histogramCnt, histogramSum, countBuckets := 0, 0.0, map[];
    for i := 0 to |rows|
      invariant histogramCnt == RunningCount(rows[..i]) && histogramSum == RunningTotal(rows[..i])
      invariant countBuckets == Streamed(rows[..i])
    {
      assert Init(rows[..i + 1]) == rows[..i];
      histogramCnt := Add64(histogramCnt, rows[i].count);
      histogramSum := histogramSum + rows[i].total;
      if rows[i].length == 0.0 {
        continue;
      }
      countBuckets := countBuckets[rows[i].length := histogramCnt];
    }
    assert rows[..|rows|] == rows;
    ok := !scanFails;
  }

  // ---------------------------------------------- what the two totals are

  lemma {:induction false} TotalsConcat(a: seq<Row>, b: seq<Row>)
    ensures RunningTotal(a + b) == RunningTotal(a) + RunningTotal(b)
    ensures RunningCount(a + b) == Add64(RunningCount(a), RunningCount(b))
  {
    if b == [] {
      assert a + b == a;
    } else {
      TotalsConcat(a, Init(b));
      assert Init(a + b) == a + Init(b);
    }
  }

  lemma TotalsOfOne(r: Row)
    ensures RunningTotal([r]) == r.total && RunningCount([r]) == r.count
  {
    assert Init([r]) == [];
  }

  /** The order of the rows does not matter for the reported count and sum. */
  lemma {:induction false} TotalsIgnoreOrder(a: seq<Row>, b: seq<Row>)
    requires multiset(a) == multiset(b)
    ensures RunningTotal(a) == RunningTotal(b) && RunningCount(a) == RunningCount(b)
    decreases |a|
  {
    if a == [] {
      assert |multiset(b)| == 0;
    } else {
      assert Last(a) in multiset(a);
      assert Last(a) in multiset(b);
      var j :| 0 <= j < |b| && b[j] == Last(a);
      TakeOut(a, Init(a), [], Last(a));
      TakeOut(b, b[..j], b[j + 1..], Last(a));
      TotalsIgnoreOrder(Init(a) + [], b[..j] + b[j + 1..]);
    }
  }

  lemma TakeOut(s: seq<Row>, before: seq<Row>, behind: seq<Row>, r: Row)
    requires s == before + [r] + behind
    ensures multiset(before + behind) == multiset(s) - multiset{r}
    ensures RunningTotal(s) == RunningTotal(before + behind) + r.total
    ensures RunningCount(s) == Add64(RunningCount(before + behind), r.count)
  {
    TotalsOfOne(r);
    TotalsConcat(before + [r], behind);
    TotalsConcat(before, [r]);
    TotalsConcat(before, behind);
    SwapLast(RunningCount(before), r.count, RunningCount(behind));
  }

  lemma SwapLast(x: U64, y: U64, z: U64)
    ensures Add64(Add64(x, y), z) == Add64(Add64(x, z), y)
  {
  }

  /** The sum of bound times count over the rows. */
  function WeightedBy(bounds: seq<real>, rows: seq<Row>): real
    requires |bounds| == |rows|
  {
    if rows == [] then 0.0 else WeightedBy(Init(bounds), Init(rows)) + Times(Last(bounds), Last(rows).count)
  }

  /** If every row's queries took between its lower and its upper length each, so does the reported sum. */
  lemma {:induction false} SumWithinLengths(lower: seq<real>, rows: seq<Row>, upper: seq<real>)
    requires |lower| == |rows| == |upper|
    requires forall i :: 0 <= i < |rows| ==>
               Times(lower[i], rows[i].count) <= rows[i].total <= Times(upper[i], rows[i].count)
    ensures WeightedBy(lower, rows) <= RunningTotal(rows) <= WeightedBy(upper, rows)
  {
    if rows != [] {
      SumWithinLengths(Init(lower), Init(rows), Init(upper));
    }
  }

  ghost predicate HasLength(rows: seq<Row>, b: real) {
    exists i :: 0 <= i < |rows| && rows[i].length == b
  }

  /** There is a bucket for every length that occurs, except zero. */
  lemma {:induction false} BucketKeys(rows: seq<Row>, b: real)
    ensures b in Streamed(rows) <==> b != 0.0 && HasLength(rows, b)
  {
    if rows != [] {
      BucketKeys(Init(rows), b);
      assert HasLength(Init(rows), b) ==> HasLength(rows, b);
    }
  }

  /** A bucket holds the count of all rows up to the last one of its length. */
  lemma {:induction false} BucketValue(rows: seq<Row>, i: nat)
    requires NotAgain(rows, i) && rows[i].length != 0.0
    ensures rows[i].length in Streamed(rows)
    ensures Streamed(rows)[rows[i].length] == RunningCount(rows[..i + 1])
  {
    if i == |rows| - 1 {
      assert rows[..i + 1] == rows;
    } else {
      assert Init(rows)[..i + 1] == rows[..i + 1];
      BucketValue(Init(rows), i);
    }
  }

  ghost predicate NotAgain(rows: seq<Row>, i: nat) {
    i < |rows| && forall j :: i < j < |rows| ==> rows[j].length != rows[i].length
  }

  // --------------------------------------------------- the batch histogram

  /** The bound table that the rows with a length spell out. */
  function BoundsOf(rows: seq<Row>): seq<real> {
    if rows == [] then []
    else BoundsOf(Init(rows)) + (if Last(rows).length == 0.0 then [] else [Last(rows).length])
  }

  function RawCounts(rows: seq<Row>): Counts {
    if rows == [] then map[]
    else if Last(rows).length == 0.0 then RawCounts(Init(rows))
    else RawCounts(Init(rows))[Last(rows).length := Last(rows).count]
  }

  function Batch(rows: seq<Row>): Counts {
    Cumulate(BoundsOf(rows), RawCounts(rows), |BoundsOf(rows)|)
  }

  /** The counts of the rows without a length, modulo 2^64. */
  function TooLong(rows: seq<Row>): U64 {
    if rows == [] then 0
    else if Last(rows).length == 0.0 then Add64(TooLong(Init(rows)), Last(rows).count)
    else TooLong(Init(rows))
  }

  /** The counts of the rows with a length, modulo 2^64. */
  function WithLength(rows: seq<Row>): U64 {
    if rows == [] then 0
    else if Last(rows).length == 0.0 then WithLength(Init(rows))
    else Add64(WithLength(Init(rows)), Last(rows).count)
  }

  /** The batch histogram as one pass would build it. */
  function Expected(rows: seq<Row>): Counts {
    if rows == [] then map[]
    else if Last(rows).length == 0.0 then Expected(Init(rows))
    else Expected(Init(rows))[Last(rows).length := WithLength(rows)]
  }

  lemma {:induction false} KeysAreBounds(rows: seq<Row>)
    ensures forall b :: b in BoundsOf(rows) <==> b in RawCounts(rows)
    ensures forall b :: b in BoundsOf(rows) <==> b in Streamed(rows)
    ensures forall b :: b in BoundsOf(rows) <==> b in Expected(rows)
  {
    if rows != [] {
      KeysAreBounds(Init(rows));
    }
  }

  lemma DistinctBefore(rows: seq<Row>)
    requires rows != [] && Distinct(BoundsOf(rows))
    ensures Distinct(BoundsOf(Init(rows)))
    ensures Last(rows).length != 0.0 ==> Last(rows).length !in BoundsOf(Init(rows))
  {
    var bounds := BoundsOf(Init(rows));
    assert forall i :: 0 <= i < |bounds| ==> BoundsOf(rows)[i] == bounds[i];
    if Last(rows).length != 0.0 {
      assert BoundsOf(rows)[|bounds|] == Last(rows).length;
    }
  }

  lemma {:induction false} CumulateUnused(bounds: seq<real>, counts: Counts, b: real, x: U64, n: nat)
    requires b !in bounds && n <= |bounds|
    ensures Cumulate(bounds + [b], counts[b := x], n) == Cumulate(bounds, counts, n)[b := x]
    ensures Carry(bounds + [b], counts[b := x], n) == Carry(bounds, counts, n)
  {
    if n > 0 {
      CumulateUnused(bounds, counts, b, x, n - 1);
      assert (bounds + [b])[n - 1] == bounds[n - 1];
    }
  }

  /** A last bound whose key is new adds one bucket: its own count on top of the carry. */
  lemma CumulateNewBound(bounds: seq<real>, counts: Counts, b: real, x: U64)
    requires b !in bounds
    ensures var c := Add64(x, Carry(bounds, counts, |bounds|));
            && Cumulate(bounds + [b], counts[b := x], |bounds| + 1) == Cumulate(bounds, counts, |bounds|)[b := c]
            && Carry(bounds + [b], counts[b := x], |bounds| + 1) == c
  {
    CumulateUnused(bounds, counts, b, x, |bounds|);
  }

  lemma {:induction false} BatchIsExpected(rows: seq<Row>)
    requires Distinct(BoundsOf(rows))
    ensures Batch(rows) == Expected(rows)
    ensures Carry(BoundsOf(rows), RawCounts(rows), |BoundsOf(rows)|) == WithLength(rows)
  {
    if rows != [] {
      DistinctBefore(rows);
      BatchIsExpected(Init(rows));
      if Last(rows).length != 0.0 {
        CumulateNewBound(BoundsOf(Init(rows)), RawCounts(Init(rows)), Last(rows).length, Last(rows).count);
      } else {
        assert BoundsOf(rows) == BoundsOf(Init(rows));
      }
    }
  }

  lemma {:induction false} CountSplits(rows: seq<Row>)
    ensures RunningCount(rows) == Add64(WithLength(rows), TooLong(rows))
  {
    if rows != [] {
      CountSplits(Init(rows));
    }
  }

  /** Before every row with a length, the rows without one count for nothing. */
  ghost predicate NothingTooLongBefore(rows: seq<Row>) {
    forall i :: 0 <= i < |rows| && rows[i].length != 0.0 ==> TooLong(rows[..i]) == 0
  }

  lemma NothingTooLongNext(rows: seq<Row>)
    requires rows != []
    ensures NothingTooLongBefore(rows) <==>
            NothingTooLongBefore(Init(rows)) && (Last(rows).length != 0.0 ==> TooLong(Init(rows)) == 0)
  {
    var before := Init(rows);
    assert rows[..|before|] == before;
    assert forall i :: 0 <= i < |before| ==> before[..i] == rows[..i] && before[i] == rows[i];
  }

  lemma {:induction false} StreamedIsExpectedIff(rows: seq<Row>)
    requires Distinct(BoundsOf(rows))
    ensures Streamed(rows) == Expected(rows) <==> NothingTooLongBefore(rows)
  {
    if rows != [] {
      DistinctBefore(rows);
      StreamedIsExpectedIff(Init(rows));
      NothingTooLongNext(rows);
      if Last(rows).length != 0.0 {
        KeysAreBounds(Init(rows));
        CountSplits(Init(rows));
        SameUpdateIff(Streamed(Init(rows)), Expected(Init(rows)), Last(rows).length,
                      RunningCount(rows), WithLength(rows));
      }
    }
  }

  lemma SameUpdateIff(a: Counts, b: Counts, k: real, x: U64, y: U64)
    requires k !in a && k !in b
    ensures a[k := x] == b[k := y] <==> a == b && x == y
  {
    if a[k := x] == b[k := y] {
      assert a == a[k := x] - {k} == b[k := y] - {k} == b;
      assert x == a[k := x][k];
    }
  }

  /**
   Streaming equals batch exactly when no "TOO LONG" count precedes a bucket: for rows of
   distinct lengths, the running-count buckets are the cumulated raw counts iff the rows
   without a length that come before a row with one add up to zero.
   */
  lemma StreamingIsBatchIff(rows: seq<Row>)
    requires Distinct(BoundsOf(rows))
    ensures Streamed(rows) == Batch(rows) <==> NothingTooLongBefore(rows)
  {
    BatchIsExpected(rows);
    StreamedIsExpectedIff(rows);
  }

  /** One row without a length in front of a bucket is counted in it by streaming, but not by cumulation. */
  lemma TooLongInFrontDiffers()
    ensures var rows := [Row(0.0, 1, 0.0), Row(1.0, 2, 0.0)]; Streamed(rows) != Batch(rows)
  {
    var rows := [Row(0.0, 1, 0.0), Row(1.0, 2, 0.0)];
    assert rows[..1] == [Row(0.0, 1, 0.0)] == Init(rows);
    assert Init([Row(0.0, 1, 0.0)]) == [];
    assert BoundsOf(rows) == [1.0];
    assert TooLong(rows[..1]) == 1;
    StreamingIsBatchIff(rows);
  }

  // ------------------------------------------------- buckets against the count

  function ExactCount(rows: seq<Row>): nat {
    if rows == [] then 0 else ExactCount(Init(rows)) + Last(rows).count
  }

  lemma {:induction false} RunningIsExact(rows: seq<Row>)
    requires ExactCount(rows) < TWO_64
    ensures RunningCount(rows) == ExactCount(rows)
  {
    if rows != [] {
      RunningIsExact(Init(rows));
    }
  }

  /** Without overflow no bucket exceeds the reported count. */
  lemma {:induction false} BucketsWithinCount(rows: seq<Row>, b: real)
    requires ExactCount(rows) < TWO_64 && b in Streamed(rows)
    ensures Streamed(rows)[b] <= RunningCount(rows)
  {
    RunningIsExact(rows);
    RunningIsExact(Init(rows));
    if Last(rows).length == 0.0 || b != Last(rows).length {
      BucketsWithinCount(Init(rows), b);
    }
  }

  /** With the rows without a length at the end, the last bucket and their counts make up the reported count. */
  lemma {:induction false} LastBucketAndTooLong(rows: seq<Row>, n: nat)
    requires 0 < n <= |rows| && rows[n - 1].length != 0.0
    requires forall i :: n <= i < |rows| ==> rows[i].length == 0.0
    ensures rows[n - 1].length in Streamed(rows)
    ensures RunningCount(rows) == Add64(Streamed(rows)[rows[n - 1].length], TooLong(rows[n..]))
  {
    if n == |rows| {
      assert rows[n..] == [];
    } else {
      LastBucketAndTooLong(Init(rows), n);
      assert Init(rows[n..]) == Init(rows)[n..];
    }
  }
}
