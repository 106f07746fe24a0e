/**
 The counters of the disk-write-speed task: what one tick adds up, and what folding
 any number of ticks into the global counter map amounts to.
 */
module DiskWriteCounters {
  import opened Words

  datatype Lookup = Lookup(nodeID: string, thrNo: string)

  datatype Bytes = Bytes(backupLcp: U64, redo: U64)

  type CounterMap = map<Lookup, Bytes>

  datatype Row = Row(lookup: Lookup, bytes: Bytes)

  const ZERO := Bytes(0, 0)

  /** Field-wise addition, wrapping as uint64 does. */
  function Plus(a: Bytes, b: Bytes): Bytes {
    Bytes(Add64(a.backupLcp, b.backupLcp), Add64(a.redo, b.redo))
  }

  lemma PlusAssociative(a: Bytes, b: Bytes, c: Bytes)
    ensures Plus(Plus(a, b), c) == Plus(a, Plus(b, c))
  {
  }

  function Total(bs: seq<Bytes>): Bytes {
    if bs == [] then ZERO else Plus(Total(bs[..|bs| - 1]), bs[|bs| - 1])
  }

  lemma {:induction false} TotalAppend(xs: seq<Bytes>, ys: seq<Bytes>)
    ensures Total(xs + ys) == Plus(Total(xs), Total(ys))
  {
    if ys == [] {
      assert xs + ys == xs;
    } else {
      var init, last := ys[..|ys| - 1], ys[|ys| - 1];
      assert (xs + ys)[..|xs + ys| - 1] == xs + init;
      TotalAppend(xs, init);
      PlusAssociative(Total(xs), Total(init), last);
    }
  }

  /** Exact, unbounded sums of the two fields. */
  function ExactLcp(bs: seq<Bytes>): nat {
    if bs == [] then 0 else ExactLcp(bs[..|bs| - 1]) + bs[|bs| - 1].backupLcp
  }

  function ExactRedo(bs: seq<Bytes>): nat {
    if bs == [] then 0 else ExactRedo(bs[..|bs| - 1]) + bs[|bs| - 1].redo
  }

  lemma {:induction false} TotalIsExactModulo(bs: seq<Bytes>)
    ensures Total(bs) == Bytes(Wrap64(ExactLcp(bs)), Wrap64(ExactRedo(bs)))
  {
    if bs != [] {
      TotalIsExactModulo(bs[..|bs| - 1]);
      Add64IsModular(ExactLcp(bs[..|bs| - 1]), bs[|bs| - 1].backupLcp);
      Add64IsModular(ExactRedo(bs[..|bs| - 1]), bs[|bs| - 1].redo);
    }
  }

  lemma TotalIsExact(bs: seq<Bytes>)
    requires ExactLcp(bs) < TWO_64 && ExactRedo(bs) < TWO_64
    ensures Total(bs) == Bytes(ExactLcp(bs), ExactRedo(bs))
  {
    TotalIsExactModulo(bs);
    Wrap64Small(ExactLcp(bs));
    Wrap64Small(ExactRedo(bs));
  }

  lemma {:induction false} ExactGrows(bs: seq<Bytes>, n: nat)
    requires n <= |bs|
    ensures ExactLcp(bs[..n]) <= ExactLcp(bs) && ExactRedo(bs[..n]) <= ExactRedo(bs)
  {
    if n == |bs| {
      assert bs[..n] == bs;
    } else {
      assert bs[..|bs| - 1][..n] == bs[..n];
      ExactGrows(bs[..|bs| - 1], n);
    }
  }

  // ---------------------------------------------------------------- one tick

  /** The values of one key, in the order the server sent them. */
  function Project(rows: seq<Row>, k: Lookup): seq<Bytes> {
    if rows == [] then []
    else
      var last := rows[|rows| - 1];
      Project(rows[..|rows| - 1], k) + (if last.lookup == k then [last.bytes] else [])
  }

  function First<T>(n: nat, s: seq<T>): seq<T> {
    if |s| <= n then s else s[..n]
  }

  function Lookups(rows: seq<Row>): set<Lookup> {
    if rows == [] then {} else Lookups(rows[..|rows| - 1]) + {rows[|rows| - 1].lookup}
  }

  function CappedTotal(rows: seq<Row>, cap: nat, k: Lookup): Bytes {
    Total(First(cap, Project(rows, k)))
  }

  /** What one tick contributes: per key, its first `cap` rows; nothing at all for a zero cap. */
  function CappedUpdate(rows: seq<Row>, cap: nat): CounterMap {
    map k | k in Lookups(rows) && cap > 0 :: CappedTotal(rows, cap, k)
  }

  lemma {:induction false} ProjectEmpty(rows: seq<Row>, k: Lookup)
    ensures Project(rows, k) == [] <==> k !in Lookups(rows)
  {
    if rows != [] {
      var init := rows[..|rows| - 1];
      ProjectEmpty(init, k);
    }
  }

  /** Of one row its own key gets the bytes, and no other key anything; of more rows each key gets its own in order. */
  lemma {:induction false} ProjectConcat(rows: seq<Row>, more: seq<Row>, row: Row, k: Lookup)
    ensures Project([row], k) == if row.lookup == k then [row.bytes] else []
    ensures Project(rows + more, k) == Project(rows, k) + Project(more, k)
  {
    assert [row][..0] == [];
    if more == [] {
      assert rows + more == rows;
    } else {
      var init, last := more[..|more| - 1], more[|more| - 1];
      ProjectConcat(rows, init, row, k);
      assert rows + more == (rows + init) + [last];
      ProjectNext(rows + init, last, k);
    }
  }

  lemma ProjectNext(rows: seq<Row>, row: Row, k: Lookup)
    ensures Project(rows + [row], k) == Project(rows, k) + (if row.lookup == k then [row.bytes] else [])
  {
    assert (rows + [row])[..|rows|] == rows;
  }

  /** Under key k the update holds the total of the first `cap` rows of that key, and no entry if there are none. */
  ghost predicate HoldsFirstRows(update: CounterMap, rows: seq<Row>, cap: nat, k: Lookup) {
    var mine := Project(rows, k);
    && (k in update <==> mine != [] && cap > 0)
    && (k in update ==> update[k] == Total(if |mine| <= cap then mine else mine[..cap]))
  }

  lemma UpdateHoldsFirstRows(rows: seq<Row>, cap: nat, k: Lookup)
    ensures HoldsFirstRows(CappedUpdate(rows, cap), rows, cap, k)
  {
    ProjectEmpty(rows, k);
  }

  /** How many rows of a key have been added up: what the row loop keeps in its limit map. */
  function Counted(rows: seq<Row>, cap: nat, k: Lookup): nat {
    |First(cap, Project(rows, k))|
  }

  lemma CountedNext(rows: seq<Row>, row: Row, cap: nat, k: Lookup)
    ensures Counted(rows + [row], cap, k) ==
            Counted(rows, cap, k) + (if k == row.lookup && Counted(rows, cap, k) < cap then 1 else 0)
  {
    ProjectNext(rows, row, k);
  }

  lemma FirstNext<T>(n: nat, s: seq<T>, x: T)
    ensures First(n, s + [x]) == if |s| < n then s + [x] else First(n, s)
  {
  }

  lemma CappedSumNext(seen: seq<Bytes>, b: Bytes, cap: nat)
    ensures Total(First(cap, seen + [b])) == if |seen| < cap then Plus(Total(seen), b) else Total(First(cap, seen))
  {
    FirstNext(cap, seen, b);
    TotalNext(seen, b);
  }

  lemma CappedTotalNext(rows: seq<Row>, row: Row, cap: nat, k: Lookup)
    ensures CappedTotal(rows + [row], cap, k) ==
            if k == row.lookup && Counted(rows, cap, k) < cap then Plus(CappedTotal(rows, cap, k), row.bytes)
            else CappedTotal(rows, cap, k)
  {
    ProjectNext(rows, row, k);
    if k == row.lookup {
      CappedSumNext(Project(rows, k), row.bytes, cap);
    } else {
      assert Project(rows + [row], k) == Project(rows, k);
    }
  }

  lemma UpdateKeysNext(rows: seq<Row>, row: Row, cap: nat)
    ensures cap > 0 ==> CappedUpdate(rows + [row], cap).Keys == CappedUpdate(rows, cap).Keys + {row.lookup}
    ensures Counted(rows, cap, row.lookup) >= cap ==>
            CappedUpdate(rows + [row], cap).Keys == CappedUpdate(rows, cap).Keys
  {
    LookupsNext(rows, row);
    ProjectEmpty(rows, row.lookup);
  }

  lemma LookupsNext(rows: seq<Row>, row: Row)
    ensures Lookups(rows + [row]) == Lookups(rows) + {row.lookup}
  {
    assert (rows + [row])[..|rows|] == rows;
  }

  lemma UpdateValueNext(rows: seq<Row>, row: Row, cap: nat, k: Lookup)
    requires k in Lookups(rows + [row]) && cap > 0
    ensures CappedTotal(rows + [row], cap, k) ==
            if k != row.lookup || Counted(rows, cap, k) >= cap then CappedTotal(rows, cap, k)
            else if k in Lookups(rows) then Plus(CappedTotal(rows, cap, k), row.bytes)
            else row.bytes
  {
    ProjectEmpty(rows, k);
    CappedTotalNext(rows, row, cap, k);
    PlusZero(row.bytes);
  }

  lemma AddRowPerKey(before: CounterMap, after: CounterMap, row: Row, counts: bool)
    requires after.Keys == if counts then before.Keys + {row.lookup} else before.Keys
    requires forall k :: k in after ==>
               after[k] == if k != row.lookup || !counts then before[k]
                           else if k in before then Plus(before[k], row.bytes) else row.bytes
    ensures after == AddRow(before, row, counts)
  {
  }

  /** One more row adds its bytes to its own key only, and only while that key is below the cap. */
  lemma UpdateNext(rows: seq<Row>, row: Row, cap: nat)
    ensures CappedUpdate(rows + [row], cap) ==
            AddRow(CappedUpdate(rows, cap), row, Counted(rows, cap, row.lookup) < cap)
  {
    var before, after := CappedUpdate(rows, cap), CappedUpdate(rows + [row], cap);
    var counts := Counted(rows, cap, row.lookup) < cap;
    UpdateKeysNext(rows, row, cap);
    forall k | k in after
      ensures after[k] == if k != row.lookup || !counts then before[k]
                          else if k in before then Plus(before[k], row.bytes) else row.bytes
    {
      UpdateValueNext(rows, row, cap, k);
    }
    AddRowPerKey(before, after, row, counts);
  }

  function LimitAt(sumLimit: map<Lookup, nat>, k: Lookup): nat {
    if k in sumLimit then sumLimit[k] else 0
  }

  /** What the row loop keeps in its limit map: how many rows of a key it has added up. */
  ghost predicate Limits(sumLimit: map<Lookup, nat>, rows: seq<Row>, cap: nat) {
    forall k :: LimitAt(sumLimit, k) == Counted(rows, cap, k)
  }

  lemma LimitsNext(sumLimit: map<Lookup, nat>, rows: seq<Row>, row: Row, cap: nat)
    requires Limits(sumLimit, rows, cap)
    ensures var limit := LimitAt(sumLimit, row.lookup);
            Limits(if limit < cap then sumLimit[row.lookup := limit + 1] else sumLimit, rows + [row], cap)
  {
    var limit := LimitAt(sumLimit, row.lookup);
    var next := if limit < cap then sumLimit[row.lookup := limit + 1] else sumLimit;
    forall k
      ensures LimitAt(next, k) == Counted(rows + [row], cap, k)
    {
      CountedNext(rows, row, cap, k);
    }
  }

  lemma PlusZero(b: Bytes)
    ensures Plus(ZERO, b) == b == Plus(b, ZERO)
  {
  }

  function AddRow(update: CounterMap, row: Row, counts: bool): CounterMap {
    if !counts then update
    else update[row.lookup := if row.lookup in update then Plus(update[row.lookup], row.bytes) else row.bytes]
  }

  lemma TotalNext(bs: seq<Bytes>, b: Bytes)
    ensures Total(bs + [b]) == Plus(Total(bs), b)
    ensures bs == [] ==> Total(bs + [b]) == b
  {
    assert (bs + [b])[..|bs|] == bs;
  }

  /** How the rows of different keys interleave does not matter. */
  lemma InterleavingIrrelevant(rows: seq<Row>, other: seq<Row>, cap: nat)
    requires forall k :: Project(rows, k) == Project(other, k)
    ensures CappedUpdate(rows, cap) == CappedUpdate(other, cap)
  {
    forall k ensures k in Lookups(rows) <==> k in Lookups(other) {
      ProjectEmpty(rows, k);
      ProjectEmpty(other, k);
    }
  }

  // ---------------------------------------------------------- merging updates

  function Merge(a: CounterMap, b: CounterMap): CounterMap {
    map k | k in a.Keys + b.Keys ::
      if k in a && k in b then Plus(a[k], b[k]) else if k in a then a[k] else b[k]
  }

  function Fold(us: seq<CounterMap>): CounterMap {
    if us == [] then map[] else Merge(Fold(us[..|us| - 1]), us[|us| - 1])
  }

  function At(m: CounterMap, k: Lookup): seq<Bytes> {
    if k in m then [m[k]] else []
  }

  /** What the updates hold under one key, in order. */
  function Contributions(us: seq<CounterMap>, k: Lookup): seq<Bytes> {
    if us == [] then [] else Contributions(us[..|us| - 1], k) + At(us[|us| - 1], k)
  }

  /** The folded map read key by key: a key is present iff some update has it, and holds their total. */
  lemma {:induction false} FoldPerKey(us: seq<CounterMap>, k: Lookup)
    ensures k in Fold(us) <==> Contributions(us, k) != []
    ensures k in Fold(us) ==> Fold(us)[k] == Total(Contributions(us, k))
  {
    if us != [] {
      var init, last := us[..|us| - 1], us[|us| - 1];
      var early := Contributions(init, k);
      FoldPerKey(init, k);
      if k in last {
        TotalNext(early, last[k]);
        assert Contributions(us, k) == early + [last[k]];
      } else {
        assert Contributions(us, k) == early;
      }
    }
  }

  lemma MergeCommutesOnTheRight(a: CounterMap, b: CounterMap, c: CounterMap)
    ensures Merge(Merge(a, b), c) == Merge(Merge(a, c), b)
  {
    forall k | k in a && k in b && k in c
      ensures Plus(Plus(a[k], b[k]), c[k]) == Plus(Plus(a[k], c[k]), b[k])
    {
      PlusAssociative(a[k], b[k], c[k]);
      PlusAssociative(a[k], c[k], b[k]);
    }
  }

  function Without<T>(s: seq<T>, j: nat): seq<T>
    requires j < |s|
  {
    s[..j] + s[j + 1..]
  }

  lemma {:induction false} FoldPullsOut(us: seq<CounterMap>, j: nat)
    requires j < |us|
    ensures Fold(us) == Merge(Fold(Without(us, j)), us[j])
  {
    var n := |us| - 1;
    if j == n {
      assert Without(us, j) == us[..n];
    } else {
      FoldPullsOut(us[..n], j);
      assert Without(us, j)[..n - 1] == Without(us[..n], j);
      MergeCommutesOnTheRight(Fold(Without(us[..n], j)), us[j], us[n]);
    }
  }

  lemma WithoutRemovesOne<T>(s: seq<T>, j: nat)
    requires j < |s|
    ensures multiset(Without(s, j)) == multiset(s) - multiset{s[j]}
  {
    assert s == s[..j] + [s[j]] + s[j + 1..];
  }

  /** Tick order is irrelevant: permuted updates fold to the same counters. */
  lemma {:induction false} FoldOrderIrrelevant(us: seq<CounterMap>, vs: seq<CounterMap>)
    requires multiset(us) == multiset(vs)
    ensures Fold(us) == Fold(vs)
    decreases |us|
  {
    if us == [] {
      assert |multiset(vs)| == 0;
    } else {
      assert us[0] in multiset(vs);
      var j :| 0 <= j < |vs| && vs[j] == us[0];
      WithoutRemovesOne(us, 0);
      WithoutRemovesOne(vs, j);
      FoldOrderIrrelevant(Without(us, 0), Without(vs, j));
      FoldPullsOut(us, 0);
      FoldPullsOut(vs, j);
    }
  }

  lemma CounterIsExact(us: seq<CounterMap>, k: Lookup)
    requires ExactLcp(Contributions(us, k)) < TWO_64 && ExactRedo(Contributions(us, k)) < TWO_64
    requires Contributions(us, k) != []
    ensures k in Fold(us)
    ensures Fold(us)[k] == Bytes(ExactLcp(Contributions(us, k)), ExactRedo(Contributions(us, k)))
  {
    FoldPerKey(us, k);
    TotalIsExact(Contributions(us, k));
  }

  lemma PrefixIsSmaller(early: seq<Bytes>, all: seq<Bytes>)
    requires early <= all
    ensures ExactLcp(early) <= ExactLcp(all) && ExactRedo(early) <= ExactRedo(all)
  {
    assert early == all[..|early|];
    ExactGrows(all, |early|);
  }

  /** As long as a key's exact sums fit in 64 bits, its counter shows them and never decreases. */
  lemma CounterNeverDecreases(us: seq<CounterMap>, n: nat, k: Lookup)
    requires n <= |us| && k in Fold(us[..n])
    requires ExactLcp(Contributions(us, k)) < TWO_64 && ExactRedo(Contributions(us, k)) < TWO_64
    ensures k in Fold(us)
    ensures Fold(us)[k] == Bytes(ExactLcp(Contributions(us, k)), ExactRedo(Contributions(us, k)))
    ensures Fold(us[..n])[k].backupLcp <= Fold(us)[k].backupLcp
    ensures Fold(us[..n])[k].redo <= Fold(us)[k].redo
  {
    FoldPerKey(us[..n], k);
    ContributionsPrefix(us, n, k);
    PrefixIsSmaller(Contributions(us[..n], k), Contributions(us, k));
    CounterIsExact(us[..n], k);
    CounterIsExact(us, k);
  }

  lemma {:induction false} ContributionsPrefix(us: seq<CounterMap>, n: nat, k: Lookup)
    requires n <= |us|
    ensures Contributions(us[..n], k) <= Contributions(us, k)
  {
    if n == |us| {
      assert us[..n] == us;
    } else {
      assert us[..|us| - 1][..n] == us[..n];
      ContributionsPrefix(us[..|us| - 1], n, k);
    }
  }
}
