/** Sorted key lists: Go's string order and `slices.Sorted` over a map's keys. */
module Sorting {
  import opened Sequences

  /** Lexicographic order by character. */
  predicate Less(a: string, b: string) {
    b != "" && (a == "" || a[0] < b[0] || (a[0] == b[0] && Less(a[1..], b[1..])))
  }

  /** Pairs by first component, then by second. */
  predicate LessPair(a: (string, string), b: (string, string)) {
    Less(a.0, b.0) || (a.0 == b.0 && Less(a.1, b.1))
  }

  lemma {:induction false} LessTotal(a: string, b: string)
    ensures a == b || Less(a, b) || Less(b, a)
    ensures !(Less(a, b) && Less(b, a)) && (a == b ==> !Less(a, b))
  {
    if a != "" && b != "" && a[0] == b[0] {
      LessTotal(a[1..], b[1..]);
      assert a == [a[0]] + a[1..] && b == [b[0]] + b[1..];
    }
  }

  lemma {:induction false} LessTransitive(a: string, b: string, c: string)
    requires Less(a, b) && Less(b, c)
    ensures Less(a, c)
  {
    if a != "" && a[0] == b[0] == c[0] {
      LessTransitive(a[1..], b[1..], c[1..]);
    }
  }

  lemma LessSameFirst(c: char, x: string, y: string)
    ensures Less([c] + x, [c] + y) <==> Less(x, y)
  {
    assert ([c] + x)[1..] == x && ([c] + y)[1..] == y;
  }

  lemma LessPrefixNext(c: char, p: string, x: string, y: string)
    ensures Less(([c] + p) + x, ([c] + p) + y) <==> Less(p + x, p + y)
  {
    ConcatAssociative([c], p, x);
    ConcatAssociative([c], p, y);
    LessSameFirst(c, p + x, p + y);
  }

  /** A common beginning does not matter. */
  lemma {:induction false} LessCommonPrefix(p: string, x: string, y: string)
    ensures Less(p + x, p + y) <==> Less(x, y)
  {
    if p == "" {
      assert "" + x == x && "" + y == y;
    } else {
      LessCommonPrefix(p[1..], x, y);
      LessPrefixNext(p[0], p[1..], x, y);
      assert p == [p[0]] + p[1..];
    }
  }

  /** A proper beginning of a text comes before it; otherwise the first differing character decides. */
  lemma LessIsLexicographic(p: string, c: char, x: string, d: char, y: string)
    ensures Less(p, p + ([c] + x))
    ensures c < d ==> Less(p + ([c] + x), p + ([d] + y)) && !Less(p + ([d] + y), p + ([c] + x))
  {
    LessCommonPrefix(p, "", [c] + x);
    LessCommonPrefix(p, [c] + x, [d] + y);
    LessCommonPrefix(p, [d] + y, [c] + x);
    assert p + "" == p;
  }

  ghost predicate StrictOrder<T(!new)>(less: (T, T) -> bool) {
    && (forall a, b :: a == b || less(a, b) || less(b, a))
    && (forall a, b :: less(a, b) ==> a != b && !less(b, a))
    && (forall a, b, c :: less(a, b) && less(b, c) ==> less(a, c))
  }

  lemma StringsAreOrdered()
    ensures StrictOrder(Less)
  {
    forall a, b ensures a == b || Less(a, b) || Less(b, a) {
      LessTotal(a, b);
    }
    forall a, b | Less(a, b) ensures a != b && !Less(b, a) {
      LessTotal(a, b);
    }
    forall a, b, c | Less(a, b) && Less(b, c) ensures Less(a, c) {
      LessTransitive(a, b, c);
    }
  }

  lemma PairsAreOrdered()
    ensures StrictOrder(LessPair)
  {
    StringsAreOrdered();
    forall a: (string, string), b: (string, string) ensures a == b || LessPair(a, b) || LessPair(b, a) {
    }
    forall a, b | LessPair(a, b) ensures a != b && !LessPair(b, a) {
      assert Less(a.0, b.0) ==> !Less(b.0, a.0) && a.0 != b.0;
    }
    forall a, b, c | LessPair(a, b) && LessPair(b, c) ensures LessPair(a, c) {
    }
  }

  // ------------------------------------------------------------ sorted lists

  ghost predicate Ascending<T(!new)>(less: (T, T) -> bool, order: seq<T>) {
    forall i, j :: 0 <= i < j < |order| ==> less(order[i], order[j])
  }

  ghost predicate IsSorted<T(!new)>(less: (T, T) -> bool, order: seq<T>, keys: set<T>) {
    Ascending(less, order) && forall k :: k in order <==> k in keys
  }

  lemma LeastExists<T(!new)>(less: (T, T) -> bool, keys: set<T>) returns (k: T)
    requires StrictOrder(less) && keys != {}
    ensures k in keys && forall j :: j in keys ==> j == k || less(k, j)
  {
    k :| k in keys;
    var rest := keys - {k};
    assert keys == {k} + rest;
    if rest != {} {
      var l := LeastExists(less, rest);
      k := if less(l, k) then l else k;
    }
  }

  lemma {:induction false} SortedExists<T(!new)>(less: (T, T) -> bool, keys: set<T>)
    requires StrictOrder(less)
    ensures exists order :: IsSorted(less, order, keys)
  {
    if keys == {} {
      assert IsSorted(less, [], keys);
    } else {
      var k := LeastExists(less, keys);
      SortedExists(less, keys - {k});
      var order :| IsSorted(less, order, keys - {k});
      assert forall x :: x in [k] + order <==> x == k || x in order;
      assert IsSorted(less, [k] + order, keys);
    }
  }

  /** A set of keys has one sorted list, so whatever is sent along it does not depend on the map's order. */
  lemma {:induction false} SortedUnique<T(!new)>(less: (T, T) -> bool, a: seq<T>, b: seq<T>, keys: set<T>)
    requires StrictOrder(less) && IsSorted(less, a, keys) && IsSorted(less, b, keys)
    ensures a == b
    decreases |a|
  {
    if b != [] {
      assert b[0] in b;
    }
    if a != [] {
      assert a[0] in a;
      SameLast(less, a, b, keys);
      assert a == Init(a) + [Last(a)] && b == Init(b) + [Last(b)];
      SortedInit(less, a, keys);
      SortedInit(less, b, keys);
      SortedUnique(less, Init(a), Init(b), keys - {Last(a)});
    }
  }

  lemma SortedInit<T(!new)>(less: (T, T) -> bool, a: seq<T>, keys: set<T>)
    requires StrictOrder(less) && IsSorted(less, a, keys) && a != []
    ensures IsSorted(less, Init(a), keys - {Last(a)})
  {
    assert a == Init(a) + [Last(a)];
    forall k ensures k in Init(a) <==> k in keys - {Last(a)} {
      assert k in a <==> k in Init(a) || k == Last(a);
    }
  }

  lemma SameLast<T(!new)>(less: (T, T) -> bool, a: seq<T>, b: seq<T>, keys: set<T>)
    requires StrictOrder(less) && IsSorted(less, a, keys) && IsSorted(less, b, keys) && a != [] && b != []
    ensures Last(a) == Last(b)
  {
    assert Last(a) in a && Last(b) in b;
    var i :| 0 <= i < |a| && a[i] == Last(b);
    var j :| 0 <= j < |b| && b[j] == Last(a);
  }

  /** The sorted list of a set of keys. */
  ghost function SortedSeq<T(!new)>(less: (T, T) -> bool, keys: set<T>): (order: seq<T>)
    requires StrictOrder(less)
    ensures IsSorted(less, order, keys)
  {
    SortedExists(less, keys);
    var order :| IsSorted(less, order, keys);
    order
  }

  ghost function SortedStrings(keys: set<string>): (order: seq<string>)
    ensures IsSorted(Less, order, keys)
  {
    StringsAreOrdered();
    SortedSeq(Less, keys)
  }

  ghost function SortedPairs(keys: set<(string, string)>): (order: seq<(string, string)>)
    ensures IsSorted(LessPair, order, keys)
  {
    PairsAreOrdered();
    SortedSeq(LessPair, keys)
  }

  lemma SortedPairsUnique(order: seq<(string, string)>, keys: set<(string, string)>)
    requires IsSorted(LessPair, order, keys)
    ensures order == SortedPairs(keys)
  {
    PairsAreOrdered();
    SortedUnique(LessPair, order, SortedPairs(keys), keys);
  }

  lemma SortedStringsUnique(order: seq<string>, keys: set<string>)
    requires IsSorted(Less, order, keys)
    ensures order == SortedStrings(keys)
  {
    StringsAreOrdered();
    SortedUnique(Less, order, SortedStrings(keys), keys);
  }

  lemma SortedAreDistinct(strings: set<string>, pairs: set<(string, string)>)
    ensures forall i, j :: 0 <= i < j < |SortedStrings(strings)| ==>
              SortedStrings(strings)[i] != SortedStrings(strings)[j]
    ensures forall i, j :: 0 <= i < j < |SortedPairs(pairs)| ==> SortedPairs(pairs)[i] != SortedPairs(pairs)[j]
  {
    StringsAreOrdered();
    PairsAreOrdered();
  }

  lemma LeastString(keys: set<string>) returns (k: string)
    requires keys != {}
    ensures k in keys && forall j :: j in keys ==> j == k || Less(k, j)
  {
    StringsAreOrdered();
    k := LeastExists(Less, keys);
  }

  method Sorted(keys: set<string>) returns (order: seq<string>)
    ensures order == SortedStrings(keys)
  {
    order := [];
    var remaining := keys;
    while remaining != {}
      invariant remaining <= keys
      invariant IsSorted(Less, order, keys - remaining)
      invariant forall k, j :: k in order && j in remaining ==> Less(k, j)
    {
      ghost var least := LeastString(remaining);
      var k :| k in remaining && forall j :: j in remaining ==> j == k || Less(k, j);
      order := order + [k];
      remaining := remaining - {k};
    }
    assert keys - {} == keys;
    SortedStringsUnique(order, keys);
  }
}
