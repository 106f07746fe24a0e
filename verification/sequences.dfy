/** Sequences taken apart from the end, and sequences that visit a set. */
module Sequences {
  function Init<T>(s: seq<T>): seq<T>
    requires s != []
  {
    s[..|s| - 1]
  }

  function Last<T>(s: seq<T>): T
    requires s != []
  {
    s[|s| - 1]
  }

  lemma ConcatAssociative<T>(a: seq<T>, b: seq<T>, c: seq<T>)
    ensures (a + b) + c == a + (b + c)
  {
  }

  lemma {:induction false} EnumeratesAll<T(!new)>(order: seq<T>, elements: set<T>)
    requires Enumerates(order, elements)
    ensures |order| == |elements|
  {
    if order == [] {
      assert elements == {};
    } else {
      assert order == Init(order) + [Last(order)];
      assert forall x :: x in Init(order) <==> x in elements - {Last(order)};
      EnumeratesAll(Init(order), elements - {Last(order)});
    }
  }

  /** `order` visits every element once: what ranging over a Go map does with its keys. */
  ghost predicate Enumerates<T(!new)>(order: seq<T>, elements: set<T>) {
    && (forall x :: x in order <==> x in elements)
    && (forall i, j :: 0 <= i < j < |order| ==> order[i] != order[j])
  }
}
