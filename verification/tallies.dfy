/** 32-bit tallies: rows grouped by a key, each group adding up a weight with wrap-around. */
module Tallies {
  import opened Words
  import opened Sequences

  /** What the rows with key k add up to. */
  function Cell<R, K(==)>(rows: seq<R>, key: R -> K, weight: R -> U32, k: K): U32 {
    if rows == [] then 0
    else
      var before := Cell(Init(rows), key, weight, k);
      if key(Last(rows)) == k then Add32(before, weight(Last(rows))) else before
  }

  /** The exact sum that a cell holds modulo 2^32. */
  function ExactCell<R, K(==)>(rows: seq<R>, key: R -> K, weight: R -> U32, k: K): nat {
    if rows == [] then 0
    else ExactCell(Init(rows), key, weight, k) + (if key(Last(rows)) == k then weight(Last(rows)) else 0)
  }

  lemma {:induction false} CellIsExactModulo<R, K>(rows: seq<R>, key: R -> K, weight: R -> U32, k: K)
    ensures Cell(rows, key, weight, k) == Wrap32(ExactCell(rows, key, weight, k))
  {
    if rows != [] {
      CellIsExactModulo(Init(rows), key, weight, k);
      Add32IsModular(ExactCell(Init(rows), key, weight, k), weight(Last(rows)));
    }
  }

  function KeysOf<R, K(==)>(rows: seq<R>, key: R -> K): set<K> {
    if rows == [] then {} else KeysOf(Init(rows), key) + {key(Last(rows))}
  }

  /** The map has one entry per key that occurs, holding that key's cell. */
  ghost predicate Tallied<R, K>(m: map<K, U32>, rows: seq<R>, key: R -> K, weight: R -> U32) {
    m.Keys == KeysOf(rows, key) && forall k :: k in m ==> m[k] == Cell(rows, key, weight, k)
  }

  lemma {:induction false} AbsentCell<R, K>(rows: seq<R>, key: R -> K, weight: R -> U32, k: K)
    requires k !in KeysOf(rows, key)
    ensures Cell(rows, key, weight, k) == 0
  {
    if rows != [] {
      AbsentCell(Init(rows), key, weight, k);
    }
  }

  lemma CellNext<R, K>(rows: seq<R>, row: R, key: R -> K, weight: R -> U32, k: K)
    ensures Cell(rows + [row], key, weight, k) ==
            if key(row) == k then Add32(Cell(rows, key, weight, k), weight(row)) else Cell(rows, key, weight, k)
  {
    assert Init(rows + [row]) == rows;
  }

  lemma KeysNext<R, K>(rows: seq<R>, row: R, key: R -> K)
    ensures KeysOf(rows + [row], key) == KeysOf(rows, key) + {key(row)}
  {
    assert Init(rows + [row]) == rows;
  }

  // ------------------------------------------------------------ nested maps

  type Nested = map<string, map<string, U32>>

  predicate Has(m: Nested, c: string, s: string) {
    c in m && s in m[c]
  }

  /** The nested map has an entry exactly for the pairs that occur, and no empty inner map. */
  ghost predicate NestedTallied<R>(m: Nested, rows: seq<R>, key: R -> (string, string), weight: R -> U32) {
    && (forall c, s :: Has(m, c, s) <==> (c, s) in KeysOf(rows, key))
    && (forall c, s :: Has(m, c, s) ==> m[c][s] == Cell(rows, key, weight, (c, s)))
    && (forall c :: c in m ==> m[c] != map[])
  }

  /** One more row: the entry is made if missing, then increased. */
  function Bumped(m: map<string, U32>, k: string, amount: U32): map<string, U32> {
    if k in m then m[k := Add32(m[k], amount)] else m[k := amount]
  }

  function BumpedNested(m: Nested, c: string, s: string, amount: U32): Nested {
    m[c := Bumped(if c in m then m[c] else map[], s, amount)]
  }

  function Put(m: map<string, U32>, k: string, x: U32): map<string, U32> {
    m[k := x]
  }

  /** The same, with the entry made first. */
  lemma BumpedInSteps(m: map<string, U32>, k: string, amount: U32)
    ensures var made := if k in m then m else m[k := 0];
            made[k := Add32(made[k], amount)] == Bumped(m, k, amount)
  {
  }

  lemma BumpedNestedInSteps(m: Nested, c: string, s: string, amount: U32)
    ensures var made := if c in m then m else m[c := map[]];
            var zeroed := if s in made[c] then made else made[c := Put(made[c], s, 0)];
            zeroed[c := Put(zeroed[c], s, Add32(zeroed[c][s], amount))] == BumpedNested(m, c, s, amount)
  {
    BumpedInSteps(if c in m then m[c] else map[], s, amount);
  }

  lemma TalliedNext<R>(m: map<string, U32>, rows: seq<R>, row: R, key: R -> string, weight: R -> U32)
    requires Tallied(m, rows, key, weight)
    ensures Tallied(Bumped(m, key(row), weight(row)), rows + [row], key, weight)
  {
    KeysNext(rows, row, key);
    forall k | k in Bumped(m, key(row), weight(row))
      ensures Bumped(m, key(row), weight(row))[k] == Cell(rows + [row], key, weight, k)
    {
      CellNext(rows, row, key, weight, k);
      if k !in m {
        AbsentCell(rows, key, weight, k);
      }
    }
  }

  lemma BumpedNestedAt(m: Nested, c: string, s: string, amount: U32, c': string, s': string)
    ensures var m' := BumpedNested(m, c, s, amount);
            && (Has(m', c', s') <==> Has(m, c', s') || (c', s') == (c, s))
            && (Has(m', c', s') ==>
                  m'[c'][s'] ==
                  if (c', s') != (c, s) then m[c'][s'] else if Has(m, c, s) then Add32(m[c][s], amount) else amount)
            && m'[c] != map[]
  {
    assert s in BumpedNested(m, c, s, amount)[c];
  }

  lemma NestedTalliedNext<R>(m: Nested, rows: seq<R>, row: R, key: R -> (string, string), weight: R -> U32)
    requires NestedTallied(m, rows, key, weight)
    ensures NestedTallied(BumpedNested(m, key(row).0, key(row).1, weight(row)), rows + [row], key, weight)
  {
    var c, s := key(row).0, key(row).1;
    var m' := BumpedNested(m, c, s, weight(row));
    KeysNext(rows, row, key);
    forall c', s'
      ensures Has(m', c', s') <==> (c', s') in KeysOf(rows + [row], key)
      ensures Has(m', c', s') ==> m'[c'][s'] == Cell(rows + [row], key, weight, (c', s'))
    {
      BumpedNestedAt(m, c, s, weight(row), c', s');
      CellNext(rows, row, key, weight, (c', s'));
      if !Has(m, c', s') {
        AbsentCell(rows, key, weight, (c', s'));
      }
    }
    BumpedNestedAt(m, c, s, weight(row), c, s);
  }

  // ----------------------------------------------------------- conservation

  /** The weights of all rows. */
  function Grand<R>(rows: seq<R>, weight: R -> U32): U32 {
    if rows == [] then 0 else Add32(Grand(Init(rows), weight), weight(Last(rows)))
  }

  function ExactGrand<R>(rows: seq<R>, weight: R -> U32): nat {
    if rows == [] then 0 else ExactGrand(Init(rows), weight) + weight(Last(rows))
  }

  /** The exact sum adds up every row's weight once. */
  lemma {:induction false} ExactGrandConcat<R>(rows: seq<R>, more: seq<R>, row: R, weight: R -> U32)
    ensures ExactGrand(rows + more, weight) == ExactGrand(rows, weight) + ExactGrand(more, weight)
    ensures ExactGrand([row], weight) == weight(row)
  {
    assert Init([row]) == [];
    if more == [] {
      assert rows + more == rows;
    } else {
      ExactGrandConcat(rows, Init(more), row, weight);
      assert Init(rows + more) == rows + Init(more);
    }
  }

  lemma {:induction false} KeysAre<R, K>(rows: seq<R>, key: R -> K, k: K)
    ensures k in KeysOf(rows, key) <==> exists i :: 0 <= i < |rows| && key(rows[i]) == k
  {
    if rows != [] {
      KeysAre(Init(rows), key, k);
    }
  }

  /** A cell is the sum modulo 2^32 over all rows of what each row gives to it. */
  lemma {:induction false} CellIsGrand<R(!new), K>(rows: seq<R>, key: R -> K, weight: R -> U32, k: K, part: R -> U32)
    requires forall r :: part(r) == if key(r) == k then weight(r) else 0
    ensures Cell(rows, key, weight, k) == Wrap32(ExactGrand(rows, part))
  {
    if rows != [] {
      CellIsGrand(Init(rows), key, weight, k, part);
      Add32IsModular(ExactGrand(Init(rows), part), part(Last(rows)));
    }
  }

  lemma {:induction false} GrandIsExactModulo<R>(rows: seq<R>, weight: R -> U32)
    ensures Grand(rows, weight) == Wrap32(ExactGrand(rows, weight))
  {
    if rows != [] {
      GrandIsExactModulo(Init(rows), weight);
      Add32IsModular(ExactGrand(Init(rows), weight), weight(Last(rows)));
    }
  }

  /** The cells of the given keys, added up. */
  function CellsTotal<R, K(==)>(rows: seq<R>, key: R -> K, weight: R -> U32, order: seq<K>): U32 {
    if order == [] then 0
    else Add32(CellsTotal(rows, key, weight, Init(order)), Cell(rows, key, weight, Last(order)))
  }

  lemma Swap32(a: U32, b: U32, c: U32)
    ensures Add32(Add32(a, b), c) == Add32(Add32(a, c), b)
    ensures Add32(Add32(a, b), c) == Add32(a, Add32(b, c))
  {
  }

  lemma {:induction false} CellsTotalNext<R, K>(rows: seq<R>, row: R, key: R -> K, weight: R -> U32, order: seq<K>)
    requires forall i, j :: 0 <= i < j < |order| ==> order[i] != order[j]
    ensures CellsTotal(rows + [row], key, weight, order) ==
            if key(row) in order then Add32(CellsTotal(rows, key, weight, order), weight(row))
            else CellsTotal(rows, key, weight, order)
  {
    if order != [] {
      assert order == Init(order) + [Last(order)];
      CellsTotalNext(rows, row, key, weight, Init(order));
      CellNext(rows, row, key, weight, Last(order));
      Swap32(CellsTotal(rows, key, weight, Init(order)), weight(row), Cell(rows, key, weight, Last(order)));
      Swap32(CellsTotal(rows, key, weight, Init(order)), Cell(rows, key, weight, Last(order)), weight(row));
    }
  }

  lemma {:induction false} EmptyCellsTotal<R, K>(key: R -> K, weight: R -> U32, order: seq<K>)
    ensures CellsTotal([], key, weight, order) == 0
  {
    if order != [] {
      EmptyCellsTotal(key, weight, Init(order));
    }
  }

  /** Conservation: cells listed once each, whatever the grouping, add up to the weights of all rows. */
  lemma {:induction false} CellsAddUp<R, K>(rows: seq<R>, key: R -> K, weight: R -> U32, order: seq<K>)
    requires forall i, j :: 0 <= i < j < |order| ==> order[i] != order[j]
    requires forall k :: k in KeysOf(rows, key) ==> k in order
    ensures CellsTotal(rows, key, weight, order) == Grand(rows, weight)
  {
    if rows == [] {
      EmptyCellsTotal(key, weight, order);
    } else {
      assert rows == Init(rows) + [Last(rows)];
      CellsAddUp(Init(rows), key, weight, order);
      CellsTotalNext(Init(rows), Last(rows), key, weight, order);
    }
  }
}
