/** Fixed-width unsigned arithmetic: Go's uint64 and uint32 wrap around on overflow. */
module Words {
  const TWO_64: nat := 0x1_0000_0000_0000_0000
  const TWO_32: nat := 0x1_0000_0000

  type U64 = x: nat | x < TWO_64
  type U32 = x: nat | x < TWO_32

  function Wrap64(x: nat): U64 { x % TWO_64 }

  function Wrap32(x: nat): U32 { x % TWO_32 }

  /** x + y on uint64 operands: at most one wrap-around can happen. */
  function Add64(x: U64, y: U64): U64 {
    if x + y < TWO_64 then x + y else x + y - TWO_64
  }

  /** x + y on uint32 operands. */
  function Add32(x: U32, y: U32): U32 {
    if x + y < TWO_32 then x + y else x + y - TWO_32
  }

  /** Wrapping at every addition gives the exact sum modulo the word size. */
  lemma Add64IsModular(x: nat, y: U64)
    ensures Add64(Wrap64(x), y) == Wrap64(x + y)
  {
  }

  lemma Add32IsModular(x: nat, y: U32)
    ensures Add32(Wrap32(x), y) == Wrap32(x + y)
  {
  }

  lemma Wrap64Small(x: nat)
    requires x < TWO_64
    ensures Wrap64(x) == x
  {
  }

  /** n times w, kept linear for the proofs that use it. */
  function Multiple(n: nat, w: nat): nat {
    if n == 0 then 0 else Multiple(n - 1, w) + w
  }

  lemma {:induction false} MultipleIsProduct(n: nat, w: nat)
    ensures Multiple(n, w) == n * w
  {
    if n > 0 {
      MultipleIsProduct(n - 1, w);
    }
  }
}
