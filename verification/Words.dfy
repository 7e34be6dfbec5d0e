/** The 64-bit words of the limb arithmetic, and the carry, borrow and product instructions
    of the Go package math/bits that the limb code is written in. */
module Words {

  const BASE: int := 0x1_0000_0000_0000_0000

  type Word = x: int | 0 <= x < 0x1_0000_0000_0000_0000

  /** bits.Add64, extended exactly to every carry-in: the result pair is the true sum.
      The documented contract covers carry-in 0 and 1 only. */
  function Add64(x: Word, y: Word, c: Word): (r: (Word, Word))
    ensures r.0 + BASE * r.1 == x + y + c
    ensures c <= 1 ==> r.1 <= 1
    ensures c <= 2 ==> r.1 <= 2
  {
    ((x + y + c) % BASE, (x + y + c) / BASE)
  }

  /** bits.Sub64 for borrow-in 0 or 1. */
  function Sub64(x: Word, y: Word, b: Word): (r: (Word, Word))
    requires b <= 1
    ensures r.0 == x - y - b + BASE * r.1
    ensures r.1 <= 1
  {
    if x - y - b < 0 then (x - y - b + BASE, 1) else (x - y - b, 0)
  }

  /** bits.Mul64: the high and low words of the product. */
  function Mul64(x: Word, y: Word): (r: (Word, Word))
    ensures BASE * r.0 + r.1 == x * y
    ensures r.0 < BASE - 1
  {
    ProductBound(x, y);
    ((x * y) / BASE, (x * y) % BASE)
  }

  lemma ProductBound(x: Word, y: Word)
    ensures 0 <= x * y <= (BASE - 1) * (BASE - 1)
  {
    MulMonotone(x, BASE - 1, y, BASE - 1);
  }

  lemma MulMonotone(x: nat, X: nat, y: nat, Y: nat)
    requires x <= X && y <= Y
    ensures 0 <= x * y <= X * Y
  {
    assert X * Y - x * y == (X - x) * Y + x * (Y - y);
  }

  /** Addition that drops the carry, as unsigned `+` does. */
  function Wrap(x: int): (r: Word)
    ensures 0 <= x < BASE ==> r == x
  {
    x % BASE
  }
}

/** The branch-free masks of the limb code, on the bits themselves. A mask is all ones or all
    zeros; the arithmetic modules use the boolean that each mask encodes. */
module Masks {

  const ONES: bv64 := 0xffff_ffff_ffff_ffff

  datatype Limbs = Limbs(w0: bv64, w1: bv64, w2: bv64, w3: bv64)

  function NonzeroMask(x: bv64): (r: bv64)
    ensures r == if x == 0 then 0 else ONES
  {
    0 - ((x | (0 - x)) >> 63)
  }

  function ZeroMask(x: bv64): (r: bv64)
    ensures r == if x == 0 then ONES else 0
  {
    !NonzeroMask(x)
  }

  /** The bits in which two words differ, and the bits of four words joined. */
  function Difference(a: bv64, b: bv64): (d: bv64)
    ensures d == 0 <==> a == b
  {
    a ^ b
  }

  function Union(a: bv64, b: bv64, c: bv64, d: bv64): (u: bv64)
    ensures u == 0 <==> a == 0 && b == 0 && c == 0 && d == 0
  {
    a | b | c | d
  }

  /** All ones on equal limbs, zero when any limb differs. */
  function EqualMask(z: Limbs, x: Limbs): (r: bv64)
    ensures r == if z == x then ONES else 0
  {
    hide ZeroMask, Union, Difference;
    ZeroMask(Union(Difference(z.w0, x.w0), Difference(z.w1, x.w1), Difference(z.w2, x.w2), Difference(z.w3, x.w3)))
  }

  /** The word of `a` under an all-ones mask and the word of `b` under a zero mask. */
  function SelectWord(a: bv64, b: bv64, mask: bv64): (r: bv64)
    ensures mask == ONES ==> r == a
    ensures mask == 0 ==> r == b
  {
    (a & mask) | (b & !mask)
  }

  function Select(a: Limbs, b: Limbs, mask: bv64): (r: Limbs)
    ensures mask == ONES ==> r == a
    ensures mask == 0 ==> r == b
  {
    Limbs(SelectWord(a.w0, b.w0, mask), SelectWord(a.w1, b.w1, mask),
          SelectWord(a.w2, b.w2, mask), SelectWord(a.w3, b.w3, mask))
  }
}
