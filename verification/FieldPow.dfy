/** The addition chains for inversion and square roots: exact exponents, for every element. */
module FieldPow {
  import opened ModArith
  import opened Field25519
  import opened FieldMul

  /** `z` is congruent to `x` to the power `e`. */
  ghost predicate IsPower(z: Fe, x: int, e: nat) {
    Val(z) % P == Pow(P, x, e)
  }

  lemma FirstPower(z: Fe)
    ensures IsPower(z, Val(z), 1)
  {
    PowOne(P, Val(z));
  }

  /** The product of two powers is the power of the summed exponents. */
  lemma ProductPower(x: int, a: Fe, ea: nat, b: Fe, eb: nat, r: Fe)
    requires IsPower(a, x, ea) && IsPower(b, x, eb)
    requires Val(r) == (Val(a) * Val(b)) % P
    ensures IsPower(r, x, ea + eb) && Val(r) == Pow(P, x, ea + eb)
  {
    ModMul(P, Val(a), Val(b));
    PowAdd(P, x, ea, eb);
    ModSmall(P, Val(r));
  }

  /** `n` squarings in a row. */
  method SquareN(z: Fe, n: nat) returns (r: Fe)
    ensures n == 0 ==> r == z
    ensures IsPower(r, Val(z), Two(n))
    ensures n > 0 ==> IsCanonical(r)
  {
    r := z;
    FirstPower(z);
    assert Two(0) == 1;
    for i := 0 to n
      invariant i == 0 ==> r == z
      invariant IsPower(r, Val(z), Two(i))
      invariant i > 0 ==> IsCanonical(r)
    {
      var s := Square(r);
      ProductPower(Val(z), r, Two(i), r, Two(i), s);
      assert Two(i + 1) == Two(i) + Two(i);
      r := s;
    }
  }

  /** Squaring a power `n` times multiplies its exponent by 2^n. */
  lemma RepeatedPower(x: int, a: Fe, e: nat, n: nat, r: Fe)
    requires IsPower(a, x, e) && IsPower(r, Val(a), Two(n))
    ensures e * Two(n) >= 0 && IsPower(r, x, e * Two(n))
  {
    CongMod(P, Val(a));
    PowCong(P, Val(a), Pow(P, x, e), Two(n));
    PowMul(P, x, e, Two(n));
  }

  /** One link of the chain: `n` squarings of `a`, then a product by `b`. */
  method Link(a: Fe, n: nat, b: Fe, ghost x: int, ghost ea: nat, ghost eb: nat) returns (r: Fe)
    requires IsPower(a, x, ea) && IsPower(b, x, eb)
    ensures ea * Two(n) >= 0 && IsPower(r, x, ea * Two(n) + eb)
    ensures IsCanonical(r)
  {
    var s := SquareN(a, n);
    RepeatedPower(x, a, ea, n, s);
    r := Mul(s, b);
    ProductPower(x, s, ea * Two(n), b, eb, r);
  }

  /** A link from 2^a - 1 and 2^n - 1 to 2^(a+n) - 1. */
  method OnesLink(z: Fe, n: nat, b: Fe, ghost x: int, ghost a: nat, ghost sum: nat) returns (r: Fe)
    requires IsPower(z, x, Two(a) - 1) && IsPower(b, x, Two(n) - 1)
    requires sum == a + n
    ensures IsPower(r, x, Two(sum) - 1)
    ensures IsCanonical(r)
  {
    Ones(a, n);
    r := Link(z, n, b, x, Two(a) - 1, Two(n) - 1);
  }

  /** The shared chain: `z` to the powers 2^250 - 1 and 11. */
  method Pow250(z: Fe) returns (r: Fe, z11: Fe)
    ensures IsPower(r, Val(z), Two(250) - 1)
    ensures IsPower(z11, Val(z), 11)
  {
    hide IsPower, Two;
    ghost var x := Val(z);
    var z5: Fe;
    z11, z5 := SmallPowers(z);
    var z10 := OnesLink(z5, 5, z5, x, 5, 10);
    var z50 := TimesFive(z10, 10, x);
    r := TimesFive(z50, 50, x);
  }

  /** From 2^n - 1 over 2^2n - 1 and 2^4n - 1 to 2^5n - 1: the links from 10 to 50 ones, and
      again from 50 to 250. */
  method TimesFive(z: Fe, n: nat, ghost x: int) returns (r: Fe)
    requires IsPower(z, x, Two(n) - 1)
    ensures IsPower(r, x, Two(5 * n) - 1)
  {
    var z2 := OnesLink(z, n, z, x, n, 2 * n);
    var z4 := OnesLink(z2, 2 * n, z2, x, 2 * n, 4 * n);
    r := OnesLink(z4, n, z, x, 4 * n, 5 * n);
  }

  /** The start of the chain: the powers 11 and 2^5 - 1. */
  method SmallPowers(z: Fe) returns (z11: Fe, z5: Fe)
    ensures IsPower(z11, Val(z), 11)
    ensures IsPower(z5, Val(z), Two(5) - 1)
  {
    ghost var x := Val(z);
    FirstPower(z);
    var z2 := Square(z);
    ProductPower(x, z, 1, z, 1, z2);
    var z9 := Link(z2, 2, z, x, 2, 1);
    z11 := Mul(z9, z2);
    ProductPower(x, z9, 9, z2, 2, z11);
    var s := Square(z11);
    ProductPower(x, z11, 11, z11, 11, s);
    z5 := Mul(s, z9);
    ProductPower(x, s, 22, z9, 9, z5);
  }

  /** Inversion: the power 2^255 - 21, which is P - 2. */
  method Invert(z: Fe) returns (r: Fe)
    ensures Val(r) == Pow(P, Val(z), P - 2)
  {
    hide Two;
    var p250, z11 := Pow250(z);
    r := Link(p250, 5, z11, Val(z), Two(250) - 1, 11);
    InvertExponent();
    ModSmall(P, Val(r));
  }

  /** The power 2^252 - 3, which is (P - 5) / 8. */
  method Pow22523(z: Fe) returns (r: Fe)
    ensures Val(r) == Pow(P, Val(z), (P - 5) / 8)
  {
    hide Two;
    var p250, z11 := Pow250(z);
    FirstPower(z);
    r := Link(p250, 2, z, Val(z), Two(250) - 1, 1);
    InvertExponent();
    ModSmall(P, Val(r));
  }

  lemma InvertExponent()
    ensures (Two(250) - 1) * Two(5) + 11 == P - 2
    ensures (Two(250) - 1) * Two(2) + 1 == (P - 5) / 8
  {
    TwoSum(5, 5, 10, 32, 32);
    TwoSum(10, 10, 20, 0x400, 0x400);
    TwoSum(20, 5, 25, 0x100000, 32);
    TwoSum(25, 25, 50, 0x2000000, 0x2000000);
    TwoSum(50, 50, 100, 0x4000000000000, 0x4000000000000);
    TwoSum(100, 25, 125, 0x10000000000000000000000000, 0x2000000);
    TwoSum(125, 125, 250, 0x20000000000000000000000000000000, 0x20000000000000000000000000000000);
  }
}
