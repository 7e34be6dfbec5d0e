/** Multiplication and squaring in the field: exact 512-bit products, then one reduction. */
module FieldMul {
  import opened ModArith
  import opened Words
  import opened Field25519

  /** Five limbs, least significant first: one row of a product. */
  datatype Row = Row(r: Fe, top: Word)

  function RowVal(w: Row): int {
    Val(w.r) + B4 * w.top
  }

  /** One word times four limbs. The top word cannot overflow. */
  method MulRow(a: Word, x: Fe) returns (w: Row)
    ensures RowVal(w) == a * Val(x)
  {
    var (hi0, p0) := Mul64(a, x.l0);
    var (hi1, lo1) := Mul64(a, x.l1);
    var (p1, c1) := Add64(lo1, hi0, 0);
    var (hi2, lo2) := Mul64(a, x.l2);
    var (p2, c2) := Add64(lo2, hi1, c1);
    var (hi3, lo3) := Mul64(a, x.l3);
    var (p3, c3) := Add64(lo3, hi2, c2);
    w := Row(Fe(p0, p1, p2, p3), Wrap(hi3 + c3));
    Distribute(a, x);
  }

  lemma Distribute(a: Word, x: Fe)
    ensures a * Val(x) == a * x.l0 + BASE * (a * x.l1) + B2 * (a * x.l2) + B3 * (a * x.l3)
  {}

  /** Adds a row onto the four limbs above the ones already final. */
  method AddRow(u: Fe, w: Row) returns (s: Fe, top: Word)
    requires RowVal(w) <= (BASE - 1) * (B4 - 1)
    ensures Val(s) + B4 * top == Val(u) + RowVal(w)
  {
    var carry;
    s, carry := AddChain(u, w.r, 0);
    top := Wrap(w.top + carry);
  }

  /** The eight limbs of the product, row by row, with no carry lost. */
  method MulWide(z: Fe, x: Fe) returns (t: Wide)
    ensures WideVal(t) == Val(z) * Val(x)
  {
    var w0 := MulRow(z.l0, x);
    var w1 := MulRow(z.l1, x);
    RowBound(z.l1, x);
    var s1, top1 := AddRow(Fe(w0.r.l1, w0.r.l2, w0.r.l3, w0.top), w1);
    var w2 := MulRow(z.l2, x);
    RowBound(z.l2, x);
    var s2, top2 := AddRow(Fe(s1.l1, s1.l2, s1.l3, top1), w2);
    var w3 := MulRow(z.l3, x);
    RowBound(z.l3, x);
    var s3, top3 := AddRow(Fe(s2.l1, s2.l2, s2.l3, top2), w3);
    t := Wide(w0.r.l0, s1.l0, s2.l0, s3.l0, s3.l1, s3.l2, s3.l3, top3);
    RowsSum(z, Val(x));
  }

  lemma RowBound(a: Word, x: Fe)
    ensures a * Val(x) <= (BASE - 1) * (B4 - 1)
  {
    MulMonotone(a, BASE - 1, Val(x), B4 - 1);
  }

  lemma RowsSum(z: Fe, X: int)
    ensures Val(z) * X == z.l0 * X + BASE * (z.l1 * X) + B2 * (z.l2 * X) + B3 * (z.l3 * X)
  {}

  /** The products of the first limb with the others. */
  method FirstCross(z: Fe) returns (t1: Word, t2: Word, t3: Word, t4: Word)
    ensures t1 + BASE * t2 + B2 * t3 + B3 * t4 == z.l0 * z.l1 + BASE * (z.l0 * z.l2) + B2 * (z.l0 * z.l3)
    ensures t4 < BASE - 1
  {
    var (hi1, p1) := Mul64(z.l0, z.l1);
    var (hi2, lo2) := Mul64(z.l0, z.l2);
    var (p2, c2) := Add64(lo2, hi1, 0);
    var (hi3, lo3) := Mul64(z.l0, z.l3);
    var (p3, c3) := Add64(lo3, hi2, c2);
    FirstBound(z.l0, z.l1 + BASE * z.l2 + B2 * z.l3);
    FirstProducts(z.l0, z.l1, z.l2, z.l3);
    FirstSum(p1, p2, p3, hi1, lo2, hi2, c2, lo3, hi3, c3);
    t1, t2, t3, t4 := p1, p2, p3, Wrap(hi3 + c3);
  }

  lemma FirstProducts(a: int, b1: int, b2: int, b3: int)
    ensures a * (b1 + BASE * b2 + B2 * b3) == a * b1 + BASE * (a * b2) + B2 * (a * b3)
  {}

  lemma FirstSum(p1: int, p2: int, p3: int, hi1: int, lo2: int, hi2: int, c2: int, lo3: int, hi3: int, c3: int)
    requires p2 + BASE * c2 == lo2 + hi1 && p3 + BASE * c3 == lo3 + hi2 + c2
    ensures p1 + BASE * p2 + B2 * p3 + B3 * (hi3 + c3)
         == (p1 + BASE * hi1) + BASE * (lo2 + BASE * hi2) + B2 * (lo3 + BASE * hi3)
  {}

  lemma FirstBound(a: Word, b: int)
    requires 0 <= b < B3
    ensures a * b <= (BASE - 1) * (B3 - 1)
  {
    MulMonotone(a, BASE - 1, b, B3 - 1);
  }

  method AddLast(z: Fe, u5: Word) returns (t5: Word, t6: Word)
    ensures t5 + BASE * t6 == u5 + z.l2 * z.l3
  {
    var (hi5, lo5) := Mul64(z.l2, z.l3);
    var (v5, c6) := Add64(u5, lo5, 0);
    t5, t6 := v5, Wrap(hi5 + c6);
  }

  /** The sum of `z[i] * z[j] * 2^(64(i+j))` over `i < j`. */
  function Cross(z: Fe): int {
    BASE * (z.l0 * z.l1) + B2 * (z.l0 * z.l2) + B3 * (z.l0 * z.l3 + z.l1 * z.l2)
    + B4 * (z.l1 * z.l3) + B4 * BASE * (z.l2 * z.l3)
  }

  /** Adds the products of the second limb onto the third and fourth places. */
  method AddMiddle(z: Fe, t3: Word, t4: Word) returns (u3: Word, u4: Word, u5: Word)
    requires t4 < BASE - 1
    ensures u3 + BASE * u4 + B2 * u5 == t3 + BASE * t4 + z.l1 * z.l2 + BASE * (z.l1 * z.l3)
  {
    var (hi3, lo3) := Mul64(z.l1, z.l2);
    var (hi4, lo4) := Mul64(z.l1, z.l3);
    var (p4, c4) := Add64(lo4, hi3, 0);
    var p5 := Wrap(hi4 + c4);
    var (v3, c3) := Add64(t3, lo3, 0);
    var (v4, c5) := Add64(t4, p4, c3);
    u3, u4, u5 := v3, v4, Wrap(p5 + c5);
    MiddleBound(z.l1, z.l2, z.l3);
  }

  lemma MiddleBound(a: Word, b: Word, c: Word)
    ensures a * b + BASE * (a * c) <= (BASE - 1) * (B2 - 1)
  {
    MulMonotone(a, BASE - 1, b + BASE * c, B2 - 1);
    assert a * (b + BASE * c) == a * b + BASE * (a * c);
  }

  /** Every limb shifted left by one, the bit shifted out passed on. */
  method Double(t: Wide) returns (d: Wide)
    requires t.t0 == 0 && t.t7 == 0
    ensures WideVal(d) == 2 * WideVal(t)
    ensures d.t0 == 0
  {
    d := Wide(0, Wrap(2 * t.t1), Shift(t.t2, t.t1), Shift(t.t3, t.t2), Shift(t.t4, t.t3),
              Shift(t.t5, t.t4), Shift(t.t6, t.t5), t.t6 / TOP);
    assert d.t1 == Shift(t.t1, 0);
    ShiftSum(t, t.t1 / TOP, t.t2 / TOP, t.t3 / TOP, t.t4 / TOP, t.t5 / TOP, t.t6 / TOP);
  }

  lemma ShiftSum(t: Wide, h1: Word, h2: Word, h3: Word, h4: Word, h5: Word, h6: Word)
    requires t.t0 == 0 && t.t7 == 0
    ensures 2 * WideVal(t) ==
            BASE * (2 * t.t1 - BASE * h1) + B2 * (2 * t.t2 - BASE * h2 + h1)
            + B3 * (2 * t.t3 - BASE * h3 + h2) + B4 * (2 * t.t4 - BASE * h4 + h3)
            + B4 * BASE * (2 * t.t5 - BASE * h5 + h4) + B4 * B2 * (2 * t.t6 - BASE * h6 + h5)
            + B4 * B3 * h6
  {}

  /** `(w << 1) | (below >> 63)`. */
  function Shift(w: Word, below: Word): (r: Word)
    ensures r == 2 * w - BASE * (w / TOP) + below / TOP
  {
    Wrap(2 * w) + below / TOP
  }

  /** Adds the squares of the limbs, at the even places, onto the doubled cross terms. */
  method AddDiagonal(z: Fe, d: Wide) returns (t: Wide)
    requires d.t0 == 0
    requires WideVal(d) == 2 * Cross(z)
    ensures WideVal(t) == Val(z) * Val(z)
  {
    var (d1, t0) := Mul64(z.l0, z.l0);
    var (d3, d2) := Mul64(z.l1, z.l1);
    var (d5, d4) := Mul64(z.l2, z.l2);
    var (d7, d6) := Mul64(z.l3, z.l3);
    var diagonal := Wide(t0, d1, d2, d3, d4, d5, d6, d7);
    DiagonalValue(diagonal, z.l0 * z.l0, z.l1 * z.l1, z.l2 * z.l2, z.l3 * z.l3);
    SquareExpands(z);
    SquareBound(z);
    hide Mul64, Cross, Val;
    var lost;
    t, lost := AddWide(d, diagonal);
  }

  method AddWide(d: Wide, x: Wide) returns (t: Wide, lost: Word)
    ensures WideVal(t) + B4 * B4 * lost == WideVal(d) + WideVal(x)
    ensures 0 <= WideVal(t) < B4 * B4
  {
    var low, c := AddChain(Low(d), Low(x), 0);
    var high;
    high, lost := AddChain(High(d), High(x), c);
    t := Wide(low.l0, low.l1, low.l2, low.l3, high.l0, high.l1, high.l2, high.l3);
  }

  lemma DiagonalValue(d: Wide, q0: int, q1: int, q2: int, q3: int)
    requires d.t0 + BASE * d.t1 == q0 && d.t2 + BASE * d.t3 == q1
    requires d.t4 + BASE * d.t5 == q2 && d.t6 + BASE * d.t7 == q3
    ensures WideVal(d) == q0 + B2 * q1 + B4 * q2 + B4 * B2 * q3
  {}

  lemma SquareExpands(z: Fe)
    ensures Val(z) * Val(z) == 2 * Cross(z) + z.l0 * z.l0 + B2 * (z.l1 * z.l1)
                               + B4 * (z.l2 * z.l2) + B4 * B2 * (z.l3 * z.l3)
  {}

  lemma SquareBound(z: Fe)
    ensures 0 <= Val(z) * Val(z) < B4 * B4
  {
    MulMonotone(Val(z), B4 - 1, Val(z), B4 - 1);
  }

  /** The eight limbs of the square: cross terms, doubled, plus diagonal. */
  method SquareWide(z: Fe) returns (t: Wide)
    ensures WideVal(t) == Val(z) * Val(z)
  {
    var t1, t2, t3, t4 := FirstCross(z);
    var u3, u4, u5 := AddMiddle(z, t3, t4);
    var t5, t6 := AddLast(z, u5);
    var cross := Wide(0, t1, t2, u3, u4, t5, t6, 0);
    CrossValue(z, t1, t2, t3, t4, u3, u4, u5, t5, t6);
    var doubled := Double(cross);
    t := AddDiagonal(z, doubled);
  }

  /** The three partial sums are all products of different limbs. */
  lemma CrossValue(z: Fe, t1: Word, t2: Word, t3: Word, t4: Word, u3: Word, u4: Word, u5: Word, t5: Word, t6: Word)
    requires t1 + BASE * t2 + B2 * t3 + B3 * t4 == z.l0 * z.l1 + BASE * (z.l0 * z.l2) + B2 * (z.l0 * z.l3)
    requires u3 + BASE * u4 + B2 * u5 == t3 + BASE * t4 + z.l1 * z.l2 + BASE * (z.l1 * z.l3)
    requires t5 + BASE * t6 == u5 + z.l2 * z.l3
    ensures WideVal(Wide(0, t1, t2, u3, u4, t5, t6, 0)) == Cross(z)
  {}

  /** Eight limbs are determined by their value, so square and mul form the same limbs. */
  lemma WideInjective(s: Wide, t: Wide)
    requires WideVal(s) == WideVal(t)
    ensures s == t
  {
    HalvesEqual(Val(Low(s)), Val(High(s)), Val(Low(t)), Val(High(t)));
    hide Val;
    ValInjective(Low(s), Low(t));
    ValInjective(High(s), High(t));
  }

  lemma HalvesEqual(a: int, b: int, c: int, d: int)
    requires a + B4 * b == c + B4 * d && 0 <= a < B4 && 0 <= c < B4
    ensures a == c && b == d
  {}

  // ---------------------------------------------------------------------------------------
  // Field operations
  // ---------------------------------------------------------------------------------------

  method Mul(z: Fe, x: Fe) returns (r: Fe)
    ensures Val(r) == (Val(z) * Val(x)) % P
  {
    var t := MulWide(z, x);
    r := Reduce512(t);
  }

  method Square(z: Fe) returns (r: Fe)
    ensures Val(r) == (Val(z) * Val(z)) % P
  {
    var t := SquareWide(z);
    r := Reduce512(t);
  }

  /** Multiplication by (A - 2) / 4 = 121665 of any 256-bit value. */
  method MulA24(z: Fe) returns (r: Fe)
    ensures Val(r) == (121665 * Val(z)) % P
  {
    var w := MulRow(121665, z);
    assert w.top <= 121665;
    r := Fold(w.r, w.top);
  }

  /** On reduced elements that mul accepts, the carry sum of fieldReduce512 reaches 2: for
      2^192 + 1 times (2^64 - 1) * 2^64 + v * 2^128 with 38 v = -2 modulo 2^64. */
  lemma MulLeavesContract(t: Wide)
    requires WideVal(t) == Val(Fe(1, 0, 0, 1)) * Val(Fe(0, 0xffffffffffffffff, 0x79435e50d79435e5, 0))
    ensures IsCanonical(Fe(1, 0, 0, 1)) && IsCanonical(Fe(0, 0xffffffffffffffff, 0x79435e50d79435e5, 0))
    ensures CarrySum1(t) == 2 && !WithinContract(t)
  {
    WideInjective(t, Wide(0, 0xffffffffffffffff, 0x79435e50d79435e5, 0, 0xffffffffffffffff, 0x79435e50d79435e5, 0, 0));
    CarrySums(t);
  }
}
