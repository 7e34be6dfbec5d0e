/** Squares modulo a prime that is 5 modulo 8, as 2^255 - 19 is: one power and one square root of
    -1 decide squareness and give the root. */
module Quadratic {
  import opened ModArith
  import opened Primes
  import opened Field25519

  type Modulus = p: int | p > 1 && p % 8 == 5 witness 5

  /** (p - 1) / 2, (p - 1) / 4 and (p - 5) / 8. */
  function HalfOrder(p: Modulus): nat {
    (p - 1) / 2
  }

  function QuarterOrder(p: Modulus): nat {
    (p - 1) / 4
  }

  function RootExponent(p: Modulus): nat {
    (p - 5) / 8
  }

  const HALF_ORDER: nat := (P - 1) / 2

  /** fieldSqrtM1 and a number whose doubled square is A^2 - 4. */
  const I: int := 0x2b8324804fc1df0b2b4d00993dfbd7a72f431806ad2fe478c4ee1b274a0ea0b0
  const A: int := 486662
  const ROOT_HALF_DISC: int := 0x32709c5c4ea211102d0703fd0867d993fd311fc64103d75f2b4630cc557d2519

  /** A prime modulus with a square root of -1. */
  ghost predicate Good(p: Modulus) {
    Prime(p) && IsSquare(p, -1)
  }

  ghost predicate IsSquare(p: Modulus, x: int) {
    exists s :: IsRoot(p, s, x)
  }

  predicate IsRoot(p: Modulus, s: int, x: int) {
    (s * s) % p == x % p
  }

  /** The inverse of a nonzero residue is its power p - 2. */
  lemma Inverse(p: Modulus, c: int)
    requires Prime(p) && c % p != 0
    ensures (c * Pow(p, c, p - 2)) % p == 1
  {
    Fermat(p, c);
    var n: nat := p - 1;
    assert Pow(p, c, n) == (c * Pow(p, c, n - 1)) % p;
  }

  /** Whether a number is a square depends only on its residue. */
  lemma SquareCong(p: Modulus, x: int, y: int)
    requires Cong(p, x, y)
    ensures IsSquare(p, x) <==> IsSquare(p, y)
  {
    if IsSquare(p, x) {
      var s :| IsRoot(p, s, x);
      assert IsRoot(p, s, y);
    }
    if IsSquare(p, y) {
      var s :| IsRoot(p, s, y);
      assert IsRoot(p, s, x);
    }
  }

  /** A square factor can be put in, and a nonzero one taken out. */
  lemma SquareFactor(p: Modulus, a: int, c: int)
    ensures IsSquare(p, a) ==> IsSquare(p, a * (c * c))
    ensures Prime(p) && c % p != 0 && IsSquare(p, a * (c * c)) ==> IsSquare(p, a)
  {
    if IsSquare(p, a) {
      var s :| IsRoot(p, s, a);
      RootTimes(p, s, a, c);
    }
    if Prime(p) && c % p != 0 && IsSquare(p, a * (c * c)) {
      var s :| IsRoot(p, s, a * (c * c));
      var d := Pow(p, c, p - 2);
      Inverse(p, c);
      RootTimes(p, s, a * (c * c), d);
      UndoSquare(p, a, c, d);
      assert IsRoot(p, s * d, a);
    }
  }

  lemma RootTimes(p: Modulus, s: int, a: int, c: int)
    requires IsRoot(p, s, a)
    ensures IsRoot(p, s * c, a * (c * c))
  {
    CongMul(p, s * s, a, c * c, c * c);
    assert (s * c) * (s * c) == (s * s) * (c * c);
  }

  lemma UndoSquare(p: Modulus, a: int, c: int, d: int)
    requires (c * d) % p == 1
    ensures Cong(p, a * (c * c) * (d * d), a)
  {
    ModSmall(p, 1);
    assert Cong(p, c * d, 1) && Cong(p, a, a);
    hide Cong;
    CongMul(p, c * d, 1, c * d, 1);
    CongMul(p, a, a, (c * d) * (c * d), 1);
    SquareOfTwo(c, d);
    Associate(a, c * c, d * d);
  }

  lemma SquareOfTwo(c: int, d: int)
    ensures (c * d) * (c * d) == (c * c) * (d * d)
  {}

  /** Euler: a nonzero square to the power (p - 1) / 2 is 1. */
  lemma SquarePower(p: Modulus, x: int)
    requires Prime(p) && x % p != 0 && IsSquare(p, x)
    ensures Pow(p, x, HalfOrder(p)) == 1
  {
    var s :| IsRoot(p, s, x);
    ZeroProduct(p, s, s);
    Fermat(p, s);
    PowCong(p, s * s, x, HalfOrder(p));
    PowProduct(p, s, s, HalfOrder(p));
    PowAdd(p, s, HalfOrder(p), HalfOrder(p));
    assert HalfOrder(p) + HalfOrder(p) == p - 1;
  }

  /** The power (p - 1) / 2 of a nonzero residue is 1 or -1. */
  lemma HalfPower(p: Modulus, x: int)
    requires Prime(p) && x % p != 0
    ensures Pow(p, x, HalfOrder(p)) == 1 || Pow(p, x, HalfOrder(p)) == p - 1
  {
    Fermat(p, x);
    PowAdd(p, x, HalfOrder(p), HalfOrder(p));
    assert HalfOrder(p) + HalfOrder(p) == p - 1;
    RootOfOne(p, Pow(p, x, HalfOrder(p)));
    ModSmall(p, Pow(p, x, HalfOrder(p)));
  }

  // ---------------------------------------------------------------------------------------
  // The candidate root of u / v
  // ---------------------------------------------------------------------------------------

  /** u v^3 and u v^7, in the order in which fieldSqrtRatio multiplies. */
  function Third(u: int, v: int): int {
    u * (v * v) * v
  }

  function Seventh(u: int, v: int): int {
    Third(u, v) * (v * v) * (v * v)
  }

  function Candidate(p: Modulus, u: int, v: int): int {
    (Third(u, v) * Pow(p, Seventh(u, v), RootExponent(p))) % p
  }

  /** The candidate misses u / v by the factor (u v^7)^((p-1)/4); no primality is needed. */
  lemma CandidateCheck(p: Modulus, u: int, v: int)
    ensures var c := Candidate(p, u, v);
            Cong(p, v * (c * c), u * Pow(p, Seventh(u, v), QuarterOrder(p)))
  {
    var y, x := Third(u, v), Seventh(u, v);
    var w := Pow(p, x, RootExponent(p));
    CongMod(p, y * w);
    ThirdSquared(u, v);
    SquareOfProduct(p, u, v, y, x, w, Candidate(p, u, v));
    QuarterPower(p, x);
    CongMul(p, u, u, x * (w * w), Pow(p, x, QuarterOrder(p)));
  }

  lemma SquareOfProduct(p: Modulus, u: int, v: int, y: int, x: int, w: int, c: int)
    requires v * (y * y) == u * x && Cong(p, c, y * w)
    ensures Cong(p, v * (c * c), u * (x * (w * w)))
  {
    assert Cong(p, v, v);
    hide Cong;
    CongMul(p, c, y * w, c, y * w);
    CongMul(p, v, v, c * c, (y * w) * (y * w));
    SquareOfTwo(y, w);
    Associate(v, y * y, w * w);
    Associate(u, x, w * w);
  }

  lemma ThirdSquared(u: int, v: int)
    ensures v * (Third(u, v) * Third(u, v)) == u * Seventh(u, v)
  {
    var z, y := v * v, Third(u, v);
    assert y == u * z * v;
    calc {
      v * (y * y);
      (v * (u * z * v)) * y;
      { assert v * (u * z * v) == u * (z * z); }
      u * (z * z) * y;
      u * (y * z * z);
    }
  }

  lemma QuarterPower(p: Modulus, x: int)
    ensures var w := Pow(p, x, RootExponent(p)); Cong(p, x * (w * w), Pow(p, x, QuarterOrder(p)))
  {
    hide Pow;
    var e := RootExponent(p);
    assert QuarterOrder(p) == e + e + 1;
    PowAdd(p, x, e, e);
    PowNext(p, x, e + e);
    ReducedLast(p, x, Pow(p, x, e) * Pow(p, x, e));
  }

  lemma ReducedLast(p: Modulus, x: int, y: int)
    ensures Cong(p, x * y, (x * (y % p)) % p)
  {
    ModMul(p, x, y);
    CongMod(p, x * y);
  }

  /** Multiplying a root by a square root of -1 flips the sign of its square. */
  lemma FlipSign(p: Modulus, i: int, v: int, c: int, u: int)
    requires IsRoot(p, i, -1) && Cong(p, v * (c * c), -u)
    ensures Cong(p, v * ((c * i) * (c * i)), u)
  {
    assert Cong(p, i * i, -1);
    hide Cong;
    CongMul(p, v * (c * c), -u, i * i, -1);
    SquareOfTwo(c, i);
    Associate(v, c * c, i * i);
  }

  /** If (u v^7)^((p-1)/2) is 1 then the candidate is a root of u / v up to sign. */
  lemma CandidateUpToSign(p: Modulus, u: int, v: int)
    requires Prime(p) && Pow(p, Seventh(u, v), HalfOrder(p)) == 1
    ensures var c := Candidate(p, u, v);
            Cong(p, v * (c * c), u) || Cong(p, v * (c * c), -u)
  {
    var x := Seventh(u, v);
    var w := Pow(p, x, QuarterOrder(p));
    PowAdd(p, x, QuarterOrder(p), QuarterOrder(p));
    assert QuarterOrder(p) + QuarterOrder(p) == HalfOrder(p);
    RootOfOne(p, w);
    ModSmall(p, w);
    CandidateCheck(p, u, v);
    if w == p - 1 {
      CongByMultiple(p, u * (p - 1), -u, u);
    }
  }

  /** Euler, the other way: a residue whose power (p - 1) / 2 is 1 is a square. */
  lemma PowerSquare(p: Modulus, x: int)
    requires Good(p) && Pow(p, x, HalfOrder(p)) == 1
    ensures IsSquare(p, x)
  {
    assert Seventh(x, 1) == x;
    CandidateUpToSign(p, x, 1);
    var c := Candidate(p, x, 1);
    if Cong(p, c * c, x) {
      assert IsRoot(p, c, x);
    } else {
      var i :| IsRoot(p, i, -1);
      FlipSign(p, i, 1, c, x);
      assert IsRoot(p, c * i, x);
    }
  }

  /** The product of two non-squares is a square. */
  lemma NonsquareProduct(p: Modulus, a: int, b: int)
    requires Good(p) && !IsSquare(p, a) && !IsSquare(p, b)
    ensures IsSquare(p, a * b)
  {
    NonsquarePower(p, a);
    NonsquarePower(p, b);
    PowProduct(p, a, b, HalfOrder(p));
    RemainderUnique(p, (p - 1) * (p - 1), p - 2, 1);
    PowerSquare(p, a * b);
  }

  lemma ZeroIsSquare(p: Modulus, a: int)
    ensures a % p == 0 ==> IsSquare(p, a)
  {
    assert a % p == 0 ==> IsRoot(p, 0, a);
  }

  lemma NonsquarePower(p: Modulus, a: int)
    requires Good(p) && !IsSquare(p, a)
    ensures a % p != 0 && Pow(p, a, HalfOrder(p)) == p - 1
  {
    ZeroIsSquare(p, a);
    hide Pow, Prime, IsSquare;
    HalfPower(p, a);
    if Pow(p, a, HalfOrder(p)) == 1 {
      PowerSquare(p, a);
    }
  }

  /** Up to sign the candidate is a root of u / v exactly when u v is a square. */
  lemma CandidateExactly(p: Modulus, u: int, v: int)
    requires Good(p) && u % p != 0 && v % p != 0
    ensures var c := Candidate(p, u, v);
            IsSquare(p, u * v) <==> Cong(p, v * (c * c), u) || Cong(p, v * (c * c), -u)
  {
    var c := Candidate(p, u, v);
    if IsSquare(p, u * v) {
      SeventhSquare(p, u, v);
      SquarePower(p, Seventh(u, v));
      CandidateUpToSign(p, u, v);
    } else if Cong(p, v * (c * c), u) {
      RatioRoot(p, u, v, c);
    } else if Cong(p, v * (c * c), -u) {
      var i :| IsRoot(p, i, -1);
      FlipSign(p, i, v, c, u);
      RatioRoot(p, u, v, c * i);
    }
  }

  /** A root of u / v makes u v a square. */
  lemma RatioRoot(p: Modulus, u: int, v: int, r: int)
    requires Cong(p, v * (r * r), u)
    ensures IsSquare(p, u * v)
  {
    CongMul(p, v * (r * r), u, v, v);
    SquareOfTwo(v, r);
    Associate(v, v, r * r);
    assert IsRoot(p, v * r, u * v);
  }

  lemma SeventhSquare(p: Modulus, u: int, v: int)
    requires Prime(p) && u % p != 0 && v % p != 0 && IsSquare(p, u * v)
    ensures IsSquare(p, Seventh(u, v)) && Seventh(u, v) % p != 0
  {
    var c := v * (v * v);
    SeventhForm(u, v, v * v);
    SquareFactor(p, u * v, c);
    NonzeroTimesSixth(p, u * v, v) by {
      ZeroProduct(p, u, v);
    }
  }

  lemma SeventhForm(u: int, v: int, z: int)
    requires z == v * v
    ensures Seventh(u, v) == (u * v) * ((v * z) * (v * z))
  {
    assert Third(u, v) == u * z * v;
    assert (v * z) * (v * z) == z * (z * z);
    assert (u * z * v) * z * z == (u * v) * (z * (z * z));
  }

  lemma NonzeroTimesSixth(p: Modulus, a: int, v: int)
    requires Prime(p) && a % p != 0 && v % p != 0
    ensures (a * ((v * (v * v)) * (v * (v * v)))) % p != 0
  {
    var c := v * (v * v);
    ZeroProduct(p, v, v);
    ZeroProduct(p, v, v * v);
    ZeroProduct(p, c, c);
    ZeroProduct(p, a, c * c);
  }

  // ---------------------------------------------------------------------------------------
  // Two is not a square
  // ---------------------------------------------------------------------------------------

  /** An odd power of -1 is -1. */
  lemma OddPower(p: Modulus, m: int, k: nat)
    requires Cong(p, m, -1) && k % 2 == 1
    ensures Pow(p, m, k) == p - 1
  {
    hide Pow;
    var j := k / 2;
    SquareOfMinusOne(p, m);
    PowMul(p, m, 2, j);
    PowOfOne(p, j);
    PowNext(p, m, 2 * j);
    RemainderUnique(p, -1, -1, p - 1);
  }

  lemma SquareOfMinusOne(p: Modulus, m: int)
    requires Cong(p, m, -1)
    ensures Pow(p, m, 2) == 1
  {
    CongMul(p, m, -1, m, -1);
    PowAdd(p, m, 1, 1);
    PowOne(p, m);
    ModMul(p, m, m);
    ModSmall(p, 1);
    hide Pow;
  }

  /** With s^2 = 2 the element 1 + i would have a fourth power of -s^4, whose power (p-1)/4 is
      both 1 and -1. */
  lemma TwoNotSquare(p: Modulus)
    requires Good(p)
    ensures !IsSquare(p, 2)
  {
    if IsSquare(p, 2) {
      var i :| IsRoot(p, i, -1);
      var s :| IsRoot(p, s, 2);
      FourthPowers(p, i, s);
      NotOpposite(p, 1 + i, s);
      assert false;
    }
  }

  /** Two fourth powers are never opposite. */
  lemma NotOpposite(p: Modulus, t: int, s: int)
    requires Prime(p) && t % p != 0 && s % p != 0
    ensures !Cong(p, (t * t) * (t * t), -((s * s) * (s * s)))
  {
    hide Pow, Prime, Cong;
    QuarterOfFourth(p, t);
    QuarterOfFourth(p, s);
    OppositePowers(p, (t * t) * (t * t), (s * s) * (s * s));
  }

  lemma OppositePowers(p: Modulus, a: int, b: int)
    requires Pow(p, a, QuarterOrder(p)) == 1 && Pow(p, b, QuarterOrder(p)) == 1
    ensures !Cong(p, a, -b)
  {
    QuarterOdd(p);
    assert Cong(p, -1, -1);
    hide Pow, QuarterOrder, Cong;
    if Cong(p, a, -b) {
      OddPowersDiffer(p, a, b, -1, QuarterOrder(p));
    }
  }

  lemma QuarterOdd(p: Modulus)
    ensures QuarterOrder(p) % 2 == 1
  {
    QuarterOf(p / 8);
    assert p == 8 * (p / 8) + 5;
  }

  lemma QuarterOf(k: nat)
    ensures (8 * k + 4) / 4 == 2 * k + 1
  {}

  /** Opposite numbers do not both have 1 as the same odd power. */
  lemma OddPowersDiffer(p: Modulus, a: int, b: int, m: int, k: nat)
    requires Cong(p, a, -b) && Cong(p, m, -1) && k % 2 == 1
    ensures Pow(p, a, k) != 1 || Pow(p, b, k) != 1
  {
    if Pow(p, b, k) == 1 {
      CongMul(p, m, -1, b, b);
      assert -1 * b == -b;
      PowCong(p, a, m * b, k);
      MinusPower(p, m, b, k);
    }
  }

  lemma MinusPower(p: Modulus, m: int, a: int, k: nat)
    requires Cong(p, m, -1) && k % 2 == 1 && Pow(p, a, k) == 1
    ensures Pow(p, m * a, k) == p - 1
  {
    PowProduct(p, m, a, k);
    OddPower(p, m, k);
    ModSmall(p, p - 1);
  }

  /** (1 + i)^4 = -4 = -s^4, and neither base is zero. */
  lemma FourthPowers(p: Modulus, i: int, s: int)
    requires Prime(p) && IsRoot(p, i, -1) && IsRoot(p, s, 2)
    ensures var t := 1 + i;
            Cong(p, (t * t) * (t * t), -((s * s) * (s * s))) && t % p != 0 && s % p != 0
  {
    var t := 1 + i;
    FourthOfSum(p, i);
    CongMul(p, s * s, 2, s * s, 2);
    CongAdd(p, 0, 0, (s * s) * (s * s), 4);
    NonzeroRoot(p, s, 2);
    if t % p == 0 {
      ZeroFactor(p, t, t);
      ZeroFactor(p, t * t, t * t);
      CongAdd(p, -4, 0, 4, 4);
      ModSmall(p, 4);
      assert false;
    }
  }

  lemma NonzeroRoot(p: Modulus, s: int, n: int)
    requires IsRoot(p, s, n) && 0 < n < p
    ensures s % p != 0
  {
    ModSmall(p, n);
    if s % p == 0 {
      ZeroFactor(p, s, s);
    }
  }

  lemma FourthOfSum(p: Modulus, i: int)
    requires IsRoot(p, i, -1)
    ensures var t := 1 + i; Cong(p, (t * t) * (t * t), -4)
  {
    var t := 1 + i;
    assert Cong(p, i * i, -1) && Cong(p, 1 + 2 * i, 1 + 2 * i) && Cong(p, 4, 4);
    CongTransitive(p, (t * t) * (t * t), 4 * (i * i), -4) by {
      hide Cong;
      SumSquared(i);
      CongAdd(p, i * i, -1, 1 + 2 * i, 1 + 2 * i);
      CongMul(p, t * t, 2 * i, t * t, 2 * i);
      CongMul(p, 4, 4, i * i, -1);
    }
  }

  lemma SumSquared(i: int)
    ensures (1 + i) * (1 + i) == i * i + (1 + 2 * i)
    ensures (2 * i) * (2 * i) == 4 * (i * i)
  {}

  /** The power (p - 1) / 4 of a fourth power is 1. */
  lemma QuarterOfFourth(p: Modulus, t: int)
    requires Prime(p) && t % p != 0
    ensures Pow(p, (t * t) * (t * t), QuarterOrder(p)) == 1
  {
    Fermat(p, t);
    PowProduct(p, t * t, t * t, QuarterOrder(p));
    PowProduct(p, t, t, QuarterOrder(p));
    PowAdd(p, t, QuarterOrder(p), QuarterOrder(p));
    PowAdd(p, t, HalfOrder(p), HalfOrder(p));
    assert QuarterOrder(p) + QuarterOrder(p) == HalfOrder(p) && HalfOrder(p) + HalfOrder(p) == p - 1;
  }

  // ---------------------------------------------------------------------------------------
  // The modulus 2^255 - 19
  // ---------------------------------------------------------------------------------------

  lemma RootOfMinusOne()
    ensures Cong(P, I * I, -1)
  {}

  lemma HalfDiscriminant()
    ensures Cong(P, 2 * (ROOT_HALF_DISC * ROOT_HALF_DISC), A * A - 4)
    ensures ROOT_HALF_DISC % P != 0
  {}

  lemma GoodModulus()
    requires Prime(P)
    ensures Good(P)
  {
    RootOfMinusOne();
    assert IsRoot(P, I, -1);
  }

  /** The discriminant A^2 - 4 is twice a square, so x^2 + A x + 1 is never zero. */
  lemma NoTwoTorsion(x: int)
    requires Prime(P)
    ensures (x * x + A * x + 1) % P != 0
  {
    if (x * x + A * x + 1) % P == 0 {
      var y, d := 2 * x + A, ROOT_HALF_DISC;
      HalfDiscriminant();
      CongMul(P, 4, 4, x * x + A * x + 1, 0);
      CongAdd(P, 4 * (x * x + A * x + 1), 0, A * A - 4, 2 * (d * d));
      assert y * y == 4 * (x * x + A * x + 1) + (A * A - 4);
      assert IsRoot(P, y, 2 * (d * d));
      SquareFactor(P, 2, d);
      GoodModulus();
      TwoNotSquare(P);
      assert false;
    }
  }
}
