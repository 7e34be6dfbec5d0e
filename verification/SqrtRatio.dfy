/** The square-root ratio on limbs, sound for every modulus P and complete when P is prime. */
module SqrtRatio {
  import opened ModArith
  import opened Primes
  import opened Field25519
  import opened FieldMul
  import opened FieldPow
  import opened Quadratic

  /** The smaller of a reduced element and its negative. */
  method HalfRange(z: Fe) returns (r: Fe)
    requires IsCanonical(z)
    ensures Val(r) <= HALF_ORDER
    ensures Val(r) == Val(z) || Val(r) == P - Val(z)
  {
    var small := LessOrEqual(z, FIELD_HALF);
    var minus := Neg(z);
    r := Select(minus, z, !small);
    if !small {
      RemainderUnique(P, -Val(z), -1, P - Val(z));
    }
  }

  /** Negating a root does not change its square. */
  lemma SameSquare(p: Modulus, v: int, z: int, r: int)
    requires r == z || r == p - z
    ensures Cong(p, v * (r * r), v * (z * z))
  {
    if r == p - z {
      assert r * r == z * z + (p - 2 * z) * p;
      CongByMultiple(p, r * r, z * z, p - 2 * z);
    }
    CongMul(p, v, v, r * r, z * z);
  }

  /** The candidate root u v^3 (u v^7)^((P-5)/8). */
  method CandidateRoot(u: Fe, v: Fe) returns (r: Fe, ghost third: int, ghost seventh: int)
    ensures third == Third(Val(u), Val(v)) && seventh == Seventh(Val(u), Val(v))
    ensures Val(r) == (third * Pow(P, seventh, RootExponent(P))) % P
  {
    ghost var a, b := Val(u), Val(v);
    third, seventh := Third(a, b), Seventh(a, b);
    var v2 := Square(v);
    var uv2 := Mul(u, v2);
    ReducedProduct(P, Val(uv2), a, a, Val(v2), b * b);
    var uv3 := Mul(uv2, v);
    ReducedProduct(P, Val(uv3), Val(uv2), a * (b * b), b, b);
    var uv5 := Mul(uv3, v2);
    ReducedProduct(P, Val(uv5), Val(uv3), third, Val(v2), b * b);
    var uv7 := Mul(uv5, v2);
    ReducedProduct(P, Val(uv7), Val(uv5), third * (b * b), Val(v2), b * b);
    var w := Pow22523(uv7);
    PowCong(P, Val(uv7), seventh, RootExponent(P));
    r := Mul(uv3, w);
    CongMul(P, Val(uv3), third, Val(w), Val(w));
  }

  /** fieldSqrtRatio. The root is always in the half range. Without any assumption on P, a true
      mask means that v r^2 = u. With P prime and both operands nonzero the mask is true exactly
      when u v, and so u / v, is a square. */
  method Ratio(u: Fe, v: Fe) returns (r: Fe, square: bool)
    ensures Val(r) <= HALF_ORDER
    ensures square && Val(u) <= 2 * P ==> Cong(P, Val(v) * (Val(r) * Val(r)), Val(u))
    ensures Prime(P) && IsCanonical(u) && IsCanonical(v) && Val(u) != 0 && Val(v) != 0 ==>
              (square <==> IsSquare(P, Val(u) * Val(v)))
    ensures Val(u) == 0 ==> square
    ensures Val(v) == 0 && 0 < Val(u) < P ==> !square
  {
    ghost var a, b := Val(u), Val(v);
    ghost var third, seventh;
    var c;
    c, third, seventh := CandidateRoot(u, v);
    var c2 := Square(c);
    var check := Mul(v, c2);
    ReducedProduct(P, Val(check), b, b, Val(c2), Val(c) * Val(c));
    var minus := Neg(u);
    var isU, isNegU := check == u, check == minus;
    square := isU || isNegU;
    var flipped := Mul(c, FIELD_SQRT_M1);
    var root := Select(flipped, c, isNegU);
    r := HalfRange(root);
    hide Third, Seventh, Pow, Candidate;
    RootOfMinusOne();
    if 0 <= a <= 2 * P {
      RatioSound(P, I, a, b, Val(c), Val(check), isU, isNegU, Val(minus), Val(flipped), Val(root));
    }
    SameSquare(P, b, Val(root), Val(r));
    SameLimbs(check, u);
    SameLimbs(check, minus);
    if a == 0 || b == 0 {
      ZeroOperand(P, a, b, Pow(P, seventh, RootExponent(P)), Val(c), Val(check));
      if 0 < a < P {
        RemainderUnique(P, -a, -1, P - a);
      }
    } else if Prime(P) && IsCanonical(u) && IsCanonical(v) {
      GoodModulus();
      RatioComplete(P, a, b, Val(c), Val(check), Val(minus));
    }
  }

  /** A zero operand makes the checked value zero. */
  lemma ZeroOperand(p: Modulus, a: int, b: int, power: int, c: int, check: int)
    requires a == 0 || b == 0
    requires c == (Third(a, b) * power) % p && 0 <= check < p && Cong(p, check, b * (c * c))
    ensures check == 0
  {
    ModSmall(p, 0);
    ModSmall(p, check);
    assert Third(a, b) == 0;
    assert c == 0;
  }

  lemma SameLimbs(x: Fe, y: Fe)
    ensures x == y <==> Val(x) == Val(y)
  {
    if Val(x) == Val(y) {
      ValInjective(x, y);
    }
  }

  /** The chosen root solves the ratio. */
  lemma RatioSound(p: Modulus, i: int, a: int, b: int, c: int, check: int, isU: bool, isNegU: bool,
                   minus: int, flipped: int, root: int)
    requires IsRoot(p, i, -1) && Cong(p, check, b * (c * c))
    requires isU ==> check == a
    requires isNegU ==> check == minus
    requires Cong(p, minus, -a)
    requires flipped == (c * i) % p
    requires root == if isNegU then flipped else c
    ensures isU || isNegU ==> Cong(p, b * (root * root), a)
  {
    if isNegU {
      FlipSign(p, i, b, c, a);
      CongMod(p, c * i);
      CongMul(p, flipped, c * i, flipped, c * i);
      CongMul(p, b, b, flipped * flipped, (c * i) * (c * i));
    }
  }

  /** With a good modulus the comparison of reduced values decides squareness. */
  lemma RatioComplete(p: Modulus, a: int, b: int, c: int, check: int, minus: int)
    requires Good(p) && 0 < a < p && 0 < b < p && c == Candidate(p, a, b)
    requires 0 <= check < p && Cong(p, check, b * (c * c)) && minus == (-a) % p
    ensures check == a || check == minus <==> IsSquare(p, a * b)
  {
    ModSmall(p, a);
    ModSmall(p, b);
    ModSmall(p, check);
    CandidateExactly(p, a, b);
    CongMod(p, -a);
  }

  /** fieldIsSquareNonzero. */
  method IsSquareNonzero(z: Fe) returns (mask: bool)
    requires IsCanonical(z)
    ensures Prime(P) ==> (mask <==> Val(z) != 0 && IsSquare(P, Val(z)))
  {
    var _, square := Ratio(z, FIELD_ONE);
    mask := square && z != FIELD_ZERO;
    if z != FIELD_ZERO && Val(z) == 0 {
      ValInjective(z, FIELD_ZERO);
    }
    assert Val(z) * Val(FIELD_ONE) == Val(z);
  }
}
