/** Elligator2 on X25519 public keys: what the map is, and that encoding undoes it. */
module Elligator {
  import opened ModArith
  import opened Primes
  import opened Field25519
  import opened FieldMul
  import opened FieldPow
  import opened Bytes
  import opened Quadratic
  import opened SqrtRatio

  // ---------------------------------------------------------------------------------------
  // The map of section 6.7.1 of RFC 9380, with Z = 2
  // ---------------------------------------------------------------------------------------

  /** The right-hand side x^3 + A x^2 + x of the curve equation. */
  function Curve(x: int): int {
    x * Factor(x)
  }

  function Factor(x: int): int {
    x * x + A * x + 1
  }

  /** The other candidate -x - A, reduced. */
  function Other(p: Modulus, x: int): int {
    (-x - A) % p
  }

  /** -A / (1 + 2 r^2), where dividing by zero gives zero. */
  function First(p: Modulus, r: int): int {
    (-A * Pow(p, 1 + 2 * (r * r), p - 2)) % p
  }

  /** The x-coordinate that a representative stands for. */
  ghost function MapToCurve(p: Modulus, r: int): int {
    var v := First(p, r);
    if Curve(v) % p != 0 && IsSquare(p, Curve(v)) then v else Other(p, v)
  }

  /** The key that a representative of `x` is decoded to. */
  ghost function Recovered(p: Modulus, x: int): int {
    if IsSquare(p, Curve(x)) then x else Other(p, x)
  }

  /** The keys that have representatives, apart from the squareness that the encoder tests. */
  predicate Encodable(p: Modulus, x: int) {
    0 < x < p && x != p - A
  }

  /** `r` is a square root of x / (2 w) or, for the second form, of w / (2 x), with w = -x - A. */
  predicate RepresentativeOf(p: Modulus, x: int, r: int, second: bool) {
    var w := -x - A;
    if second then Cong(p, 2 * x * (r * r), w) else Cong(p, 2 * w * (r * r), x)
  }

  /** What the map needs of the modulus. */
  ghost predicate Setting(p: Modulus) {
    Good(p) && p > A && forall x :: Factor(x) % p != 0
  }

  lemma SettingHolds()
    requires Prime(P)
    ensures Setting(P)
  {
    GoodModulus();
    forall x: int
      ensures Factor(x) % P != 0
    {
      NoTwoTorsion(x);
    }
  }

  /** If d m = -A for d = 1 + 2 r^2, then the first candidate is m. */
  lemma FirstIs(p: Modulus, r: int, m: int)
    requires Prime(p) && p > A && Cong(p, (1 + 2 * (r * r)) * m, -A)
    ensures Cong(p, First(p, r), m)
  {
    var d := 1 + 2 * (r * r);
    RemainderUnique(p, -A, -1, p - A);
    ZeroProduct(p, d, m);
    Inverse(p, d);
    CongMod(p, -A * Pow(p, d, p - 2));
    ModSmall(p, 1);
    Divided(p, -A, d, Pow(p, d, p - 2), First(p, r), m);
  }

  /** With d e = 1, both a e and any m with d m = a are a / d. */
  lemma Divided(p: Modulus, a: int, d: int, e: int, v: int, m: int)
    requires Prime(p) && d % p != 0 && Cong(p, d * e, 1) && Cong(p, v, a * e) && Cong(p, d * m, a)
    ensures Cong(p, v, m)
  {
    hide Prime;
    CongMul(p, d, d, v, a * e);
    CongMul(p, a, a, d * e, 1);
    Associate(d, a, e);
    Associate(a, d, e);
    Cancel(p, d, v, m);
  }

  /** The curve values of x and -x - A share the factor x^2 + A x + 1. */
  lemma CurveOther(x: int)
    ensures Curve(-x - A) == (-x - A) * Factor(x)
  {
    var w := -x - A;
    assert w * w + A * w == x * x + A * x by {
      assert w * w == x * x + 2 * A * x + A * A;
      assert A * w == -A * x - A * A;
    }
  }

  lemma CurveCong(p: Modulus, x: int, y: int)
    requires Cong(p, x, y)
    ensures Cong(p, Curve(x), Curve(y))
  {
    CongMul(p, x, y, x, y);
    CongMul(p, A, A, x, y);
    CongAdd(p, x * x, y * y, A * x, A * y);
    CongAdd(p, x * x + A * x, y * y + A * y, 1, 1);
    CongMul(p, x, y, x * x + A * x + 1, y * y + A * y + 1);
  }

  /** The curve value of an encodable key is not zero, and neither is that of its partner. */
  lemma CurveNonzero(p: Modulus, x: int)
    requires Setting(p) && Encodable(p, x)
    ensures Curve(x) % p != 0 && Curve(-x - A) % p != 0
    ensures x % p != 0 && (-x - A) % p != 0
  {
    var w := -x - A;
    ModSmall(p, x);
    RemainderUnique(p, w, if x < p - A then -1 else -2, if x < p - A then w + p else w + 2 * p);
    CurveOther(x);
    hide Factor;
    ZeroProduct(p, x, Factor(x));
    ZeroProduct(p, w, Factor(x));
  }

  /** The map keeps its first candidate exactly when its curve value is a square. */
  lemma MapChooses(p: Modulus, r: int, m: int)
    requires Prime(p) && Cong(p, First(p, r), m) && Curve(m) % p != 0
    ensures MapToCurve(p, r) == if IsSquare(p, Curve(m)) then m % p else Other(p, m)
  {
    var v := First(p, r);
    CurveCong(p, v, m);
    SquareCong(p, Curve(v), Curve(m));
    ModSmall(p, v);
    CongAdd(p, -A, -A, v, m);
  }

  /** A representative of the second form: the first candidate is x itself. */
  lemma SecondForm(p: Modulus, x: int, r: int)
    requires Setting(p) && Encodable(p, x) && RepresentativeOf(p, x, r, true)
    ensures MapToCurve(p, r) == Recovered(p, x)
  {
    FirstOf(p, x, -x - A, r);
    CurveNonzero(p, x);
    hide Curve;
    MapChooses(p, r, x);
    ModSmall(p, x);
  }

  /** From 2 y r^2 = -y - A follows that the first candidate is y. */
  lemma FirstOf(p: Modulus, y: int, z: int, r: int)
    requires Prime(p) && p > A && y + z == -A && Cong(p, 2 * y * (r * r), z)
    ensures Cong(p, First(p, r), y)
  {
    assert Cong(p, y, y);
    assert (1 + 2 * (r * r)) * y == y + 2 * y * (r * r);
    hide Cong, Prime;
    CongAdd(p, y, y, 2 * y * (r * r), z);
    FirstIs(p, r, y);
  }

  /** A representative of the first form: the first candidate is w = -x - A, and the curve value
      of x is that of w times 2 r^2, so exactly one of the two is a square. */
  lemma FirstForm(p: Modulus, x: int, r: int)
    requires Setting(p) && Encodable(p, x) && RepresentativeOf(p, x, r, false)
    ensures MapToCurve(p, r) == Recovered(p, x)
  {
    var w := -x - A;
    FirstOf(p, w, x, r);
    CurveNonzero(p, x);
    CurveOfFirst(p, x, w, r);
    hide Curve;
    MapChooses(p, r, w);
    OneIsSquare(p, Curve(w), r, Curve(x));
    assert -w - A == x;
    ModSmall(p, x);
  }

  lemma CurveOfFirst(p: Modulus, x: int, w: int, r: int)
    requires w == -x - A && Cong(p, 2 * w * (r * r), x)
    ensures Cong(p, 2 * Curve(w) * (r * r), Curve(x))
    ensures x % p != 0 ==> r % p != 0
  {
    CurveOther(x);
    hide Factor;
    CongMul(p, 2 * w * (r * r), x, Factor(x), Factor(x));
    assert 2 * (w * Factor(x)) * (r * r) == (2 * w * (r * r)) * Factor(x);
    if r % p == 0 {
      ZeroFactor(p, r, r);
      ZeroFactor(p, r * r, 2 * w);
    }
  }

  /** Of t and 2 t r^2 exactly one is a square. */
  lemma OneIsSquare(p: Modulus, t: int, r: int, g: int)
    requires Good(p) && t % p != 0 && r % p != 0
    requires Cong(p, 2 * t * (r * r), g)
    ensures IsSquare(p, t) <==> !IsSquare(p, g)
  {
    SquareCong(p, 2 * t * (r * r), g);
    SquareFactor(p, 2 * t, r);
    TwoNotSquare(p);
    if IsSquare(p, t) {
      var s :| IsRoot(p, s, t);
      ZeroProduct(p, s, s);
      CongMul(p, 2, 2, t, s * s);
      SquareCong(p, 2 * t, 2 * (s * s));
      SquareFactor(p, 2, s);
    } else {
      NonsquareProduct(p, 2, t);
    }
  }

  /** Either representative of an encodable key maps to the same key: the key itself when it is
      on the curve, and its partner -x - A otherwise. */
  lemma RepresentativeMaps(p: Modulus, x: int, r: int, second: bool)
    requires Setting(p) && Encodable(p, x) && RepresentativeOf(p, x, r, second)
    ensures MapToCurve(p, r) == Recovered(p, x)
  {
    if second {
      SecondForm(p, x, r);
    } else {
      FirstForm(p, x, r);
    }
  }

  // ---------------------------------------------------------------------------------------
  // Decoding
  // ---------------------------------------------------------------------------------------

  /** -A / (1 + 2 r^2) on limbs. */
  method FirstCandidate(r: Fe) returns (v: Fe)
    ensures Val(v) == First(P, Val(r))
  {
    ghost var n := Val(r);
    var r2 := Square(r);
    var twice := Mul(FIELD_TWO, r2);
    ReducedProduct(P, Val(twice), 2, 2, Val(r2), n * n);
    var d := Add(FIELD_ONE, twice);
    CongAdd(P, 1, 1, Val(twice), 2 * (n * n));
    CongMod(P, 1 + Val(twice));
    var inverse := Invert(d);
    PowCong(P, Val(d), 1 + 2 * (n * n), P - 2);
    v := Mul(FIELD_NEG_A, inverse);
    CongByMultiple(P, Val(FIELD_NEG_A), -A, 1);
    CongMul(P, Val(FIELD_NEG_A), -A, Val(inverse), Val(inverse));
  }

  /** v^3 + A v^2 + v on limbs. */
  method CurveValue(v: Fe) returns (t: Fe)
    ensures IsCanonical(t) && Cong(P, Val(t), Curve(Val(v)))
  {
    ghost var n := Val(v);
    var v2 := Square(v);
    var v3 := Mul(v2, v);
    ReducedProduct(P, Val(v3), Val(v2), n * n, n, n);
    var av2 := Mul(FIELD_A, v2);
    ReducedProduct(P, Val(av2), A, A, Val(v2), n * n);
    var sum := Add(v3, av2);
    CongAdd(P, Val(v3), n * n * n, Val(av2), A * (n * n));
    CongMod(P, Val(v3) + Val(av2));
    t := Add(sum, v);
    CongAdd(P, Val(sum), n * n * n + A * (n * n), n, n);
    CongMod(P, Val(sum) + n);
    CurveExpands(n);
  }

  lemma CurveExpands(n: int)
    ensures n * n * n + A * (n * n) + n == Curve(n)
  {}

  /** The partner -v - A on limbs. */
  method Partner(v: Fe) returns (r: Fe)
    requires IsCanonical(v)
    ensures Val(r) == Other(P, Val(v))
  {
    var minus := Neg(v);
    r := Sub(minus, FIELD_A);
    CongMod(P, -Val(v));
    CongAdd(P, Val(minus), -Val(v), A, A);
  }

  /** The decoder's arithmetic is the map. */
  method DecodeField(r: Fe) returns (x: Fe)
    ensures Prime(P) ==> Val(x) == MapToCurve(P, Val(r))
    ensures IsCanonical(x)
  {
    var v := FirstCandidate(r);
    var t := CurveValue(v);
    var other := Partner(v);
    var square := IsSquareNonzero(t);
    x := Select(v, other, square);
    if Prime(P) {
      ModSmall(P, Val(t));
      SquareCong(P, Val(t), Curve(Val(v)));
    }
  }

  /** The field value of a representative: its two top bits carry no information. */
  function Representative(b: seq<Byte>): int
    requires |b| == 32
  {
    LeVal(b[31 := b[31] % 64])
  }

  /** DecodeElligator2: accepted exactly for the half range, whatever the two top bits are. */
  method DecodeElligator2(dst: array<Byte>, encoded: seq<Byte>) returns (ok: bool)
    modifies dst
    ensures ok <==> dst.Length >= 32 && |encoded| == 32 && Representative(encoded) <= HALF_ORDER
    ensures ok && Prime(P) ==> LeVal(dst[..32]) == MapToCurve(P, Representative(encoded))
    ensures ok ==> dst[32..] == old(dst[32..])
    ensures !ok ==> dst[..] == old(dst[..])
  {
    if dst.Length < 32 || |encoded| != 32 {
      return false;
    }
    var representative := encoded[31 := encoded[31] % 64];
    var r := Load(representative);
    LoadValue(representative);
    var valid := LessOrEqual(r, FIELD_HALF);
    var x := DecodeField(r);
    if !valid {
      return false;
    }
    Store(x, dst);
    ok := true;
  }

  // ---------------------------------------------------------------------------------------
  // Encoding
  // ---------------------------------------------------------------------------------------

  /** The square-root ratio x / (2 (-x - A)) of an encodable key. */
  method KeyRatio(x: Fe) returns (r: Fe, square: bool)
    requires Encodable(P, Val(x))
    ensures Val(r) <= HALF_ORDER
    ensures square ==> RepresentativeOf(P, Val(x), Val(r), false)
    ensures Prime(P) ==> (square <==> IsSquare(P, Val(x) * (2 * (-Val(x) - A))))
  {
    ghost var n := Val(x);
    var sum := Add(x, FIELD_A);
    var w := Neg(sum);
    var twice := Mul(FIELD_TWO, w);
    TwicePartner(P, n, Val(sum), Val(w), Val(twice));
    hide Cong, Prime, IsSquare, RepresentativeOf;
    r, square := Ratio(x, twice);
    if square {
      RatioRepresents(P, n, Val(twice), Val(r));
    }
    if Prime(P) {
      assert (-n - A) % P != 0 by {
        SettingHolds();
        CurveNonzero(P, n);
      }
      RatioOperands(P, n, -n - A, Val(twice));
    }
  }

  /** The steps of 2 (-n - A), each reduced. */
  lemma TwicePartner(p: Modulus, n: int, sum: int, w: int, twice: int)
    requires sum == (n + A) % p && w == (-sum) % p && twice == (2 * w) % p
    ensures Cong(p, twice, 2 * (-n - A))
  {
    assert Cong(p, 0, 0) && Cong(p, 2, 2);
    CongMod(p, n + A);
    CongMod(p, -sum);
    CongMod(p, 2 * w);
    CongTransitive(p, twice, 2 * w, 2 * (-n - A)) by {
      CongTransitive(p, w, -sum, -n - A) by {
        hide Cong;
        CongAdd(p, 0, 0, sum, n + A);
      }
      hide Cong;
      CongMul(p, 2, 2, w, -n - A);
    }
  }

  lemma RatioRepresents(p: Modulus, n: int, twice: int, r: int)
    requires Cong(p, twice, 2 * (-n - A)) && Cong(p, twice * (r * r), n)
    ensures RepresentativeOf(p, n, r, false)
  {
    assert Cong(p, r * r, r * r);
    CongMul(p, twice, 2 * (-n - A), r * r, r * r);
  }

  lemma RatioOperands(p: Modulus, n: int, w: int, v: int)
    requires Prime(p) && w % p != 0 && 0 <= v < p && Cong(p, v, 2 * w)
    ensures v != 0
    ensures IsSquare(p, n * v) <==> IsSquare(p, n * (2 * w))
  {
    NonzeroDouble(p, w, v);
    assert Cong(p, n, n);
    hide Prime, IsSquare, Cong;
    CongMul(p, n, n, v, 2 * w);
    SquareCong(p, n * v, n * (2 * w));
  }

  lemma NonzeroDouble(p: Modulus, w: int, v: int)
    requires Prime(p) && w % p != 0 && 0 <= v < p && Cong(p, v, 2 * w)
    ensures v != 0
  {
    hide Prime;
    ModSmall(p, 2);
    ZeroProduct(p, 2, w);
    ModSmall(p, v);
  }

  /** The inverse of 2 r turns the first form into the second. */
  lemma InvertForm(p: Modulus, x: int, r: int, s: int)
    requires Prime(p) && Encodable(p, x) && RepresentativeOf(p, x, r, false)
    requires Cong(p, s, Pow(p, 2 * r, p - 2))
    ensures RepresentativeOf(p, x, s, true)
  {
    var w := -x - A;
    ModSmall(p, x);
    CurveOfFirst(p, x, w, r);
    ModSmall(p, 2);
    ZeroProduct(p, 2, r);
    Inverse(p, 2 * r);
    ModSmall(p, 1);
    CongMul(p, 2 * r, 2 * r, s, Pow(p, 2 * r, p - 2));
    SecondOfFirst(p, x, w, r, s);
  }

  lemma SecondOfFirst(p: Modulus, x: int, w: int, r: int, s: int)
    requires Cong(p, 2 * w * (r * r), x) && Cong(p, 2 * r * s, 1)
    ensures Cong(p, 2 * x * (s * s), w)
  {
    CongMul(p, 2 * w * (r * r), x, 2 * (s * s), 2 * (s * s));
    CongMul(p, 2 * r * s, 1, 2 * r * s, 1);
    CongMul(p, w, w, (2 * r * s) * (2 * r * s), 1);
    assert (2 * w * (r * r)) * (2 * (s * s)) == w * ((2 * r * s) * (2 * r * s));
    assert x * (2 * (s * s)) == 2 * x * (s * s);
  }

  /** Negating a representative keeps its form. */
  lemma SameForm(p: Modulus, x: int, z: int, r: int, second: bool)
    requires r == z || r == p - z
    requires RepresentativeOf(p, x, z, second)
    ensures RepresentativeOf(p, x, r, second)
  {
    SameSquare(p, if second then 2 * x else 2 * (-x - A), z, r);
  }

  /** The byte read from the random source, or its failure. */
  datatype Entropy = Read(byte: Byte) | ReadFailed

  datatype Outcome = Encoded | Ineligible | Invalid | EntropyError

  /** EncodeElligator2. A key that is zero, -A or not reduced is invalid; the entropy is read
      only for eligible keys, which with P prime are those where x / (2 (-x - A)) is a square. */
  method EncodeElligator2(dst: array<Byte>, public: seq<Byte>, random: Entropy) returns (out: Outcome)
    modifies dst
    ensures out.Invalid? <==> dst.Length < 32 || |public| != 32 || !Encodable(P, LeVal(public))
    ensures out.EntropyError? ==> random.ReadFailed?
    ensures out.Encoded? ==> random.Read?
    ensures Prime(P) && !out.Invalid? ==>
              var x := LeVal(public);
              out.Ineligible? <==> !IsSquare(P, x * (2 * (-x - A)))
    ensures out.Encoded? ==>
              && Representative(dst[..32]) <= HALF_ORDER
              && dst[31] / 64 == random.byte / 64
              && (Prime(P) ==> RepresentativeOf(P, LeVal(public), Representative(dst[..32]), random.byte % 2 == 1))
    ensures out.Encoded? ==> dst[32..] == old(dst[32..])
    ensures !out.Encoded? ==> dst[..] == old(dst[..])
  {
    if dst.Length < 32 || |public| != 32 {
      return Invalid;
    }
    var x := Load(public);
    LoadValue(public);
    var valid := CheckKey(x);
    if !valid {
      return Invalid;
    }
    var r0, square := KeyRatio(x);
    if !square {
      return Ineligible;
    }
    if random.ReadFailed? {
      return EntropyError;
    }
    WriteRepresentative(dst, r0, random.byte, LeVal(public));
    out := Encoded;
  }

  /** Writes the representative that the low entropy bit selects, in the half range, and puts the
      two top bits of the entropy over it. */
  method WriteRepresentative(dst: array<Byte>, r0: Fe, entropy: Byte, ghost x: int)
    requires dst.Length >= 32 && Val(r0) <= HALF_ORDER
    requires Encodable(P, x) && RepresentativeOf(P, x, Val(r0), false)
    modifies dst
    ensures Representative(dst[..32]) <= HALF_ORDER
    ensures Prime(P) ==> RepresentativeOf(P, x, Representative(dst[..32]), entropy % 2 == 1)
    ensures dst[31] / 64 == entropy / 64
    ensures dst[32..] == old(dst[32..])
  {
    var twice := Mul(FIELD_TWO, r0);
    var r1 := Invert(twice);
    var chosen := Select(r1, r0, entropy % 2 == 1);
    var r := HalfRange(chosen);
    if Prime(P) {
      CongMod(P, 2 * Val(r0));
      PowCong(P, Val(twice), 2 * Val(r0), P - 2);
      InvertForm(P, x, Val(r0), Val(r1));
      SameForm(P, x, Val(chosen), Val(r), entropy % 2 == 1);
    }
    hide RepresentativeOf, Prime;
    StoreUnder(dst, r, entropy);
  }

  method StoreUnder(dst: array<Byte>, r: Fe, entropy: Byte)
    requires dst.Length >= 32 && Val(r) <= HALF_ORDER
    modifies dst
    ensures Representative(dst[..32]) == Val(r)
    ensures dst[31] / 64 == entropy / 64
    ensures dst[32..] == old(dst[32..])
  {
    Store(r, dst);
    TopByte(dst[..32]);
    ghost var stored := dst[..32];
    dst[31] := dst[31] + (entropy - entropy % 64);
    assert dst[..32][31 := dst[31] % 64] == stored;
  }

  /** The key is reduced, not zero and not -A. */
  method CheckKey(x: Fe) returns (valid: bool)
    ensures valid <==> Encodable(P, Val(x))
  {
    var canonical := Less(x, FIELD_P);
    valid := canonical && x != FIELD_ZERO && x != FIELD_NEG_A;
    if Val(x) == 0 {
      ValInjective(x, FIELD_ZERO);
    } else if Val(x) == P - A {
      ValInjective(x, FIELD_NEG_A);
    }
  }

  /** A value below 2^254 leaves the two top bits of its last byte clear. */
  lemma TopByte(b: seq<Byte>)
    requires |b| == 32 && LeVal(b) <= HALF_ORDER
    ensures b[31] < 64
  {
    LoadValue(b);
  }

  /** Encoding a key and decoding the result gives the key when it is on the curve and its
      partner otherwise, for either entropy bit and any top bits. */
  method RoundTrip(public: seq<Byte>, entropy: Byte) returns (eligible: bool, decoded: seq<Byte>)
    requires |public| == 32 && Encodable(P, LeVal(public))
    ensures Prime(P) ==> (eligible <==> IsSquare(P, LeVal(public) * (2 * (-LeVal(public) - A))))
    ensures eligible ==> |decoded| == 32 && (Prime(P) ==> LeVal(decoded) == Recovered(P, LeVal(public)))
  {
    var dst := new Byte[32];
    var out := EncodeElligator2(dst, public, Read(entropy));
    eligible, decoded := out == Encoded, [];
    if eligible {
      var rep := dst[..32];
      if Prime(P) {
        SettingHolds();
        RepresentativeMaps(P, LeVal(public), Representative(rep), entropy % 2 == 1);
      }
      var ok := DecodeElligator2(dst, rep);
      decoded := dst[..32];
    }
  }
}
