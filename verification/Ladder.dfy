/** The constant-time Montgomery ladder on limbs. */
module Ladder {
  import opened ModArith
  import opened Field25519
  import opened FieldMul
  import opened FieldPow
  import opened Bytes
  import Rfc7748
  import Montgomery
  import Primes

  /** The limbs of a ladder state stand for the residues of `s`. */
  ghost predicate Stands(x2: Fe, z2: Fe, x3: Fe, z3: Fe, s: Rfc7748.State) {
    && Val(x2) % P == s.x2 && Val(z2) % P == s.z2
    && Val(x3) % P == s.x3 && Val(z3) % P == s.z3
  }

  ghost predicate AllCanonical(x2: Fe, z2: Fe, x3: Fe, z3: Fe) {
    IsCanonical(x2) && IsCanonical(z2) && IsCanonical(x3) && IsCanonical(z3)
  }

  /** Sum and difference of one pair, for any first value and a reduced second one. */
  method SumDiff(x: Fe, z: Fe) returns (sum: Fe, diff: Fe)
    requires IsCanonical(z)
    ensures Val(sum) == (Val(x) % P + Val(z) % P) % P
    ensures Val(diff) % P == (Val(x) % P - Val(z) % P) % P
  {
    sum := Add(x, z);
    diff := Sub(x, z);
    CongMod(P, Val(x));
    CongMod(P, Val(z));
    CongAdd(P, Val(x) % P, Val(x), Val(z) % P, Val(z));
  }

  /** Square and product of values known modulo P. */
  method SquareOf(z: Fe, ghost v: int) returns (r: Fe)
    requires Val(z) % P == v
    ensures Val(r) == (v * v) % P
  {
    r := Square(z);
    ModMul(P, Val(z), Val(z));
  }

  method MulOf(z: Fe, x: Fe, ghost v: int, ghost w: int) returns (r: Fe)
    requires Val(z) % P == v && Val(x) % P == w
    ensures Val(r) == (v * w) % P
  {
    r := Mul(z, x);
    ModMul(P, Val(z), Val(x));
  }

  /** The doubled point: `AA * BB` and `E * (AA + a24 * E)`. */
  method DoublePart(a: Fe, b: Fe, ghost va: int, ghost vb: int) returns (x2: Fe, z2: Fe)
    requires Val(a) % P == va && Val(b) % P == vb
    ensures (Val(x2), Val(z2)) == Rfc7748.Doubled(P, va, vb)
    ensures IsCanonical(x2) && IsCanonical(z2)
  {
    var aa := SquareOf(a, va);
    var bb := SquareOf(b, vb);
    var e := Sub(aa, bb);
    var m := MulA24(e);
    var s := Add(aa, m);
    x2 := Mul(aa, bb);
    z2 := Mul(e, s);
  }

  /** The differential sum: `(DA + CB)^2` and `x1 * (DA - CB)^2`. */
  method AddPart(x1: Fe, a: Fe, b: Fe, c: Fe, d: Fe, ghost va: int, ghost vb: int, ghost vc: int, ghost vd: int)
    returns (x3: Fe, z3: Fe)
    requires Val(a) % P == va && Val(b) % P == vb && Val(c) % P == vc && Val(d) % P == vd
    ensures (Val(x3), Val(z3)) == Rfc7748.Added(P, Val(x1) % P, va, vb, vc, vd)
    ensures IsCanonical(x3) && IsCanonical(z3)
  {
    var da := MulOf(d, a, vd, va);
    var cb := MulOf(c, b, vc, vb);
    var sum := Add(da, cb);
    x3 := Square(sum);
    var diff := Sub(da, cb);
    var sq := Square(diff);
    z3 := Mul(x1, sq);
    ModMul(P, Val(x1), Val(sq));
  }

  /** One pass of the loop body after its swap. */
  method Step(x1: Fe, x2: Fe, z2: Fe, x3: Fe, z3: Fe, ghost s: Rfc7748.State)
    returns (nx2: Fe, nz2: Fe, nx3: Fe, nz3: Fe)
    requires Stands(x2, z2, x3, z3, s)
    requires IsCanonical(z2) && IsCanonical(z3)
    ensures Stands(nx2, nz2, nx3, nz3, Rfc7748.Step(P, Val(x1) % P, s))
    ensures AllCanonical(nx2, nz2, nx3, nz3)
  {
    var a, b := SumDiff(x2, z2);
    var c, d := SumDiff(x3, z3);
    ghost var va, vb := (s.x2 + s.z2) % P, (s.x2 - s.z2) % P;
    ghost var vc, vd := (s.x3 + s.z3) % P, (s.x3 - s.z3) % P;
    ModSmall(P, va);
    ModSmall(P, vc);
    nx2, nz2 := DoublePart(a, b, va, vb);
    nx3, nz3 := AddPart(x1, a, b, c, d, va, vb, vc, vd);
    StepStands(nx2, nz2, nx3, nz3, Val(x1) % P, s, va, vb, vc, vd);
  }

  lemma StepStands(x2: Fe, z2: Fe, x3: Fe, z3: Fe, u: int, s: Rfc7748.State, a: int, b: int, c: int, d: int)
    requires a == (s.x2 + s.z2) % P && b == (s.x2 - s.z2) % P
    requires c == (s.x3 + s.z3) % P && d == (s.x3 - s.z3) % P
    requires (Val(x2), Val(z2)) == Rfc7748.Doubled(P, a, b)
    requires (Val(x3), Val(z3)) == Rfc7748.Added(P, u, a, b, c, d)
    requires AllCanonical(x2, z2, x3, z3)
    ensures Stands(x2, z2, x3, z3, Rfc7748.Step(P, u, s))
  {
    ModSmall(P, Val(x2));
    ModSmall(P, Val(z2));
    ModSmall(P, Val(x3));
    ModSmall(P, Val(z3));
  }

  /** The x-coordinate of the point's multiple by the clamped scalar. */
  ghost function Product(scalar: seq<Byte>, point: seq<Byte>): int
    requires |scalar| == 32 && |point| == 32
  {
    Montgomery.Affine(P, Montgomery.Multiple(P, Rfc7748.DecodeU(point), Rfc7748.DecodeScalar(scalar)))
  }

  /** The loop over the 255 scalar bits and the closing swap and division. Every coordinate is
      reduced from the first pass on, whatever the top half of the loaded u-coordinate was. */
  method ScalarMult(scalar: seq<Byte>, point: seq<Byte>) returns (r: Fe)
    requires |scalar| == 32 && |point| == 32
    ensures Val(r) == Rfc7748.X25519(scalar, point)
    ensures Primes.Prime(P) ==> Val(r) == Product(scalar, point)
  {
    var e := scalar[0 := scalar[0] - scalar[0] % 8][31 := scalar[31] % 64 + 64];
    var uBytes := point[31 := point[31] % 128];
    ghost var k, u := Rfc7748.DecodeScalar(scalar), Rfc7748.DecodeU(point);
    var x1 := Load(uBytes);
    LoadValue(uBytes);
    var x2, z2, x3, z3 := FIELD_ONE, FIELD_ZERO, x1, FIELD_ONE;
    var swap := false;
    for t := 255 downto 0
      invariant Stands(x2, z2, x3, z3, Rfc7748.Ladder(P, k, u, t))
      invariant IsCanonical(z2) && IsCanonical(z3)
      invariant t < 255 ==> AllCanonical(x2, z2, x3, z3)
      invariant swap == Rfc7748.Owed(k, t)
    {
      var kt := Rfc7748.Bit(e[t / 8], t % 8) == 1;
      Rfc7748.ByteBit(e, t);
      var mask := swap != kt;
      x2, x3 := Select(x3, x2, mask), Select(x2, x3, mask);
      z2, z3 := Select(z3, z2, mask), Select(z2, z3, mask);
      swap := kt;
      x2, z2, x3, z3 := Step(x1, x2, z2, x3, z3, Rfc7748.Swap(Rfc7748.Ladder(P, k, u, t + 1), mask));
    }
    x2 := Select(x3, x2, swap);
    z2 := Select(z3, z2, swap);
    var inverse := Invert(z2);
    r := Mul(x2, inverse);
    ModSmall(P, Val(x2));
    ModSmall(P, Val(z2));
    if Primes.Prime(P) {
      Montgomery.X25519IsMultiple(scalar, point);
    }
  }

  /** x25519ScalarMult: the 32 output bytes are the RFC 7748 result, also when the output buffer
      is one of the inputs. */
  method X25519ScalarMult(dst: array<Byte>, scalar: array<Byte>, point: array<Byte>)
    requires dst.Length == 32 && scalar.Length == 32 && point.Length == 32
    modifies dst
    ensures LeVal(dst[..]) == Rfc7748.X25519(old(scalar[..]), old(point[..]))
    ensures Primes.Prime(P) ==> LeVal(dst[..]) == Product(old(scalar[..]), old(point[..]))
  {
    var r := ScalarMult(scalar[..], point[..]);
    Store(r, dst);
    assert dst[..32] == dst[..];
  }
}
