/** The X25519 function as section 5 of RFC 7748 writes it, over integers modulo `p`;
    X25519 itself takes 2^255 - 19. */
module Rfc7748 {
  import opened ModArith
  import opened Field25519
  import opened Bytes

  /** Bit `t` of `k`: the last bit after `t` halvings. */
  function Bit(k: int, t: nat): (b: int)
    requires k >= 0
    ensures 0 <= b <= 1
  {
    if t == 0 then k % 2 else Bit(k / 2, t - 1)
  }

  /** decodeScalar25519: the low three bits and the top bit cleared, bit 254 set. */
  function DecodeScalar(b: seq<Byte>): int
    requires |b| == 32
  {
    LeVal(b[0 := b[0] - b[0] % 8][31 := b[31] % 64 + 64])
  }

  /** decodeUCoordinate: the top bit is ignored, and the value is taken modulo P. */
  function DecodeU(b: seq<Byte>): int
    requires |b| == 32
  {
    LeVal(b[31 := b[31] % 128]) % P
  }

  /** Bit `t` of a byte string is bit `t % 8` of byte `t / 8`. */
  lemma {:induction false} ByteBit(e: seq<Byte>, t: nat)
    requires t / 8 < |e|
    ensures Bit(LeVal(e), t) == Bit(e[t / 8], t % 8)
    decreases t
  {
    if t < 8 {
      LowBit(e[0], LeVal(e[1..]), t);
    } else {
      HighBits(LeVal(e), t);
      assert LeVal(e) / 256 == LeVal(e[1..]);
      ByteBit(e[1..], t - 8);
      assert (t - 8) / 8 == t / 8 - 1 && (t - 8) % 8 == t % 8;
      assert e[1..][t / 8 - 1] == e[t / 8];
    }
  }

  /** The bits of the lowest byte do not see the rest. */
  lemma LowBit(b: Byte, rest: int, t: nat)
    requires rest >= 0 && t < 8
    ensures Bit(b + 256 * rest, t) == Bit(b, t)
  {
    TwoAdd(t + 1, 7 - t);
    TwoEight();
    assert 256 * rest == Two(t + 1) * (Two(7 - t) * rest);
    LowBits(b, Two(7 - t) * rest, t);
  }

  lemma {:induction false} LowBits(b: int, m: int, t: nat)
    requires b >= 0 && m >= 0
    ensures Two(t + 1) * m >= 0 && Bit(b + Two(t + 1) * m, t) == Bit(b, t)
  {
    assert Two(t + 1) * m == 2 * (Two(t) * m);
    if t > 0 {
      LowBits(b / 2, m, t - 1);
      assert (b + Two(t + 1) * m) / 2 == b / 2 + Two(t) * m;
    }
  }

  lemma HighBits(v: int, t: nat)
    requires v >= 0 && t >= 8
    ensures Bit(v, t) == Bit(v / 256, t - 8)
  {
    hide Bit;
    TwoBits(v, t);
    TwoBits(v / 4, t - 2);
    TwoBits(v / 16, t - 4);
    TwoBits(v / 64, t - 6);
  }

  lemma TwoBits(v: int, t: nat)
    requires v >= 0 && t >= 2
    ensures Bit(v, t) == Bit(v / 4, t - 2)
  {
    assert Bit(v, t) == Bit(v / 2, t - 1) == Bit(v / 2 / 2, t - 2);
  }

  // The decoded scalar and point.

  /** A byte replaced changes the value by the difference at its place. */
  lemma {:induction false} ByteReplaced(b: seq<Byte>, i: nat, x: Byte)
    requires i < |b|
    ensures LeVal(b[i := x]) == LeVal(b) + Two(8 * i) * (x - b[i])
    decreases i
  {
    var c := b[i := x];
    if i == 0 {
      assert c[1..] == b[1..];
    } else {
      assert c[1..] == b[1..][i - 1 := x];
      ByteReplaced(b[1..], i - 1, x);
      TwoEight();
      TwoAdd(8, 8 * (i - 1));
      Associate(256, Two(8 * (i - 1)), x - b[i]);
    }
  }

  /** The clamped scalar is a multiple of 8 with its top bit at 254, and agrees with the scalar on
      the bits between. */
  lemma DecodedScalar(b: seq<Byte>)
    requires |b| == 32
    ensures DecodeScalar(b) % 8 == 0
    ensures (P + 19) / 2 <= DecodeScalar(b) < P + 19
    ensures forall t :: 3 <= t < 254 ==> Bit(DecodeScalar(b), t) == Bit(LeVal(b), t)
  {
    var e := b[0 := b[0] - b[0] % 8][31 := b[31] % 64 + 64];
    ClampedRange(e);
    hide LeVal, Bit;
    forall t | 3 <= t < 254
      ensures Bit(LeVal(e), t) == Bit(LeVal(b), t)
    {
      ByteBit(e, t);
      ByteBit(b, t);
      if t < 8 {
        LowBitsCleared(b[0], t);
      } else if t >= 248 {
        TopBitsSet(b[31], t - 248);
      }
    }
  }

  lemma ClampedRange(e: seq<Byte>)
    requires |e| == 32 && e[0] % 8 == 0 && 64 <= e[31] < 128
    ensures LeVal(e) % 8 == 0 && (P + 19) / 2 <= LeVal(e) < P + 19
  {
    EightDivides(e);
    LastByte(e);
    var n := 8 * (|e| - 1);
    TopWeight(n);
    hide LeVal, Two;
    TopHalf(Two(n), e[31]);
  }

  lemma EightDivides(e: seq<Byte>)
    requires e != [] && e[0] % 8 == 0
    ensures LeVal(e) % 8 == 0
  {
    var rest := LeVal(e[1..]);
    assert LeVal(e) == 8 * (e[0] / 8 + 32 * rest);
  }

  lemma TopHalf(w: int, x: int)
    requires w > 0 && 64 <= x < 128
    ensures w * 64 <= w * x && w * (x + 1) <= w * 128
  {}

  /** The last byte bounds the value. */
  lemma {:induction false} LastByte(e: seq<Byte>)
    requires |e| > 0
    ensures Two(8 * (|e| - 1)) * e[|e| - 1] <= LeVal(e) < Two(8 * (|e| - 1)) * (e[|e| - 1] as int + 1)
    decreases |e|
  {
    if |e| == 1 {
      assert e[1..] == [];
    } else {
      var n, x := 8 * (|e| - 2), e[|e| - 1];
      LastByte(e[1..]);
      TwoEight();
      TwoAdd(8, n);
      LastStep(Two(n), x, LeVal(e[1..]), e[0]);
    }
  }

  lemma LastStep(w: int, x: int, v: int, b: Byte)
    requires w * x <= v < w * (x + 1)
    ensures (256 * w) * x <= b + 256 * v < (256 * w) * (x + 1)
  {
    Associate(256, w, x);
    Associate(256, w, x + 1);
  }

  lemma TopWeight(n: nat)
    requires n == 248
    ensures Two(n) * 128 == P + 19
  {
    TwoTo255();
    TwoAdd(n, 7);
  }

  lemma LowBitsCleared(b: Byte, t: nat)
    requires 3 <= t
    ensures Bit(b - b % 8, t) == Bit(b, t)
  {
    var c := b - b % 8;
    TwoBits(c, t);
    TwoBits(b, t);
    assert Bit(c / 4, t - 2) == Bit(c / 4 / 2, t - 3);
    assert Bit(b / 4, t - 2) == Bit(b / 4 / 2, t - 3);
  }

  lemma TopBitsSet(b: Byte, t: nat)
    requires t < 6
    ensures Bit(b % 64 + 64, t) == Bit(b, t)
  {
    var n, m, q := Two(t + 1), Two(5 - t), b / 64;
    SixBits(t);
    Associate(n, m, q);
    assert b == b % 64 + n * (m * q);
    LowBits(b % 64, m, t);
    LowBits(b % 64, m * q, t);
  }

  lemma SixBits(t: nat)
    requires t < 6
    ensures Two(t + 1) * Two(5 - t) == 64
  {
    TwoAdd(t + 1, 5 - t);
    TwoSum(3, 3, 6, 8, 8);
  }

  /** The decoded u-coordinate is the low 255 bits of the point, reduced. */
  lemma DecodedPoint(b: seq<Byte>)
    requires |b| == 32
    ensures DecodeU(b) == (LeVal(b) % (P + 19)) % P
  {
    hide LeVal, Two;
    var i, q := |b| - 1, b[31] / 128;
    var c := b[i := b[i] % 128];
    LastByte(c);
    ByteReplaced(b, i, b[i] % 128);
    TopWeight(8 * i);
    TopCleared(Two(8 * i), P + 19, LeVal(b), LeVal(c), b[i], q);
  }

  lemma TopCleared(w: int, m: int, v: int, low: int, b: Byte, q: int)
    requires w > 0 && w * 128 == m && q == b / 128
    requires low == v + w * (b % 128 - b) && 0 <= low < w * (b % 128 + 1)
    ensures v % m == low
  {
    assert b % 128 - b == 128 * (-q);
    Associate(w, 128, -q);
    assert m * (-q) == -(q * m);
    TopShare(w, b % 128 + 1);
    RemainderUnique(m, v, q, low);
  }

  lemma TopShare(w: int, x: int)
    requires w > 0 && x <= 128
    ensures w * x <= w * 128
  {}

  datatype State = State(x2: int, z2: int, x3: int, z3: int)

  function Swap(s: State, swap: bool): State {
    if swap then State(s.x3, s.z3, s.x2, s.z2) else s
  }

  /** The doubled point: AA * BB and E * (AA + a24 * E). */
  function Doubled(p: int, a: int, b: int): (int, int)
    requires p > 1
  {
    var aa := (a * a) % p;
    var bb := (b * b) % p;
    var e := (aa - bb) % p;
    ((aa * bb) % p, (e * ((aa + (121665 * e) % p) % p)) % p)
  }

  /** The differential sum: (DA + CB)^2 and x1 * (DA - CB)^2. */
  function Added(p: int, x1: int, a: int, b: int, c: int, d: int): (int, int)
    requires p > 1
  {
    var da := (d * a) % p;
    var cb := (c * b) % p;
    var sum := (da + cb) % p;
    var diff := (da - cb) % p;
    ((sum * sum) % p, (x1 * ((diff * diff) % p)) % p)
  }

  /** One pass of the loop after its swap. */
  function Step(p: int, x1: int, s: State): State
    requires p > 1
  {
    var a := (s.x2 + s.z2) % p;
    var b := (s.x2 - s.z2) % p;
    var c := (s.x3 + s.z3) % p;
    var d := (s.x3 - s.z3) % p;
    var double := Doubled(p, a, b);
    var sum := Added(p, x1, a, b, c, d);
    State(double.0, double.1, sum.0, sum.1)
  }

  /** The state after the bits from 254 down to `t`, before the swap that bit `t` still owes. */
  function Ladder(p: int, k: int, u: int, t: nat): State
    requires p > 1 && k >= 0 && t <= 255
    decreases 255 - t
  {
    if t == 255 then State(1, 0, u, 1)
    else Step(p, u, Swap(Ladder(p, k, u, t + 1), Owed(k, t + 1) != (Bit(k, t) == 1)))
  }

  /** The swap owed when bit `t` has been processed: that bit itself. */
  function Owed(k: int, t: nat): bool
    requires k >= 0
  {
    t < 255 && Bit(k, t) == 1
  }

  /** The u-coordinate of the scalar multiple. */
  function X25519(scalar: seq<Byte>, point: seq<Byte>): int
    requires |scalar| == 32 && |point| == 32
  {
    var k := DecodeScalar(scalar);
    var s := Swap(Ladder(P, k, DecodeU(point), 0), Owed(k, 0));
    (s.x2 * Pow(P, s.z2, P - 2)) % P
  }
}
