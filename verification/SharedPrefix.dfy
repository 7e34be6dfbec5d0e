/** 256-bit hashes: the length of a shared prefix, which is an ultrametric, and the byte order. */
module SharedPrefix {

  type Hash = h: seq<bv8> | |h| == 32 witness seq(32, _ => 0)

  /** bits.LeadingZeros8. */
  function LeadingZeros8(d: bv8): (n: nat)
    ensures n <= 8 && (n == 8 <==> d == 0)
  {
    if d >= 128 then 0 else if d >= 64 then 1 else if d >= 32 then 2 else if d >= 16 then 3
    else if d >= 8 then 4 else if d >= 4 then 5 else if d >= 2 then 6 else if d >= 1 then 7 else 8
  }

  /** leadingZerosXOR, from byte `i` on. */
  function LeadingZerosFrom(a: Hash, b: Hash, i: nat): nat
    requires i <= 32
    decreases 32 - i
  {
    if i == 32 then 256
    else
      var d := a[i] ^ b[i];
      if d != 0 then 8 * i + LeadingZeros8(d) else LeadingZerosFrom(a, b, i + 1)
  }

  function LeadingZerosXOR(a: Hash, b: Hash): nat {
    LeadingZerosFrom(a, b, 0)
  }

  // ---------------------------------------------------------------------------------------
  // What it means
  // ---------------------------------------------------------------------------------------

  /** Bit `j` of a byte, the most significant first. */
  predicate ByteBit(x: bv8, j: nat) {
    if j == 0 then x & 128 != 0 else if j == 1 then x & 64 != 0 else if j == 2 then x & 32 != 0
    else if j == 3 then x & 16 != 0 else if j == 4 then x & 8 != 0 else if j == 5 then x & 4 != 0
    else if j == 6 then x & 2 != 0 else x & 1 != 0
  }

  /** Bit `n` of a hash, the most significant first. */
  predicate Bit(a: Hash, n: nat)
    requires n < 256
  {
    ByteBit(a[n / 8], n % 8)
  }

  /** The first `n` bits agree. */
  ghost predicate Agree(a: Hash, b: Hash, n: nat)
    requires n <= 256
  {
    forall i :: 0 <= i < n ==> Bit(a, i) == Bit(b, i)
  }

  /** The leading zeros of an XOR are the equal bits before the first different one. */
  lemma FirstDifference(x: bv8, y: bv8, j: nat)
    requires x != y && j < 8
    ensures x ^ y != 0
    ensures j < LeadingZeros8(x ^ y) ==> ByteBit(x, j) == ByteBit(y, j)
    ensures j == LeadingZeros8(x ^ y) ==> ByteBit(x, j) != ByteBit(y, j)
  {}

  lemma {:induction false} AgreeFrom(a: Hash, b: Hash, i: nat)
    requires i <= 32 && Agree(a, b, 8 * i)
    ensures var n := LeadingZerosFrom(a, b, i);
            n <= 256 && Agree(a, b, n) && (n < 256 ==> Bit(a, n) != Bit(b, n))
    decreases 32 - i
  {
    hide ByteBit, LeadingZeros8;
    if i < 32 {
      if a[i] == b[i] {
        SameByte(a, b, i);
        AgreeFrom(a, b, i + 1);
      } else {
        forall j: nat | j < 8
          ensures a[i] ^ b[i] != 0
          ensures j < LeadingZeros8(a[i] ^ b[i]) ==> ByteBit(a[i], j) == ByteBit(b[i], j)
          ensures j == LeadingZeros8(a[i] ^ b[i]) ==> ByteBit(a[i], j) != ByteBit(b[i], j)
        {
          FirstDifference(a[i], b[i], j);
        }
        DifferentByte(a, b, i, LeadingZeros8(a[i] ^ b[i]));
      }
    }
  }

  lemma SameByte(a: Hash, b: Hash, i: nat)
    requires i < 32 && a[i] == b[i] && Agree(a, b, 8 * i)
    ensures a[i] ^ b[i] == 0 && Agree(a, b, 8 * (i + 1))
  {
    forall n | 8 * i <= n < 8 * (i + 1)
      ensures Bit(a, n) == Bit(b, n)
    {
      assert n / 8 == i;
    }
  }

  lemma DifferentByte(a: Hash, b: Hash, i: nat, k: nat)
    requires i < 32 && k < 8 && Agree(a, b, 8 * i)
    requires forall j: nat :: j < k ==> ByteBit(a[i], j) == ByteBit(b[i], j)
    requires ByteBit(a[i], k) != ByteBit(b[i], k)
    ensures Agree(a, b, 8 * i + k) && Bit(a, 8 * i + k) != Bit(b, 8 * i + k)
  {
    hide ByteBit;
    forall m | 8 * i <= m < 8 * i + k
      ensures Bit(a, m) == Bit(b, m)
    {
      assert m / 8 == i && m % 8 == m - 8 * i;
    }
    assert (8 * i + k) / 8 == i && (8 * i + k) % 8 == k;
  }

  /** The shared prefix is at least `n` long exactly when the first `n` bits agree. */
  lemma PrefixExactly(a: Hash, b: Hash, n: nat)
    requires n <= 256
    ensures LeadingZerosXOR(a, b) <= 256
    ensures LeadingZerosXOR(a, b) >= n <==> Agree(a, b, n)
  {
    AgreeFrom(a, b, 0);
    var z := LeadingZerosXOR(a, b);
    if z < n {
      assert Bit(a, z) != Bit(b, z);
    }
  }

  /** The shared prefix is an ultrametric: of the three shared prefixes of three hashes, none is
      shorter than both others. */
  lemma Ultrametric(a: Hash, b: Hash, c: Hash, n: nat)
    requires LeadingZerosXOR(a, b) >= n && LeadingZerosXOR(b, c) >= n
    ensures LeadingZerosXOR(a, c) >= n
  {
    PrefixExactly(a, b, 0);
    PrefixExactly(a, b, n);
    PrefixExactly(b, c, n);
    PrefixExactly(a, c, n);
  }

  lemma Symmetric(a: Hash, b: Hash)
    ensures LeadingZerosXOR(a, b) == LeadingZerosXOR(b, a)
  {
    PrefixExactly(a, b, 0);
    PrefixExactly(b, a, 0);
    var n := LeadingZerosXOR(a, b);
    PrefixExactly(a, b, n);
    PrefixExactly(b, a, n);
    if LeadingZerosXOR(b, a) > n {
      PrefixExactly(b, a, n + 1);
      PrefixExactly(a, b, n + 1);
    }
  }

  /** Only equal hashes share all 256 bits. */
  lemma FullPrefix(a: Hash, b: Hash)
    ensures LeadingZerosXOR(a, b) == 256 <==> a == b
  {
    if a == b {
      PrefixExactly(a, b, 256);
    } else if LeadingZerosXOR(a, b) == 256 {
      SameBytes(a, b, 0);
    }
  }

  lemma {:induction false} SameBytes(a: Hash, b: Hash, i: nat)
    requires i <= 32 && LeadingZerosFrom(a, b, i) == 256
    ensures forall k :: i <= k < 32 ==> a[k] == b[k]
    decreases 32 - i
  {
    hide LeadingZeros8;
    if i < 32 {
      if a[i] != b[i] {
        FirstDifference(a[i], b[i], 0);
      }
      SameBytes(a, b, i + 1);
    }
  }

  // ---------------------------------------------------------------------------------------
  // The order of hashes
  // ---------------------------------------------------------------------------------------

  /** bytes.Compare < 0. */
  predicate Before(a: seq<bv8>, b: seq<bv8>) {
    if b == [] then false
    else if a == [] then true
    else a[0] < b[0] || (a[0] == b[0] && Before(a[1..], b[1..]))
  }

  lemma {:induction false} BeforeTransitive(a: seq<bv8>, b: seq<bv8>, c: seq<bv8>)
    requires Before(a, b) && Before(b, c)
    ensures Before(a, c)
  {
    if a != [] && a[0] == b[0] == c[0] {
      BeforeTransitive(a[1..], b[1..], c[1..]);
    }
  }

  lemma {:induction false} NotBeforeItself(a: seq<bv8>)
    ensures !Before(a, a)
  {
    if a != [] {
      NotBeforeItself(a[1..]);
    }
  }

  lemma {:induction false} BeforeTotal(a: seq<bv8>, b: seq<bv8>)
    requires a != b
    ensures Before(a, b) || Before(b, a)
  {
    if a != [] && b != [] && a[0] == b[0] {
      assert a == [a[0]] + a[1..] && b == [b[0]] + b[1..];
      BeforeTotal(a[1..], b[1..]);
    }
  }

  /** The strings agree before `i`, where `a` has ended or has the smaller byte. */
  ghost predicate SmallerAt(a: seq<bv8>, b: seq<bv8>, i: nat) {
    i <= |a| && i < |b| && a[..i] == b[..i] && (i == |a| || a[i] < b[i])
  }

  /** One string comes before another exactly when the first difference is in its favour. */
  lemma {:induction false} BeforeExactly(a: seq<bv8>, b: seq<bv8>)
    ensures Before(a, b) <==> exists i: nat :: SmallerAt(a, b, i)
    decreases |a|
  {
    if b == [] || a == [] || a[0] != b[0] {
      assert SmallerAt(a, b, 0) <==> Before(a, b);
      forall i: nat {
        DecidedAtOnce(a, b, i);
      }
    } else {
      BeforeExactly(a[1..], b[1..]);
      forall i: nat
        ensures SmallerAt(a[1..], b[1..], i) <==> SmallerAt(a, b, i + 1)
      {
        LaterDifference(a, b, i);
      }
      if i: nat :| SmallerAt(a, b, i) {
        assert SmallerAt(a[1..], b[1..], i - 1);
      }
    }
  }

  lemma DecidedAtOnce(a: seq<bv8>, b: seq<bv8>, i: nat)
    requires b == [] || a == [] || a[0] != b[0]
    ensures SmallerAt(a, b, i) ==> i == 0
  {
    if i > 0 && a != [] && b != [] && i <= |a| && i < |b| {
      assert a[..i][0] == a[0] && b[..i][0] == b[0];
    }
  }

  lemma LaterDifference(a: seq<bv8>, b: seq<bv8>, i: nat)
    requires a != [] && b != [] && a[0] == b[0]
    ensures SmallerAt(a[1..], b[1..], i) <==> SmallerAt(a, b, i + 1)
  {
    if i <= |a| - 1 && i < |b| - 1 {
      assert a[..i + 1] == [a[0]] + a[1..][..i];
      assert b[..i + 1] == [b[0]] + b[1..][..i];
      assert a[1..][..i] == a[..i + 1][1..] && b[1..][..i] == b[..i + 1][1..];
    }
  }
}
