/** The fixed-size ElGamal block: encryption, and decryption with all of its checks. */
module ElGamal {
  import opened ModArith
  import opened Bytes

  datatype Result<T> = Ok(value: T) | Err

  /** Modulus and generator. */
  datatype Group = Group(p: int, g: int)

  /** MODP group 14, section 3 of RFC 3526. */
  const GROUP14 := Group(0xFFFFFFFFFFFFFFFFC90FDAA22168C234C4C6628B80DC1CD129024E088A67CC74020BBEA63B139B22514A08798E3404DDEF9519B3CD3A431B302B0A6DF25F14374FE1356D6D51C245E485B576625E7EC6F44C42E9A637ED6B0BFF5CB6F406B7EDEE386BFB5A899FA5AE9F24117C4B1FE649286651ECE45B3DC2007CB8A163BF0598DA48361C55D39A69163FA8FD24CF5F83655D23DCA3AD961C62F356208552BB9ED529077096966D670C354E4ABC9804F1746C08CA18217C32905E462E36CE3BE39E772C180E86039B2783A2EC07A28FB5C55DF06F4C52C9DE2BCBF6955817183995497CEA956AE515D2261898FA051015728E5A8AACAA68FFFFFFFFFFFFFFFF, 2)

  /** 2^2040 and 2^2048: what 255 and 256 bytes cannot hold. */
  const LIMIT_255: int := 0x1000000000000000000000000000000000000000000000000000000000000000000000000000000000000000000000000000000000000000000000000000000000000000000000000000000000000000000000000000000000000000000000000000000000000000000000000000000000000000000000000000000000000000000000000000000000000000000000000000000000000000000000000000000000000000000000000000000000000000000000000000000000000000000000000000000000000000000000000000000000000000000000000000000000000000000000000000000000000000000000000000000000000000000000000000000
  const LIMIT_256: int := 0x100000000000000000000000000000000000000000000000000000000000000000000000000000000000000000000000000000000000000000000000000000000000000000000000000000000000000000000000000000000000000000000000000000000000000000000000000000000000000000000000000000000000000000000000000000000000000000000000000000000000000000000000000000000000000000000000000000000000000000000000000000000000000000000000000000000000000000000000000000000000000000000000000000000000000000000000000000000000000000000000000000000000000000000000000000000

  /** The modulus has exactly 256 bytes. */
  predicate Fits(grp: Group) {
    LIMIT_255 <= grp.p < LIMIT_256
  }

  lemma Group14Fits()
    ensures Fits(GROUP14)
  {}

  /** A 32-byte digest of any byte string. */
  type Digest = h: seq<Byte> -> seq<Byte> | forall b: seq<Byte> :: |h(b)| == 32
    witness (_ => seq(32, _ => 0))

  // ---------------------------------------------------------------------------------------
  // Big-endian numbers
  // ---------------------------------------------------------------------------------------

  function BeVal(b: seq<Byte>): (v: int)
    ensures v >= 0
  {
    if |b| == 0 then 0 else 256 * BeVal(b[..|b| - 1]) + b[|b| - 1]
  }

  /** big.Int.FillBytes: `n` bytes, most significant first. */
  function FillBytes(v: int, n: nat): (b: seq<Byte>)
    requires v >= 0
    ensures |b| == n
  {
    if n == 0 then [] else FillBytes(v / 256, n - 1) + [v % 256]
  }

  lemma {:induction false} BeValBound(b: seq<Byte>)
    ensures BeVal(b) < Two(8 * |b|)
  {
    if |b| > 0 {
      BeValBound(b[..|b| - 1]);
      TwoByte(8 * |b[..|b| - 1]|);
      assert 8 * |b[..|b| - 1]| + 8 == 8 * |b|;
    }
  }

  lemma TwoByte(e: nat)
    ensures Two(e + 8) == 256 * Two(e)
  {
    TwoNibble(e);
    TwoNibble(e + 4);
  }

  lemma TwoNibble(e: nat)
    ensures Two(e + 4) == 16 * Two(e)
  {
    assert Two(e + 2) == 2 * Two(e + 1);
    assert Two(e + 4) == 2 * Two(e + 3);
  }

  lemma Limits(n: nat)
    requires n == 255
    ensures Two(8 * n) == LIMIT_255 && Two(8 * (n + 1)) == LIMIT_256
  {
    TwoByte(8 * n);
    assert 8 * n + 8 == 8 * (n + 1);
    TwoTo255();
    DoubleExponent(n, 0x8000000000000000000000000000000000000000000000000000000000000000);
  }

  lemma DoubleExponent(n: nat, v: int)
    requires Two(n) == v
    ensures Two(8 * n) == ((v * v) * (v * v)) * ((v * v) * (v * v))
  {
    TwoAdd(n, n);
    TwoAdd(2 * n, 2 * n);
    TwoAdd(4 * n, 4 * n);
  }

  lemma {:induction false} FillThenRead(v: int, n: nat)
    requires 0 <= v < Two(8 * n)
    ensures BeVal(FillBytes(v, n)) == v
    decreases n
  {
    if n > 0 {
      TwoByte(8 * (n - 1));
      assert 8 * (n - 1) + 8 == 8 * n;
      FillThenRead(v / 256, n - 1);
      assert FillBytes(v, n)[..n - 1] == FillBytes(v / 256, n - 1);
    } else {
      assert Two(0) == 1;
    }
  }

  lemma {:induction false} ReadThenFill(b: seq<Byte>)
    ensures FillBytes(BeVal(b), |b|) == b
  {
    if |b| > 0 {
      ReadThenFill(b[..|b| - 1]);
      assert BeVal(b) / 256 == BeVal(b[..|b| - 1]);
      assert b == b[..|b| - 1] + [b[|b| - 1]];
    }
  }

  // ---------------------------------------------------------------------------------------
  // Keys and blocks
  // ---------------------------------------------------------------------------------------

  /** ElGamalPublicFromPrivate. */
  function PublicFromPrivate(grp: Group, private: seq<Byte>): Result<seq<Byte>>
    requires Fits(grp)
  {
    var x := BeVal(private);
    if x <= 0 || x > grp.p - 2 then Err else Ok(FillBytes(Pow(grp.p, grp.g, x), 256))
  }

  /** 0xff, the digest and the plaintext, as one number. */
  function Message(sha: Digest, plaintext: seq<Byte>): seq<Byte> {
    [0xff] + sha(plaintext) + plaintext
  }

  /** encryptElGamal into a buffer of `room` bytes, for a nonce `k`. */
  function Encrypt(grp: Group, sha: Digest, room: nat, public: seq<Byte>, plaintext: seq<Byte>, k: nat): Result<seq<Byte>>
    requires Fits(grp) && 1 <= k <= grp.p - 2
  {
    if room < 514 || |plaintext| != 222 then Err else
    var y := BeVal(public);
    if y <= 0 || y >= grp.p then Err else
    var a := Pow(grp.p, grp.g, k);
    var shared := Pow(grp.p, y, k);
    var b := (shared * BeVal(Message(sha, plaintext))) % grp.p;
    Ok(Block(a, b))
  }

  /** The wire block of the two numbers. */
  function Block(a: int, b: int): (c: seq<Byte>)
    requires a >= 0 && b >= 0
    ensures |c| == 514
  {
    [0] + FillBytes(a, 256) + [0] + FillBytes(b, 256)
  }

  /** DecryptElGamal into a buffer of `room` bytes. */
  function Decrypt(grp: Group, sha: Digest, room: nat, private: seq<Byte>, ciphertext: seq<Byte>): Result<seq<Byte>>
    requires Fits(grp)
  {
    if room < 222 || |ciphertext| != 514 || ciphertext[0] != 0 || ciphertext[257] != 0 then Err
    else DecryptNumbers(grp, sha, BeVal(private), BeVal(ciphertext[1..257]), BeVal(ciphertext[258..]))
  }

  /** The range checks and the unmasking by a^(p-1-x). */
  function DecryptNumbers(grp: Group, sha: Digest, x: int, a: int, b: int): Result<seq<Byte>>
    requires Fits(grp)
  {
    if x <= 0 || x > grp.p - 2 then Err else
    if a <= 0 || a >= grp.p || b <= 0 || b >= grp.p then Err else
    Open(sha, (b * Pow(grp.p, a, grp.p - 1 - x)) % grp.p)
  }

  /** The length, prefix and digest checks. */
  function Open(sha: Digest, m: int): Result<seq<Byte>>
    requires m >= 0
  {
    if m >= LIMIT_255 then Err else
    var encoded := FillBytes(m, 255);
    if encoded[0] != 0xff then Err else
    if encoded[1..33] != sha(encoded[33..]) then Err else
    Ok(encoded[33..])
  }

  // ---------------------------------------------------------------------------------------
  // The round trip
  // ---------------------------------------------------------------------------------------

  /** A power of the generator times the complementary power is 1. */
  lemma Complement(grp: Group, x: nat, k: nat)
    requires Fits(grp) && x <= grp.p - 1
    requires Pow(grp.p, grp.g, grp.p - 1) == 1
    ensures var (p, g) := (grp.p, grp.g);
            (Pow(p, Pow(p, g, x), k) * Pow(p, Pow(p, g, k), p - 1 - x)) % p == 1
  {
    var p, g := grp.p, grp.g;
    PowMul(p, g, x, k);
    PowMul(p, g, k, p - 1 - x);
    assert x * k + k * (p - 1 - x) == (p - 1) * k;
    PowAdd(p, g, x * k, k * (p - 1 - x));
    PowMul(p, g, p - 1, k);
    PowOfOne(p, k);
  }

  /** A product that is 1 modulo p has no zero factor. */
  lemma UnitFactors(p: int, a: int, b: int)
    requires p > 1 && (a * b) % p == 1
    ensures a % p != 0 && b % p != 0
  {
    ModMul(p, a, b);
    var c, d := a % p, b % p;
    assert c == 0 || d == 0 ==> c * d == 0;
  }

  /** Every power of the generator is a nonzero residue. */
  lemma GeneratorPower(grp: Group, n: nat)
    requires Fits(grp) && Pow(grp.p, grp.g, grp.p - 1) == 1 && n <= grp.p - 1
    ensures 0 < Pow(grp.p, grp.g, n) < grp.p
  {
    PowAdd(grp.p, grp.g, n, grp.p - 1 - n);
    UnitFactors(grp.p, Pow(grp.p, grp.g, n), Pow(grp.p, grp.g, grp.p - 1 - n));
    ModSmall(grp.p, Pow(grp.p, grp.g, n));
  }

  /** Unmasking a masked message, both reduced: the message comes back and the mask was not zero. */
  lemma Unmask(p: int, shared: int, inverse: int, m: int)
    requires p > 1 && (shared * inverse) % p == 1 && 0 < m < p
    ensures var b := (shared * m) % p;
            0 < b < p && (b * inverse) % p == m
  {
    var b := (shared * m) % p;
    assert (b * inverse) % p == m by {
      ModMul(p, shared * m, inverse);
      ModSmall(p, 1);
      CongMul(p, shared * inverse, 1, m, m);
      assert (shared * m) * inverse == (shared * inverse) * m;
      ModSmall(p, m);
    }
    assert b == 0 ==> b * inverse == 0;
    CongMod(p, shared * m);
  }

  /** The message number starts with 0xff and is below the modulus. */
  lemma MessageRange(grp: Group, sha: Digest, plaintext: seq<Byte>)
    requires Fits(grp) && |plaintext| == 222
    ensures var m := Message(sha, plaintext);
            |m| == 255 && 0 < BeVal(m) < LIMIT_255 && BeVal(m) < grp.p
  {
    var m := Message(sha, plaintext);
    BeValBound(m);
    Limits(|m|);
    FirstBytePositive(m);
  }

  lemma {:induction false} FirstBytePositive(b: seq<Byte>)
    requires |b| > 0 && b[0] > 0
    ensures BeVal(b) > 0
  {
    if |b| > 1 {
      FirstBytePositive(b[..|b| - 1]);
    }
  }

  /** The public key of a valid private key is accepted by encryption. */
  lemma PublicKeyValid(grp: Group, private: seq<Byte>)
    requires Fits(grp) && Pow(grp.p, grp.g, grp.p - 1) == 1
    requires 0 < BeVal(private) <= grp.p - 2
    ensures PublicFromPrivate(grp, private).Ok?
    ensures BeVal(PublicFromPrivate(grp, private).value) == Pow(grp.p, grp.g, BeVal(private))
    ensures 0 < Pow(grp.p, grp.g, BeVal(private)) < grp.p
  {
    GeneratorPower(grp, BeVal(private));
    FillBlock(grp, Pow(grp.p, grp.g, BeVal(private)));
  }

  /** A residue fits its 256-byte field. */
  lemma FillBlock(grp: Group, v: int)
    requires Fits(grp) && 0 <= v < grp.p
    ensures BeVal(FillBytes(v, 256)) == v
  {
    Limits(255);
    FillThenRead(v, 255 + 1);
  }

  /** Decrypting any encryption, under any valid key and nonce, passes every check and returns the
      plaintext. */
  lemma RoundTrip(grp: Group, sha: Digest, private: seq<Byte>, plaintext: seq<Byte>, k: nat, room: nat, room': nat)
    requires Fits(grp) && Pow(grp.p, grp.g, grp.p - 1) == 1
    requires 0 < BeVal(private) <= grp.p - 2 && |plaintext| == 222 && 1 <= k <= grp.p - 2
    requires room >= 514 && room' >= 222
    ensures PublicFromPrivate(grp, private).Ok?
    ensures var public := PublicFromPrivate(grp, private).value;
            var block := Encrypt(grp, sha, room, public, plaintext, k);
            block.Ok? && Decrypt(grp, sha, room', private, block.value) == Ok(plaintext)
  {
    var p, g, x := grp.p, grp.g, BeVal(private);
    PublicKeyValid(grp, private);
    var a, shared := Pow(p, g, k), Pow(p, Pow(p, g, x), k);
    var b := (shared * BeVal(Message(sha, plaintext))) % p;
    NumbersRoundTrip(grp, sha, x, plaintext, k);
    EncryptsTo(grp, sha, room, PublicFromPrivate(grp, private).value, plaintext, k, Pow(p, g, x));
    DecryptBlock(grp, sha, room', private, a, b);
  }

  lemma EncryptsTo(grp: Group, sha: Digest, room: nat, public: seq<Byte>, plaintext: seq<Byte>, k: nat, y: int)
    requires Fits(grp) && room >= 514 && |plaintext| == 222 && 1 <= k <= grp.p - 2
    requires y == BeVal(public) && 0 < y < grp.p
    ensures var b := (Pow(grp.p, y, k) * BeVal(Message(sha, plaintext))) % grp.p;
            Encrypt(grp, sha, room, public, plaintext, k) == Ok(Block(Pow(grp.p, grp.g, k), b))
  {}

  /** What an encryption is: accepted exactly for a full-size buffer and plaintext and a key in range,
      and then two numbers in 256 bytes each behind a zero byte, the power of the generator and the
      message masked by the power of the key. */
  lemma EncryptExactly(grp: Group, sha: Digest, room: nat, public: seq<Byte>, plaintext: seq<Byte>, k: nat)
    requires Fits(grp) && 1 <= k <= grp.p - 2
    ensures var c := Encrypt(grp, sha, room, public, plaintext, k);
      && (c.Ok? <==> room >= 514 && |plaintext| == 222 && 0 < BeVal(public) < grp.p)
      && (c.Ok? ==>
            && |c.value| == 514 && c.value[0] == 0 && c.value[257] == 0
            && BeVal(c.value[1..257]) == Pow(grp.p, grp.g, k)
            && BeVal(c.value[258..])
               == (Pow(grp.p, BeVal(public), k) * BeVal([0xff] + sha(plaintext) + plaintext)) % grp.p)
  {
    var c, y := Encrypt(grp, sha, room, public, plaintext, k), BeVal(public);
    if c.Ok? {
      EncryptsTo(grp, sha, room, public, plaintext, k, y);
      hide Pow, Message;
      var a, b := Pow(grp.p, grp.g, k), (Pow(grp.p, y, k) * BeVal(Message(sha, plaintext))) % grp.p;
      FillBlock(grp, a);
      FillBlock(grp, b);
      BlockParts(FillBytes(a, 256), FillBytes(b, 256));
    }
  }

  /** What decryption accepts, and returns. */
  lemma DecryptExactly(grp: Group, sha: Digest, room: nat, private: seq<Byte>, c: seq<Byte>, plaintext: seq<Byte>)
    requires Fits(grp)
    ensures Decrypt(grp, sha, room, private, c) == Ok(plaintext) <==>
      && room >= 222 && |c| == 514 && c[0] == 0 && c[257] == 0
      && 0 < BeVal(private) <= grp.p - 2
      && 0 < BeVal(c[1..257]) < grp.p && 0 < BeVal(c[258..]) < grp.p && |plaintext| == 222
      && (BeVal(c[258..]) * Pow(grp.p, BeVal(c[1..257]), grp.p - 1 - BeVal(private))) % grp.p
         == BeVal([0xff] + sha(plaintext) + plaintext)
  {
    MessageIs(sha, plaintext);
    if |c| == 514 {
      UnmaskedExactly(grp, sha, BeVal(private), BeVal(c[1..257]), BeVal(c[258..]), plaintext);
    }
    hide Pow, BeVal, DecryptNumbers, Message;
  }

  lemma MessageIs(sha: Digest, plaintext: seq<Byte>)
    ensures Message(sha, plaintext) == [0xff] + sha(plaintext) + plaintext
  {}

  lemma UnmaskedExactly(grp: Group, sha: Digest, x: int, a: int, b: int, plaintext: seq<Byte>)
    requires Fits(grp)
    ensures DecryptNumbers(grp, sha, x, a, b) == Ok(plaintext) <==>
      && 0 < x <= grp.p - 2 && 0 < a < grp.p && 0 < b < grp.p && |plaintext| == 222
      && (b * Pow(grp.p, a, grp.p - 1 - x)) % grp.p == BeVal(Message(sha, plaintext))
  {
    if 0 < x <= grp.p - 2 && 0 < a < grp.p && 0 < b < grp.p {
      var w := Pow(grp.p, a, grp.p - 1 - x);
      var m := (b * w) % grp.p;
      DecryptsTo(grp, sha, x, a, b, m);
      CongMod(grp.p, b * w);
      hide DecryptNumbers, Pow, BeVal, Open, Message;
      OpenExactly(sha, m, plaintext);
    } else {
      hide Pow, Open, BeVal, Message;
    }
  }

  /** The arithmetic of the round trip. */
  lemma NumbersRoundTrip(grp: Group, sha: Digest, x: nat, plaintext: seq<Byte>, k: nat)
    requires Fits(grp) && Pow(grp.p, grp.g, grp.p - 1) == 1
    requires 0 < x <= grp.p - 2 && |plaintext| == 222 && 1 <= k <= grp.p - 2
    ensures var a, shared := Pow(grp.p, grp.g, k), Pow(grp.p, Pow(grp.p, grp.g, x), k);
            var b := (shared * BeVal(Message(sha, plaintext))) % grp.p;
            0 < a < grp.p && 0 < b < grp.p && DecryptNumbers(grp, sha, x, a, b) == Ok(plaintext)
  {
    var m := BeVal(Message(sha, plaintext));
    MessageRange(grp, sha, plaintext);
    MaskUnmask(grp, x, k, m);
    var a, shared := Pow(grp.p, grp.g, k), Pow(grp.p, Pow(grp.p, grp.g, x), k);
    DecryptsTo(grp, sha, x, a, (shared * m) % grp.p, m);
    OpenMessage(sha, plaintext, m);
  }

  lemma MaskUnmask(grp: Group, x: nat, k: nat, m: int)
    requires Fits(grp) && Pow(grp.p, grp.g, grp.p - 1) == 1
    requires 0 < x <= grp.p - 2 && 1 <= k <= grp.p - 2 && 0 < m < grp.p
    ensures var a, shared := Pow(grp.p, grp.g, k), Pow(grp.p, Pow(grp.p, grp.g, x), k);
            var b := (shared * m) % grp.p;
            0 < a < grp.p && 0 < b < grp.p && (b * Pow(grp.p, a, grp.p - 1 - x)) % grp.p == m
  {
    var p, g := grp.p, grp.g;
    GeneratorPower(grp, k);
    Complement(grp, x, k);
    Unmask(p, Pow(p, Pow(p, g, x), k), Pow(p, Pow(p, g, k), p - 1 - x), m);
  }

  lemma DecryptsTo(grp: Group, sha: Digest, x: int, a: int, b: int, m: int)
    requires Fits(grp) && 0 < x <= grp.p - 2 && 0 < a < grp.p && 0 < b < grp.p
    requires (b * Pow(grp.p, a, grp.p - 1 - x)) % grp.p == m
    ensures DecryptNumbers(grp, sha, x, a, b) == Open(sha, m)
  {
    hide Pow, Open;
  }

  /** Decryption reads the two numbers of a block. */
  lemma DecryptBlock(grp: Group, sha: Digest, room: nat, private: seq<Byte>, a: int, b: int)
    requires Fits(grp) && 0 <= a < grp.p && 0 <= b < grp.p && room >= 222
    ensures Decrypt(grp, sha, room, private, Block(a, b)) == DecryptNumbers(grp, sha, BeVal(private), a, b)
  {
    FillBlock(grp, a);
    FillBlock(grp, b);
    BlockParts(FillBytes(a, 256), FillBytes(b, 256));
  }

  lemma OpenMessage(sha: Digest, plaintext: seq<Byte>, m: int)
    requires |plaintext| == 222 && 0 <= m < LIMIT_255 && m == BeVal(Message(sha, plaintext))
    ensures Open(sha, m) == Ok(plaintext)
  {
    MessageParts(sha, plaintext);
  }

  /** The checks accept a number exactly when it is the message of the plaintext returned. */
  lemma OpenExactly(sha: Digest, m: int, plaintext: seq<Byte>)
    requires m >= 0
    ensures Open(sha, m) == Ok(plaintext) <==> |plaintext| == 222 && m == BeVal(Message(sha, plaintext))
  {
    if Open(sha, m) == Ok(plaintext) {
      OpenedMessage(sha, m, plaintext);
    } else if |plaintext| == 222 && m == BeVal(Message(sha, plaintext)) {
      BeValBound(Message(sha, plaintext));
      Limits(|Message(sha, plaintext)|);
      OpenMessage(sha, plaintext, m);
    }
  }

  lemma OpenedMessage(sha: Digest, m: int, plaintext: seq<Byte>)
    requires m >= 0 && Open(sha, m) == Ok(plaintext)
    ensures |plaintext| == 222 && m == BeVal(Message(sha, plaintext))
  {
    var encoded := FillBytes(m, 255);
    Limits(255);
    FillThenRead(m, 255);
    hide FillBytes, BeVal, LIMIT_255;
    assert encoded == [encoded[0]] + encoded[1..33] + encoded[33..];
  }

  /** The fields of a block are where decryption looks for them. */
  lemma BlockParts(a: seq<Byte>, b: seq<Byte>)
    requires |a| == 256 && |b| == 256
    ensures var c := [0] + a + [0] + b;
            |c| == 514 && c[0] == 0 && c[257] == 0 && c[1..257] == a && c[258..] == b
  {}

  lemma MessageParts(sha: Digest, plaintext: seq<Byte>)
    requires |plaintext| == 222
    ensures var m := Message(sha, plaintext);
            FillBytes(BeVal(m), 255) == m && m[0] == 0xff && m[1..33] == sha(plaintext) && m[33..] == plaintext
  {
    ReadThenFill(Message(sha, plaintext));
  }
}
