/** Byte strings as little-endian integers, and the field's load and store. */
module Bytes {
  import opened ModArith
  import opened Words
  import opened Field25519

  type Byte = x: int | 0 <= x < 256

  /** The integer that a byte string stands for, least significant byte first. */
  function LeVal(b: seq<Byte>): (v: int)
    ensures v >= 0
  {
    if |b| == 0 then 0 else b[0] + 256 * LeVal(b[1..])
  }

  lemma TwoEight()
    ensures Two(8) == 256
  {}

  /** Eight bytes of a string joined into a word, as the shifts and ors of fieldLoad do. */
  function LoadWord(b: seq<Byte>, off: nat): (w: Word)
    requires off + 8 <= |b|
  {
    var b0: int, b1: int, b2: int, b3: int := b[off], b[off + 1], b[off + 2], b[off + 3];
    var b4: int, b5: int, b6: int, b7: int := b[off + 4], b[off + 5], b[off + 6], b[off + 7];
    b0 + 0x100 * b1 + 0x10000 * b2 + 0x1000000 * b3 + 0x100000000 * b4
    + 0x10000000000 * b5 + 0x1000000000000 * b6 + 0x100000000000000 * b7
  }

  function Load(b: seq<Byte>): Fe
    requires |b| == 32
  {
    Fe(LoadWord(b, 0), LoadWord(b, 8), LoadWord(b, 16), LoadWord(b, 24))
  }

  lemma LoadWordStep(b: seq<Byte>, off: nat)
    requires off + 8 <= |b|
    ensures LeVal(b[off..]) == LoadWord(b, off) + BASE * LeVal(b[off + 8..])
  {
    LeValDrop(b, off);
    LeValDrop(b, off + 1);
    LeValDrop(b, off + 2);
    LeValDrop(b, off + 3);
    LeValDrop(b, off + 4);
    LeValDrop(b, off + 5);
    LeValDrop(b, off + 6);
    LeValDrop(b, off + 7);
  }

  lemma LeValDrop(b: seq<Byte>, i: nat)
    requires i < |b|
    ensures LeVal(b[i..]) == b[i] + 256 * LeVal(b[i + 1..])
  {
    assert b[i..][1..] == b[i + 1..];
  }

  /** fieldLoad reads the little-endian integer. */
  lemma LoadValue(b: seq<Byte>)
    requires |b| == 32
    ensures Val(Load(b)) == LeVal(b)
  {
    assert b[0..] == b;
    LoadWordStep(b, 0);
    LoadWordStep(b, 8);
    LoadWordStep(b, 16);
    LoadWordStep(b, 24);
    assert b[32..] == [];
  }

  /** A word shifted right by `k` bytes. */
  function ShiftRight(w: Word, k: nat): Word {
    if k == 0 then w else ShiftRight(w, k - 1) / 256
  }

  /** Byte `k` of a word. */
  function ByteOf(w: Word, k: nat): Byte {
    ShiftRight(w, k) % 256
  }

  /** Writes the 32 bytes of an element; the rest of the buffer is unchanged. */
  method Store(z: Fe, out: array<Byte>)
    requires out.Length >= 32
    modifies out
    ensures LeVal(out[..32]) == Val(z)
    ensures out[32..] == old(out[32..])
  {
    var words := [z.l0, z.l1, z.l2, z.l3];
    for i := 0 to 4
      invariant forall k :: 0 <= k < 8 * i ==> out[k] == ByteOf(words[k / 8], k % 8)
      invariant out[32..] == old(out[32..])
    {
      var off := 8 * i;
      for j := 0 to 8
        invariant forall k :: 0 <= k < off + j ==> out[k] == ByteOf(words[k / 8], k % 8)
        invariant out[32..] == old(out[32..])
      {
        out[off + j] := ByteOf(words[i], j);
        assert (off + j) / 8 == i && (off + j) % 8 == j;
      }
    }
    StoredBytes(z, out[..32]);
  }

  lemma WordBytes(w: Word, b: seq<Byte>, off: nat)
    requires off + 8 <= |b|
    requires forall k :: 0 <= k < 8 ==> b[off + k] == ByteOf(w, k)
    ensures LoadWord(b, off) == w
  {
    assert ByteOf(w, 0) == b[off + 0] && ByteOf(w, 1) == b[off + 1] && ByteOf(w, 2) == b[off + 2];
    assert ByteOf(w, 3) == b[off + 3] && ByteOf(w, 4) == b[off + 4] && ByteOf(w, 5) == b[off + 5];
    assert ByteOf(w, 6) == b[off + 6] && ByteOf(w, 7) == b[off + 7];
    BytesSum(w);
  }

  lemma BytesSum(w: Word)
    ensures w == ByteOf(w, 0) + 256 * (ByteOf(w, 1) + 256 * (ByteOf(w, 2) + 256 * (ByteOf(w, 3)
                 + 256 * (ByteOf(w, 4) + 256 * (ByteOf(w, 5) + 256 * (ByteOf(w, 6) + 256 * ByteOf(w, 7)))))))
  {
    var q1, q2, q3 := w / 256, w / 256 / 256, w / 256 / 256 / 256;
    var q4, q5, q6 := q3 / 256, q3 / 256 / 256, q3 / 256 / 256 / 256;
    assert ShiftRight(w, 1) == q1 && ShiftRight(w, 2) == q2 && ShiftRight(w, 3) == q3;
    assert ShiftRight(w, 4) == q4 && ShiftRight(w, 5) == q5 && ShiftRight(w, 6) == q6;
    assert ShiftRight(w, 7) == q6 / 256;
    assert q6 / 256 < 256;
  }

  lemma StoredBytes(z: Fe, b: seq<Byte>)
    requires |b| == 32
    requires forall k :: 0 <= k < 32 ==> b[k] == ByteOf([z.l0, z.l1, z.l2, z.l3][k / 8], k % 8)
    ensures LeVal(b) == Val(z)
  {
    var words := [z.l0, z.l1, z.l2, z.l3];
    StoredWord(words, b, 0);
    StoredWord(words, b, 1);
    StoredWord(words, b, 2);
    StoredWord(words, b, 3);
    LoadValue(b);
  }

  lemma StoredWord(words: seq<Word>, b: seq<Byte>, i: nat)
    requires |words| == 4 && |b| == 32 && i < 4
    requires forall k :: 0 <= k < 32 ==> b[k] == ByteOf(words[k / 8], k % 8)
    ensures LoadWord(b, 8 * i) == words[i]
  {
    forall k | 0 <= k < 8
      ensures b[8 * i + k] == ByteOf(words[i], k)
    {
      assert (8 * i + k) / 8 == i && (8 * i + k) % 8 == k;
    }
    WordBytes(words[i], b, 8 * i);
  }
}
