// The Secure Hash Algorithm as RFC 3174 (and FIPS PUB 180-1) defines it, on
// whole messages of bytes.  Nothing here follows the streaming program: the
// message is padded as a whole, cut into 64-byte blocks and folded.
module Sha1Spec {
  newtype Byte = x: int | 0 <= x < 256

  // A 32-bit word, kept behind a constructor so that words are compared whole.
  datatype Word = Word(bits: bv32)

  const MAX_BYTES: nat := 0x2000_0000_0000_0000  // 2^64 bits
  const TWO_32: nat := 0x1_0000_0000

  // The five chaining words.
  datatype Hash = Hash(a: Word, b: Word, c: Word, d: Word, e: Word)

  const INITIAL_HASH := Hash(Word(0x67452301), Word(0xEFCDAB89), Word(0x98BADCFE), Word(0x10325476), Word(0xC3D2E1F0))

  // Section 2: a word is four bytes, most significant first.
  function BigEndianWord(b0: Byte, b1: Byte, b2: Byte, b3: Byte): Word {
    Word((b0 as bv8 as bv32) * 0x1000000 + (b1 as bv8 as bv32) * 0x10000
         + (b2 as bv8 as bv32) * 0x100 + (b3 as bv8 as bv32))
  }

  // Section 2 c: addition of words wraps around.
  function Add(x: Word, y: Word): Word { Word(x.bits + y.bits) }

  // Section 3 d: the circular left shifts the algorithm uses.
  function RotateBits1(x: bv32): bv32 { x.RotateLeft(1) }

  function RotateLeft1(x: Word): Word { Word(RotateBits1(x.bits)) }

  function RotateBits5(x: bv32): bv32 { x.RotateLeft(5) }

  function RotateLeft5(x: Word): Word { Word(RotateBits5(x.bits)) }

  function RotateBits30(x: bv32): bv32 { x.RotateLeft(30) }

  function RotateLeft30(x: Word): Word { Word(RotateBits30(x.bits)) }

  // Section 5: the round functions, in the equivalent form of section 4.1.1 of
  // FIPS PUB 180-4, and the constants.
  function Choose(b: Word, c: Word, d: Word): Word {
    Word((b.bits & c.bits) ^ (!b.bits & d.bits))
  }

  function Parity(b: Word, c: Word, d: Word): Word {
    Word(b.bits ^ c.bits ^ d.bits)
  }

  function Majority(b: Word, c: Word, d: Word): Word {
    Word((b.bits & c.bits) ^ (b.bits & d.bits) ^ (c.bits & d.bits))
  }

  function F(t: nat, b: Word, c: Word, d: Word): Word {
    if t < 20 then Choose(b, c, d)
    else if t < 40 then Parity(b, c, d)
    else if t < 60 then Majority(b, c, d)
    else Parity(b, c, d)
  }

  function K(t: nat): Word {
    if t < 20 then Word(0x5A827999) else if t < 40 then Word(0x6ED9EBA1)
    else if t < 60 then Word(0x8F1BBCDC) else Word(0xCA62C1D6)
  }

  function Xor4(w: Word, x: Word, y: Word, z: Word): Word {
    Word(w.bits ^ x.bits ^ y.bits ^ z.bits)
  }

  // Section 6.1 a and b: the 80-word schedule of one block.
  function Schedule(block: seq<Byte>, t: nat): Word
    requires |block| == 64
  {
    if t < 16 then BigEndianWord(block[4 * t], block[4 * t + 1], block[4 * t + 2], block[4 * t + 3])
    else RotateLeft1(Xor4(Schedule(block, t - 3), Schedule(block, t - 8),
                          Schedule(block, t - 14), Schedule(block, t - 16)))
  }

  // Section 6.1 d: one round.
  function Round(s: Hash, t: nat, w: Word): Hash {
    Hash(Temp(t, s.a, s.b, s.c, s.d, s.e, w), s.a, RotateLeft30(s.b), s.c, s.d)
  }

  function Temp(t: nat, a: Word, b: Word, c: Word, d: Word, e: Word, w: Word): Word {
    Add(Add(Add(Add(RotateLeft5(a), F(t, b, c, d)), e), w), K(t))
  }

  function Rounds(s: Hash, block: seq<Byte>, t: nat): Hash
    requires |block| == 64
  {
    if t == 0 then s else Round(Rounds(s, block, t - 1), t - 1, Schedule(block, t - 1))
  }

  // Section 6.1 c and e.
  function Compress(h: Hash, block: seq<Byte>): Hash
    requires |block| == 64
  {
    var r := Rounds(h, block, 80);
    Hash(Add(h.a, r.a), Add(h.b, r.b), Add(h.c, r.c), Add(h.d, r.d), Add(h.e, r.e))
  }

  function HashBlocks(h: Hash, m: seq<Byte>): Hash
    requires |m| % 64 == 0
    decreases |m|
  {
    if m == [] then h else HashBlocks(Compress(h, m[..64]), m[64..])
  }

  // Section 4: the byte 0x80, the fewest zero bytes that work, and the length
  // in bits as a 64-bit big-endian number.
  function ZeroCount(n: nat): (k: nat)
    ensures k < 64 && (n + 1 + k + 8) % 64 == 0
  {
    (119 - n % 64) % 64
  }

  function Zeros(k: nat): seq<Byte> {
    seq(k, i => 0)
  }

  function LengthField(bits: nat): (r: seq<Byte>)
    ensures |r| == 8
  {
    [ByteOf(bits / 0x100_0000_0000_0000), ByteOf(bits / 0x1_0000_0000_0000),
     ByteOf(bits / 0x100_0000_0000), ByteOf(bits / 0x1_0000_0000),
     ByteOf(bits / 0x100_0000), ByteOf(bits / 0x1_0000), ByteOf(bits / 0x100), ByteOf(bits)]
  }

  function ByteOf(n: nat): Byte {
    (n % 256) as Byte
  }

  function Pad(m: seq<Byte>): (p: seq<Byte>)
    ensures |p| % 64 == 0
  {
    m + [0x80] + Zeros(ZeroCount(|m|)) + LengthField(8 * |m|)
  }

  // The digest: the five words as twenty bytes, most significant byte first.
  function WordByte(w: Word, k: nat): bv8 {
    if k == 0 then (w.bits / 0x1000000) as bv8
    else if k == 1 then (w.bits / 0x10000 % 0x100) as bv8
    else if k == 2 then (w.bits / 0x100 % 0x100) as bv8
    else (w.bits % 0x100) as bv8
  }

  function WordBytes(w: Word): (r: seq<Byte>)
    ensures |r| == 4
  {
    [WordByte(w, 0) as Byte, WordByte(w, 1) as Byte, WordByte(w, 2) as Byte, WordByte(w, 3) as Byte]
  }

  function HashBytes(h: Hash): (r: seq<Byte>)
    ensures |r| == 20
  {
    WordBytes(h.a) + WordBytes(h.b) + WordBytes(h.c) + WordBytes(h.d) + WordBytes(h.e)
  }

  function Digest(m: seq<Byte>): seq<Byte> {
    HashBytes(HashBlocks(INITIAL_HASH, Pad(m)))
  }

  // Hashing a concatenation of whole blocks is hashing one after the other.
  lemma {:induction false} HashBlocksConcat(h: Hash, m: seq<Byte>, n: seq<Byte>)
    requires |m| % 64 == 0 && |n| % 64 == 0
    ensures HashBlocks(h, m + n) == HashBlocks(HashBlocks(h, m), n)
    decreases |m|
  {
    if m == [] {
      assert m + n == n;
    } else {
      assert (m + n)[..64] == m[..64] && (m + n)[64..] == m[64..] + n;
      HashBlocksConcat(Compress(h, m[..64]), m[64..], n);
    }
  }

  lemma HashOneMoreBlock(h: Hash, m: seq<Byte>, block: seq<Byte>)
    requires |m| % 64 == 0 && |block| == 64
    ensures HashBlocks(h, m + block) == Compress(HashBlocks(h, m), block)
  {
    HashBlocksConcat(h, m, block);
    assert block[..64] == block && block[64..] == [];
  }

  // Past the whole blocks of the message, padding always fills exactly one
  // block, or exactly two when fewer than nine bytes are left in the last one.
  lemma PaddingTakesOneOrTwoBlocks(m: seq<Byte>)
    ensures var rest := |m| % 64;
            |Pad(m)| == |m| - rest + (if rest > 55 then 128 else 64)
  {
    ZerosFillBlock(|m|);
    hide ZeroCount;
    hide LengthField;
  }

  lemma ZerosFillBlock(n: nat)
    ensures n % 64 + 9 + ZeroCount(n) == if n % 64 > 55 then 128 else 64
  {
  }

  // Padding can be undone: two messages that pad to the same blocks are the
  // same message, because the last nonzero byte before the length is the mark.
  lemma PadIsInjective(m: seq<Byte>, n: seq<Byte>)
    requires Pad(m) == Pad(n)
    ensures m == n
  {
    var p := Pad(m);
    MarkIsLast(m);
    MarkIsLast(n);
    assert |m| == |n|;
    assert m == p[..|m|] == n;
  }

  lemma MarkIsLast(m: seq<Byte>)
    ensures var p := Pad(m);
            |m| < |p| - 8 && p[|m|] == 0x80 && forall i :: |m| < i < |p| - 8 ==> p[i] == 0
  {
    var p := Pad(m);
    forall i | |m| < i < |p| - 8 ensures p[i] == 0 {
      assert p[i] == Zeros(ZeroCount(|m|))[i - |m| - 1];
    }
  }
}
