// The streaming SHA-1 of userland/shafile/sha1.c: a context that is fed pieces
// of a message and asked for the digest.  Every method is proved against the
// whole-message definitions of Sha1Spec.
module Sha1 {
  import opened Sha1Spec

  const SHA_SUCCESS := 0
  const SHA_NULL := 1
  const SHA_STATE_ERROR := 3
  const HASH_SIZE := 20

  type uint32 = x: int | 0 <= x < TWO_32

  // The part of m that fills whole blocks, and the bytes left over.
  function Whole(m: seq<Byte>): (w: seq<Byte>)
    ensures |w| % 64 == 0
  {
    m[..|m| - |m| % 64]
  }

  function Rest(m: seq<Byte>): seq<Byte> {
    m[|m| - |m| % 64..]
  }

  lemma NothingHashed(h: Hash)
    ensures HashBlocks(h, Whole([])) == h && Rest([]) == []
  {
    hide Compress;
  }

  class Sha1Context {
    const intermediateHash: array<Word>
    const messageBlock: array<Byte>
    var lengthLow: uint32
    var lengthHigh: uint32
    var messageBlockIndex: int
    var computed: int
    var corrupted: int

    // The message taken in since the last Reset.
    ghost var absorbed: seq<Byte>

    ghost predicate Shape()
      reads this
    {
      intermediateHash.Length == 5 && messageBlock.Length == 64
    }

    ghost function HashValue(): Hash
      requires Shape()
      reads this, intermediateHash
    {
      Hash(intermediateHash[0], intermediateHash[1], intermediateHash[2], intermediateHash[3], intermediateHash[4])
    }

    ghost function BitCount(): nat
      reads this
    {
      lengthHigh * TWO_32 + lengthLow
    }

    // The context in the middle of message m.
    ghost predicate Holds(m: seq<Byte>)
      reads this, intermediateHash, messageBlock
    {
      && Shape()
      && messageBlockIndex == |m| % 64
      && HashValue() == HashBlocks(INITIAL_HASH, Whole(m))
      && messageBlock[..messageBlockIndex] == Rest(m)
    }

    // What every call keeps once the context has been reset: while it is
    // neither computed nor corrupted it is in the middle of the absorbed
    // message, and once computed it holds the hash of the padded message.
    ghost predicate Valid()
      reads this, intermediateHash, messageBlock
    {
      && Shape()
      && (corrupted == 0 ==> |absorbed| < MAX_BYTES)
      && (corrupted == 0 && computed == 0 ==> Holds(absorbed) && BitCount() == 8 * |absorbed|)
      && (corrupted == 0 && computed != 0 ==> HashValue() == HashBlocks(INITIAL_HASH, Pad(absorbed)))
    }

    // Memory for a context; nothing is known about it before Reset.
    constructor ()
      ensures Shape() && fresh(intermediateHash) && fresh(messageBlock)
    {
      intermediateHash := new Word[5](_ => Word(0));
      messageBlock := new Byte[64];
    }

    method Reset() returns (err: int)
      requires Shape()
      modifies this, intermediateHash
      ensures err == SHA_SUCCESS
      ensures Valid() && computed == 0 && corrupted == 0 && absorbed == []
    {
      hide Compress;
      hide Pad;
      hide HashBlocks;
      hide Whole;
      hide Rest;
      NothingHashed(INITIAL_HASH);
      lengthLow := 0;
      lengthHigh := 0;
      messageBlockIndex := 0;

      intermediateHash[0] := Word(0x67452301);
      intermediateHash[1] := Word(0xEFCDAB89);
      intermediateHash[2] := Word(0x98BADCFE);
      intermediateHash[3] := Word(0x10325476);
      intermediateHash[4] := Word(0xC3D2E1F0);

      computed := 0;
      corrupted := 0;
      absorbed := [];
      err := SHA_SUCCESS;
    }

    // The first two loops of ProcessMessageBlock.
    method PrepareSchedule() returns (w: array<Word>)
      requires Shape()
      ensures fresh(w) && w.Length == 80
      ensures forall s :: 0 <= s < 80 ==> w[s] == Schedule(messageBlock[..], s)
    {
      hide Schedule;
      hide CircularShift1;
      hide RotateLeft1;
      hide BigEndianWord;
      hide LoadWord;
      hide Xor4;
      ghost var block := messageBlock[..];
      w := new Word[80](_ => Word(0));
      var t := 0;
      while t < 16
        invariant 0 <= t <= 16
        invariant forall s :: 0 <= s < t ==> w[s] == Schedule(block, s)
      {
        w[t] := LoadWord(messageBlock[t * 4], messageBlock[t * 4 + 1],
                         messageBlock[t * 4 + 2], messageBlock[t * 4 + 3]);
        FirstWords(block, t);
        t := t + 1;
      }
      while t < 80
        invariant 16 <= t <= 80
        invariant forall s :: 0 <= s < t ==> w[s] == Schedule(block, s)
      {
        w[t] := CircularShift1(Xor4(w[t - 3], w[t - 8], w[t - 14], w[t - 16]));
        LaterWords(block, t);
        t := t + 1;
      }
    }

    // The four round loops of ProcessMessageBlock.
    method RunRounds(w: array<Word>) returns (a: Word, b: Word, c: Word, d: Word, e: Word)
      requires Shape() && w.Length == 80
      requires forall s :: 0 <= s < 80 ==> w[s] == Schedule(messageBlock[..], s)
      ensures Hash(a, b, c, d, e) == Rounds(HashValue(), messageBlock[..], 80)
    {
      hide Schedule;
      ghost var block := messageBlock[..];
      ghost var h := HashValue();
      assert Rounds(h, block, 0) == h;
      hide Rounds;
      hide Temp;
      hide Add;
      hide Choose;
      hide F0;
      hide Parity;
      hide F1;
      hide Majority;
      hide F2;
      hide CircularShift5;
      hide RotateLeft5;
      hide CircularShift30;
      hide RotateLeft30;
      a, b, c := intermediateHash[0], intermediateHash[1], intermediateHash[2];
      d, e := intermediateHash[3], intermediateHash[4];

      var t := 0;
      while t < 20
        invariant 0 <= t <= 20
        invariant Hash(a, b, c, d, e) == Rounds(h, block, t)
      {
        var temp := Add(Add(Add(Add(CircularShift5(a), F0(b, c, d)), e), w[t]), Word(0x5A827999));
        TempInRange(t, a, b, c, d, e, w[t]);
        NextRound(h, block, t, a, b, c, d, e);
        e := d;
        d := c;
        c := CircularShift30(b);
        b := a;
        a := temp;
        t := t + 1;
      }
      while t < 40
        invariant 20 <= t <= 40
        invariant Hash(a, b, c, d, e) == Rounds(h, block, t)
      {
        var temp := Add(Add(Add(Add(CircularShift5(a), F1(b, c, d)), e), w[t]), Word(0x6ED9EBA1));
        TempInRange(t, a, b, c, d, e, w[t]);
        NextRound(h, block, t, a, b, c, d, e);
        e := d;
        d := c;
        c := CircularShift30(b);
        b := a;
        a := temp;
        t := t + 1;
      }
      while t < 60
        invariant 40 <= t <= 60
        invariant Hash(a, b, c, d, e) == Rounds(h, block, t)
      {
        var temp := Add(Add(Add(Add(CircularShift5(a), F2(b, c, d)), e), w[t]), Word(0x8F1BBCDC));
        TempInRange(t, a, b, c, d, e, w[t]);
        NextRound(h, block, t, a, b, c, d, e);
        e := d;
        d := c;
        c := CircularShift30(b);
        b := a;
        a := temp;
        t := t + 1;
      }
      while t < 80
        invariant 60 <= t <= 80
        invariant Hash(a, b, c, d, e) == Rounds(h, block, t)
      {
        var temp := Add(Add(Add(Add(CircularShift5(a), F1(b, c, d)), e), w[t]), Word(0xCA62C1D6));
        TempInRange(t, a, b, c, d, e, w[t]);
        NextRound(h, block, t, a, b, c, d, e);
        e := d;
        d := c;
        c := CircularShift30(b);
        b := a;
        a := temp;
        t := t + 1;
      }
    }

    method ProcessMessageBlock()
      requires Shape()
      modifies this`messageBlockIndex, intermediateHash
      ensures HashValue() == Compress(old(HashValue()), messageBlock[..])
      ensures messageBlockIndex == 0
    {
      hide Schedule;
      hide Rounds;
      hide Add;
      var w := PrepareSchedule();
      var a, b, c, d, e := RunRounds(w);
      intermediateHash[0] := Add(intermediateHash[0], a);
      intermediateHash[1] := Add(intermediateHash[1], b);
      intermediateHash[2] := Add(intermediateHash[2], c);
      intermediateHash[3] := Add(intermediateHash[3], d);
      intermediateHash[4] := Add(intermediateHash[4], e);
      messageBlockIndex := 0;
    }

    // length is a C unsigned.  A message that reaches 2^64 bits corrupts the
    // context, although the call that does it still reports success.
    method Input(message: array?<Byte>, length: uint32) returns (err: int)
      requires Valid()
      requires message != null ==> length <= message.Length
      requires message != messageBlock && message as object? != intermediateHash
      modifies this, intermediateHash, messageBlock
      ensures Valid()
      ensures err == if length == 0 then SHA_SUCCESS
                     else if message == null then SHA_NULL
                     else if old(computed) != 0 then SHA_STATE_ERROR
                     else old(corrupted)
      ensures computed == old(computed)
      ensures length == 0 || message == null ==>
                corrupted == old(corrupted) && absorbed == old(absorbed)
      ensures length != 0 && message != null && old(computed) != 0 ==>
                corrupted == SHA_STATE_ERROR
      ensures length != 0 && message != null && old(computed) == 0 && old(corrupted) != 0 ==>
                corrupted == old(corrupted)
      ensures length != 0 && message != null && old(computed) == 0 && old(corrupted) == 0 ==>
                && corrupted == (if |old(absorbed)| + length < MAX_BYTES then 0 else 1)
                && (corrupted == 0 ==> absorbed == old(absorbed) + old(message[..length]))
    {
      hide Compress;
      hide Pad;
      hide HashBlocks;
      if length == 0 {
        return SHA_SUCCESS;
      }
      if message == null {
        return SHA_NULL;
      }
      if computed != 0 {
        corrupted := SHA_STATE_ERROR;
        return SHA_STATE_ERROR;
      }
      if corrupted != 0 {
        return corrupted;
      }
      var i := 0;
      while i < length && corrupted == 0
        invariant 0 <= i <= length
        invariant computed == 0
        invariant absorbed == old(absorbed) + old(message[..i])
        invariant Shape()
        invariant forall k :: 0 <= k < length ==> message[k] == old(message[k])
        invariant corrupted == 0 ==> Holds(absorbed) && BitCount() == 8 * |absorbed| && |absorbed| < MAX_BYTES
        invariant corrupted != 0 ==> corrupted == 1 && |absorbed| == MAX_BYTES
      {
        TakeByte(message[i]);
        i := i + 1;
      }
      err := SHA_SUCCESS;
    }

    // One turn of Input's loop.
    method TakeByte(b: Byte)
      requires Holds(absorbed) && BitCount() == 8 * |absorbed| && |absorbed| < MAX_BYTES
      requires corrupted == 0
      modifies this, intermediateHash, messageBlock
      ensures absorbed == old(absorbed) + [b] && computed == old(computed)
      ensures Holds(absorbed)
      ensures corrupted == if |absorbed| < MAX_BYTES then 0 else 1
      ensures corrupted == 0 ==> BitCount() == 8 * |absorbed|
    {
      hide HashBlocks;
      hide Whole;
      hide Rest;
      StoreByte(b);
      CountByte();
      FinishBlock(absorbed, b);
      absorbed := absorbed + [b];
    }

    // Hashes the block once it is full.
    method FinishBlock(ghost m: seq<Byte>, b: Byte)
      requires Shape() && messageBlockIndex == |m| % 64 + 1
      requires HashValue() == HashBlocks(INITIAL_HASH, Whole(m))
      requires messageBlock[..messageBlockIndex] == Rest(m) + [b]
      modifies this`messageBlockIndex, intermediateHash
      ensures Holds(m + [b])
    {
      hide Compress;
      hide HashBlocks;
      hide Whole;
      hide Rest;
      OneMoreByte(m, b);
      if messageBlockIndex == 64 {
        HashOneMoreBlock(INITIAL_HASH, Whole(m), Rest(m) + [b]);
        assert messageBlock[..] == Rest(m) + [b];
        ProcessMessageBlock();
      }
    }

    method StoreByte(b: Byte)
      requires messageBlock.Length == 64 && 0 <= messageBlockIndex < 64
      modifies this`messageBlockIndex, messageBlock
      ensures messageBlockIndex == old(messageBlockIndex) + 1
      ensures messageBlock[..messageBlockIndex] == old(messageBlock[..messageBlockIndex]) + [b]
    {
      messageBlock[messageBlockIndex] := b;
      messageBlockIndex := messageBlockIndex + 1;
    }

    // Eight more bits, with the carry between the two halves of the count.
    method CountByte()
      requires BitCount() == 8 * |absorbed| && |absorbed| < MAX_BYTES && corrupted == 0
      modifies this`lengthLow, this`lengthHigh, this`corrupted
      ensures corrupted == if |absorbed| + 1 < MAX_BYTES then 0 else 1
      ensures corrupted == 0 ==> BitCount() == 8 * (|absorbed| + 1)
    {
      BitCountCarries(lengthHigh, lengthLow, |absorbed|);
      lengthLow := (lengthLow + 8) % TWO_32;
      if lengthLow == 0 {
        lengthHigh := (lengthHigh + 1) % TWO_32;
        if lengthHigh == 0 {
          corrupted := 1;
        }
      }
    }

    // The zero-filling loops of PadMessage.
    method FillZeros(limit: nat)
      requires Shape() && 0 <= messageBlockIndex <= limit <= 64
      modifies this`messageBlockIndex, messageBlock
      ensures messageBlockIndex == limit
      ensures messageBlock[..limit] == old(messageBlock[..messageBlockIndex]) + Zeros(limit - old(messageBlockIndex))
    {
      ghost var start, front := messageBlockIndex, messageBlock[..messageBlockIndex];
      while messageBlockIndex < limit
        invariant start <= messageBlockIndex <= limit
        invariant messageBlock[..messageBlockIndex] == front + Zeros(messageBlockIndex - start)
      {
        messageBlock[messageBlockIndex] := 0;
        messageBlockIndex := messageBlockIndex + 1;
      }
    }

    // The message length as the last eight bytes of the block.
    method StoreLength()
      requires Shape() && BitCount() == 8 * |absorbed|
      modifies messageBlock
      ensures messageBlock[..] == old(messageBlock[..56]) + LengthField(8 * |absorbed|)
    {
      hide ByteOf;
      hide LengthField;
      messageBlock[56] := ByteOf(lengthHigh / 0x1000000);
      messageBlock[57] := ByteOf(lengthHigh / 0x10000);
      messageBlock[58] := ByteOf(lengthHigh / 0x100);
      messageBlock[59] := ByteOf(lengthHigh);
      messageBlock[60] := ByteOf(lengthLow / 0x1000000);
      messageBlock[61] := ByteOf(lengthLow / 0x10000);
      messageBlock[62] := ByteOf(lengthLow / 0x100);
      messageBlock[63] := ByteOf(lengthLow);
      LengthFieldFromHalves(lengthHigh, lengthLow);
    }

    // Closes the message: one more block, or two when the mark and the length
    // do not both fit behind the bytes already waiting.
    method PadMessage()
      requires Holds(absorbed) && BitCount() == 8 * |absorbed|
      modifies this`messageBlockIndex, intermediateHash, messageBlock
      ensures HashValue() == HashBlocks(INITIAL_HASH, Pad(absorbed))
    {
      hide Compress;
      hide Pad;
      hide HashBlocks;
      hide LengthField;
      hide Zeros;
      hide Whole;
      hide Rest;
      ghost var rest, h := Rest(absorbed), HashValue();
      ghost var first: seq<Byte> := [];
      if messageBlockIndex > 55 {
        messageBlock[messageBlockIndex] := 0x80;
        messageBlockIndex := messageBlockIndex + 1;
        assert messageBlock[..messageBlockIndex] == rest + [0x80];
        FillZeros(64);
        first := messageBlock[..];
        assert first == messageBlock[..64];

        ProcessMessageBlock();

        assert messageBlock[..0] == [];
        FillZeros(56);
        assert messageBlock[..56] == Zeros(56);
      } else {
        messageBlock[messageBlockIndex] := 0x80;
        messageBlockIndex := messageBlockIndex + 1;
        assert messageBlock[..messageBlockIndex] == rest + [0x80];
        FillZeros(56);
      }
      ghost var front := messageBlock[..56];
      StoreLength();
      LastBlocks(absorbed, h, first, front);
      ProcessMessageBlock();
    }

    method ClearBlock()
      requires Shape()
      modifies messageBlock
    {
      for i := 0 to 64 {
        messageBlock[i] := 0;
      }
    }

    method WriteDigest(digest: array<Byte>)
      requires Shape() && digest.Length == HASH_SIZE
      requires digest as object != intermediateHash
      modifies digest
      ensures digest[..] == HashBytes(HashValue())
    {
      hide HashBytes;
      ghost var h := HashValue();
      for i := 0 to HASH_SIZE
        invariant HashValue() == h
        invariant forall k :: 0 <= k < i ==> digest[k] == HashBytes(h)[k]
      {
        digest[i] := ExtractByte(intermediateHash[i / 4], i % 4);
        DigestByte(h, i / 4, i % 4);
      }
    }

    method Result(digest: array?<Byte>) returns (err: int)
      requires Valid()
      requires digest != null ==> digest.Length == HASH_SIZE
      requires digest != messageBlock && digest as object? != intermediateHash
      modifies this, intermediateHash, messageBlock, digest
      ensures Valid()
      ensures err == if digest == null then SHA_NULL else old(corrupted)
      ensures corrupted == old(corrupted) && absorbed == old(absorbed)
      ensures err == SHA_SUCCESS ==> computed != 0 && digest != null && digest[..] == Digest(absorbed)
    {
      hide Compress;
      hide Pad;
      hide HashBlocks;
      hide HashBytes;
      if digest == null {
        return SHA_NULL;
      }
      if corrupted != 0 {
        return corrupted;
      }
      if computed == 0 {
        PadMessage();
        ClearBlock();
        lengthLow := 0;
        lengthHigh := 0;
        computed := 1;
      }
      WriteDigest(digest);
      err := SHA_SUCCESS;
    }
  }

  // The bit expressions of the program, each against its definition.
  function LoadWord(b0: Byte, b1: Byte, b2: Byte, b3: Byte): (r: Word)
    ensures r == BigEndianWord(b0, b1, b2, b3)
  {
    var (c0, c1, c2, c3) := (b0 as bv8, b1 as bv8, b2 as bv8, b3 as bv8);
    Word(((c0 as bv32) << 24) | ((c1 as bv32) << 16) | ((c2 as bv32) << 8) | (c3 as bv32))
  }

  function CircularShift1(x: Word): (r: Word)
    ensures r == RotateLeft1(x)
  {
    Word((x.bits << 1) | (x.bits >> 31))
  }

  function CircularShift5(x: Word): (r: Word)
    ensures r == RotateLeft5(x)
  {
    Word((x.bits << 5) | (x.bits >> 27))
  }

  function CircularShift30(x: Word): (r: Word)
    ensures r == RotateLeft30(x)
  {
    Word((x.bits << 30) | (x.bits >> 2))
  }

  function F0(b: Word, c: Word, d: Word): (r: Word)
    ensures r == Choose(b, c, d)
  {
    Word((b.bits & c.bits) | (!b.bits & d.bits))
  }

  function F1(b: Word, c: Word, d: Word): (r: Word)
    ensures r == Parity(b, c, d)
  {
    var x := b.bits ^ c.bits ^ d.bits;
    assert x == Parity(b, c, d).bits;
    Word(x)
  }

  function F2(b: Word, c: Word, d: Word): (r: Word)
    ensures r == Majority(b, c, d)
  {
    Word((b.bits & c.bits) | (b.bits & d.bits) | (c.bits & d.bits))
  }

  lemma FirstWords(block: seq<Byte>, t: nat)
    requires |block| == 64 && t < 16
    ensures Schedule(block, t) == BigEndianWord(block[4 * t], block[4 * t + 1], block[4 * t + 2], block[4 * t + 3])
  {
    hide BigEndianWord;
  }

  lemma LaterWords(block: seq<Byte>, t: nat)
    requires |block| == 64 && t >= 16
    ensures Schedule(block, t) ==
            RotateLeft1(Xor4(Schedule(block, t - 3), Schedule(block, t - 8),
                             Schedule(block, t - 14), Schedule(block, t - 16)))
  {
    hide RotateLeft1;
    hide Xor4;
  }

  lemma NextRound(h: Hash, block: seq<Byte>, t: nat, a: Word, b: Word, c: Word, d: Word, e: Word)
    requires |block| == 64 && Hash(a, b, c, d, e) == Rounds(h, block, t)
    ensures Hash(Temp(t, a, b, c, d, e, Schedule(block, t)), a, RotateLeft30(b), c, d) == Rounds(h, block, t + 1)
  {
    hide Schedule;
    hide Temp;
    hide RotateLeft30;
  }

  // Which logical function and constant round t uses.
  lemma TempInRange(t: nat, a: Word, b: Word, c: Word, d: Word, e: Word, w: Word)
    ensures var temp := Temp(t, a, b, c, d, e, w);
            if t < 20 then
              temp == Add(Add(Add(Add(RotateLeft5(a), Choose(b, c, d)), e), w), Word(0x5A827999))
            else if t < 40 then
              temp == Add(Add(Add(Add(RotateLeft5(a), Parity(b, c, d)), e), w), Word(0x6ED9EBA1))
            else if t < 60 then
              temp == Add(Add(Add(Add(RotateLeft5(a), Majority(b, c, d)), e), w), Word(0x8F1BBCDC))
            else
              temp == Add(Add(Add(Add(RotateLeft5(a), Parity(b, c, d)), e), w), Word(0xCA62C1D6))
  {
    hide RotateLeft5;
    hide Add;
    hide Choose;
    hide Parity;
    hide Majority;
  }

  function HashWord(h: Hash, i: nat): Word
    requires i < 5
  {
    if i == 0 then h.a else if i == 1 then h.b else if i == 2 then h.c else if i == 3 then h.d else h.e
  }

  // What the program's shift and truncation take out of a word.
  function ExtractByte(w: Word, k: nat): Byte
    requires k < 4
  {
    ShiftedOut(w, k) as Byte
  }

  function ShiftedOut(w: Word, k: nat): bv8
    requires k < 4
  {
    ((w.bits >> (8 * (3 - k))) & 0xFF) as bv8
  }

  // Byte k of word q, taken out by shifting, is that byte of the digest.
  lemma DigestByte(h: Hash, q: nat, k: nat)
    requires q < 5 && k < 4
    ensures ExtractByte(HashWord(h, q), k) == HashBytes(h)[4 * q + k]
  {
    hide ShiftedOut;
    hide WordByte;
    hide HashBytes;
    hide WordBytes;
    HashBytesIndex(h, q, k);
    WordBytesIndex(HashWord(h, q), k);
    ShiftedByte(HashWord(h, q), k);
  }

  lemma WordBytesIndex(w: Word, k: nat)
    requires k < 4
    ensures WordBytes(w)[k] == WordByte(w, k) as Byte
  {
    hide WordByte;
  }

  lemma HashBytesIndex(h: Hash, q: nat, k: nat)
    requires q < 5 && k < 4
    ensures HashBytes(h)[4 * q + k] == WordBytes(HashWord(h, q))[k]
  {
    hide WordBytes;
  }

  lemma ShiftedByte(w: Word, k: nat)
    requires k < 4
    ensures ShiftedOut(w, k) == WordByte(w, k)
  {
    if k == 0 {
      assert 8 * (3 - k) == 24;
    } else if k == 1 {
      assert 8 * (3 - k) == 16;
    } else if k == 2 {
      assert 8 * (3 - k) == 8;
    } else {
      assert 8 * (3 - k) == 0;
    }
  }

  // The 64-bit length, read off its two 32-bit halves.
  lemma LengthFieldFromHalves(high: uint32, low: uint32)
    ensures LengthField(high * TWO_32 + low) ==
            [ByteOf(high / 0x1000000), ByteOf(high / 0x10000), ByteOf(high / 0x100), ByteOf(high),
             ByteOf(low / 0x1000000), ByteOf(low / 0x10000), ByteOf(low / 0x100), ByteOf(low)]
  {
    var n := high * TWO_32 + low;
    HighQuotients(n);
    assert n / TWO_32 == high;
    LowQuotients(high, low);
    DropMultiple(high, low / 0x1000000);
    DropMultiple(0x100 * high, low / 0x10000);
    DropMultiple(0x10000 * high, low / 0x100);
    DropMultiple(0x1000000 * high, low);
  }

  lemma DropMultiple(k: int, x: int)
    ensures (256 * k + x) % 256 == x % 256
  {
  }

  lemma HighQuotients(n: nat)
    ensures n / 0x100_0000_0000_0000 == n / TWO_32 / 0x1000000
    ensures n / 0x1_0000_0000_0000 == n / TWO_32 / 0x10000
    ensures n / 0x100_0000_0000 == n / TWO_32 / 0x100
  {
  }

  lemma LowQuotients(high: uint32, low: uint32)
    ensures var n := high * TWO_32 + low;
            && n / 0x1000000 == 256 * high + low / 0x1000000
            && n / 0x10000 == 256 * (0x100 * high) + low / 0x10000
            && n / 0x100 == 256 * (0x10000 * high) + low / 0x100
            && n == 256 * (0x1000000 * high) + low
  {
    LowQuotient3(high, low);
    LowQuotient2(high, low);
    LowQuotient1(high, low);
  }

  lemma LowQuotient3(high: uint32, low: uint32)
    ensures (high * TWO_32 + low) / 0x1000000 == 256 * high + low / 0x1000000
  {
  }

  lemma LowQuotient2(high: uint32, low: uint32)
    ensures (high * TWO_32 + low) / 0x10000 == 256 * (0x100 * high) + low / 0x10000
  {
  }

  lemma LowQuotient1(high: uint32, low: uint32)
    ensures (high * TWO_32 + low) / 0x100 == 256 * (0x10000 * high) + low / 0x100
  {
  }

  // One more byte either joins the rest or completes a block.
  lemma OneMoreByte(m: seq<Byte>, b: Byte)
    ensures if |m| % 64 == 63
            then Whole(m + [b]) == Whole(m) + (Rest(m) + [b]) && Rest(m + [b]) == []
            else Whole(m + [b]) == Whole(m) && Rest(m + [b]) == Rest(m) + [b]
  {
  }

  // The carry from the low to the high half of the bit count.
  lemma BitCountCarries(high: uint32, low: uint32, n: nat)
    requires high * TWO_32 + low == 8 * n && n < MAX_BYTES
    ensures var low' := (low + 8) % TWO_32;
            var high' := if low' == 0 then (high + 1) % TWO_32 else high;
            && (low' == 0 && high' == 0 <==> n + 1 == MAX_BYTES)
            && (n + 1 < MAX_BYTES ==> high' * TWO_32 + low' == 8 * (n + 1))
  {
    assert low % 8 == 0;
  }

  // The blocks PadMessage feeds to the compression are the tail of Pad(m).
  lemma LastBlocks(m: seq<Byte>, h: Hash, first: seq<Byte>, front: seq<Byte>)
    requires h == HashBlocks(INITIAL_HASH, Whole(m))
    requires |front| == 56
    requires if |m| % 64 > 55
             then first == Rest(m) + [0x80] + Zeros(63 - |m| % 64) && |first| == 64 && front == Zeros(56)
             else first == [] && front == Rest(m) + [0x80] + Zeros(55 - |m| % 64)
    ensures var last := front + LengthField(8 * |m|);
            Compress(if first == [] then h else Compress(h, first), last) == HashBlocks(INITIAL_HASH, Pad(m))
  {
    hide Compress;
    hide LengthField;
    hide HashBlocks;
    var last := front + LengthField(8 * |m|);
    assert m == Whole(m) + Rest(m);
    if |m| % 64 > 55 {
      assert Pad(m) == Whole(m) + first + last;
      HashOneMoreBlock(INITIAL_HASH, Whole(m), first);
      HashOneMoreBlock(INITIAL_HASH, Whole(m) + first, last);
    } else {
      assert Pad(m) == Whole(m) + last;
      HashOneMoreBlock(INITIAL_HASH, Whole(m), last);
    }
  }

  function Flatten(pieces: seq<seq<Byte>>): seq<Byte> {
    if pieces == [] then [] else Flatten(pieces[..|pieces| - 1]) + pieces[|pieces| - 1]
  }

  lemma NoPieces(pieces: seq<seq<Byte>>)
    ensures Flatten(pieces[..0]) == []
  {
  }

  lemma OnePieceMore(pieces: seq<seq<Byte>>, i: nat)
    requires i < |pieces|
    ensures Flatten(pieces[..i + 1]) == Flatten(pieces[..i]) + pieces[i]
  {
    assert pieces[..i + 1][..i] == pieces[..i];
  }

  // However a message is cut into pieces, the digest is that of the whole
  // message, and asking twice gives the same answer.
  method DigestOfPieces(pieces: seq<seq<Byte>>) returns (err: int, digest: seq<Byte>, again: seq<Byte>)
    requires forall i :: 0 <= i < |pieces| ==> |pieces[i]| < TWO_32
    ensures err == if |Flatten(pieces)| < MAX_BYTES then SHA_SUCCESS else 1
    ensures err == SHA_SUCCESS ==> digest == again == Digest(Flatten(pieces))
  {
    hide Compress;
    hide Digest;
    hide Pad;
    hide HashBlocks;
    NoPieces(pieces);
    hide Flatten;
    var ctx := new Sha1Context();
    err := ctx.Reset();
    var i := 0;
    while i < |pieces|
      invariant 0 <= i <= |pieces|
      invariant ctx.Valid() && ctx.computed == 0
      invariant fresh(ctx) && fresh(ctx.intermediateHash) && fresh(ctx.messageBlock)
      invariant ctx.corrupted == if |Flatten(pieces[..i])| < MAX_BYTES then 0 else 1
      invariant ctx.corrupted == 0 ==> ctx.absorbed == Flatten(pieces[..i])
    {
      var piece := pieces[i];
      var buffer := new Byte[|piece|](k requires 0 <= k < |piece| => piece[k]);
      assert buffer[..] == piece;
      var _ := ctx.Input(buffer, |piece|);
      OnePieceMore(pieces, i);
      i := i + 1;
    }
    assert pieces[..i] == pieces;
    var out := new Byte[HASH_SIZE];
    err := ctx.Result(out);
    digest := out[..];
    if err == SHA_SUCCESS {
      err := ctx.Result(out);
    }
    again := out[..];
  }
}
