// Bytes, little-endian words and 4 KB blocks of a file-system image.
module Blocks {
  import opened Common

  const BLOCK_SIZE: nat := 4096

  newtype byte = b: int | 0 <= b < 256

  // Byte i of a 32-bit word, lowest first.
  function WordByte(w: nat, i: nat): byte
    requires i < 4
  {
    (if i == 0 then w % 256 else if i == 1 then w / 256 % 256 else if i == 2 then w / 0x1_0000 % 256
     else w / 0x100_0000 % 256) as byte
  }

  // Memory past the end of an image is taken to be zero.
  function ByteAt(img: seq<byte>, at: nat): byte {
    if at < |img| then img[at] else 0
  }

  function WordAt(img: seq<byte>, at: nat): (w: nat)
    ensures w < WORD
  {
    ByteAt(img, at) as nat + 256 * ByteAt(img, at + 1) as nat
    + 0x1_0000 * ByteAt(img, at + 2) as nat + 0x100_0000 * ByteAt(img, at + 3) as nat
  }

  // Reading a word back where its four bytes were put.
  lemma WordIsRead(img: seq<byte>, at: nat, w: nat)
    requires w < WORD && forall i: nat :: i < 4 ==> ByteAt(img, at + i) == WordByte(w, i)
    ensures WordAt(img, at) == w
  {
    assert ByteAt(img, at + 0) == WordByte(w, 0) && ByteAt(img, at + 1) == WordByte(w, 1);
    assert ByteAt(img, at + 2) == WordByte(w, 2) && ByteAt(img, at + 3) == WordByte(w, 3);
    SplitWord(w);
  }

  lemma SplitWord(w: nat)
    requires w < WORD
    ensures w == w % 256 + 256 * (w / 256 % 256) + 0x1_0000 * (w / 0x1_0000 % 256) + 0x100_0000 * (w / 0x100_0000 % 256)
  {
    var a, b, c := w / 256, w / 0x1_0000, w / 0x100_0000;
    assert b == a / 256;
    assert c == b / 256;
    assert c % 256 == c;
  }

  function CeilBlocks(n: nat): (k: nat)
    ensures k * BLOCK_SIZE >= n && (k > 0 ==> (k - 1) * BLOCK_SIZE < n)
  {
    if n % BLOCK_SIZE > 0 then n / BLOCK_SIZE + 1 else n / BLOCK_SIZE
  }

  // ----- Blocks of a file being written -----

  predicate HasBlock(img: seq<byte>, b: nat) {
    (b + 1) * BLOCK_SIZE <= |img|
  }

  function BlockAt(img: seq<byte>, b: nat): (r: seq<byte>)
    requires HasBlock(img, b)
    ensures |r| == BLOCK_SIZE
  {
    img[b * BLOCK_SIZE..(b + 1) * BLOCK_SIZE]
  }

  lemma AppendKeepsBlock(img: seq<byte>, more: seq<byte>, c: nat)
    requires HasBlock(img, c)
    ensures HasBlock(img + more, c) && BlockAt(img + more, c) == BlockAt(img, c)
  {
  }

  lemma ReplaceKeepsBlock(img: seq<byte>, b: nat, block: seq<byte>, c: nat)
    requires |block| == BLOCK_SIZE && HasBlock(img, b) && HasBlock(img, c)
    ensures var r := img[..b * BLOCK_SIZE] + block + img[(b + 1) * BLOCK_SIZE..];
            HasBlock(r, c) && BlockAt(r, c) == if c == b then block else BlockAt(img, c)
  {
  }

  // lseek and write: the file grows to hold the block, and a gap reads as zero.
  function WriteBlock(img: seq<byte>, b: nat, block: seq<byte>): seq<byte>
    requires |block| == BLOCK_SIZE && |img| % BLOCK_SIZE == 0
  {
    if HasBlock(img, b) then img[..b * BLOCK_SIZE] + block + img[(b + 1) * BLOCK_SIZE..]
    else img + seq(b * BLOCK_SIZE - |img|, _ => 0 as byte) + block
  }

  // Writing a block leaves every other block as it was.
  lemma WriteBlockIsLocal(img: seq<byte>, b: nat, block: seq<byte>)
    requires |block| == BLOCK_SIZE && |img| % BLOCK_SIZE == 0
    ensures var r := WriteBlock(img, b, block);
            && |r| % BLOCK_SIZE == 0 && |r| >= |img|
            && HasBlock(r, b) && BlockAt(r, b) == block
            && forall c: nat {:trigger BlockAt(r, c)} {:trigger BlockAt(img, c)} :: c != b && HasBlock(img, c) ==>
                 HasBlock(r, c) && BlockAt(r, c) == BlockAt(img, c)
  {
    var r := WriteBlock(img, b, block);
    if HasBlock(img, b) {
      ReplaceKeepsBlock(img, b, block, b);
      forall c: nat | c != b && HasBlock(img, c) ensures HasBlock(r, c) && BlockAt(r, c) == BlockAt(img, c) {
        ReplaceKeepsBlock(img, b, block, c);
      }
    } else {
      var gap := seq(b * BLOCK_SIZE - |img|, _ => 0 as byte);
      assert r[b * BLOCK_SIZE..] == block;
      forall c: nat | HasBlock(img, c) ensures HasBlock(r, c) && BlockAt(r, c) == BlockAt(img, c) {
        AppendKeepsBlock(img, gap, c);
        AppendKeepsBlock(img + gap, block, c);
      }
    }
  }

  // A byte of a block, seen from the whole image.
  lemma ByteOfBlock(img: seq<byte>, b: nat, r: nat)
    requires HasBlock(img, b) && r < BLOCK_SIZE
    ensures b * BLOCK_SIZE + r < |img|
    ensures img[b * BLOCK_SIZE + r] == BlockAt(img, b)[r] == ByteAt(img, b * BLOCK_SIZE + r)
  {
  }
}
