// What KissFS (fs/kissfs.cpp) makes of an image, as values: the parsed tables,
// and the bytes that a read returns.
module KissSpec {
  import opened Common
  import opened Blocks

  const MAX_FILES: nat := 64
  const NAME_LENGTH: nat := 32
  const DIRECTORY: nat := 1
  const NORMAL_FILE: nat := 2

  datatype Dentry = Dentry(filename: seq<byte>, filetype: nat, inode: nat)

  datatype Inode = Inode(size: nat, datablocks: seq<nat>)

  datatype Fs = Fs(dentries: seq<Dentry>, inodes: seq<Inode>, numTotalDataBlocks: nat, image: seq<byte>)

  // ----- Parsing -----

  function BytesAt(img: seq<byte>, at: nat, n: nat): (r: seq<byte>)
    ensures |r| == n && forall k :: 0 <= k < n ==> r[k] == ByteAt(img, at + k)
  {
    seq(n, k requires 0 <= k < n => ByteAt(img, at + k))
  }

  // The string that a character array holds.
  function CString(s: seq<byte>): (r: seq<byte>)
    ensures |r| <= |s| && r == s[..|r|] && (|r| < |s| ==> s[|r|] == 0)
    ensures forall k :: 0 <= k < |r| ==> r[k] != 0
  {
    if s == [] || s[0] == 0 then [] else [s[0]] + CString(s[1..])
  }

  function DentryAt(img: seq<byte>, i: nat): Dentry {
    var at := 64 + 64 * i;
    Dentry(CString(BytesAt(img, at, NAME_LENGTH)), WordAt(img, at + 32), WordAt(img, at + 36))
  }

  function WordsAt(img: seq<byte>, at: nat, n: nat): (r: seq<nat>)
    ensures |r| == n && forall j :: 0 <= j < n ==> r[j] == WordAt(img, at + 4 * j)
  {
    seq(n, j requires 0 <= j < n => WordAt(img, at + 4 * j))
  }

  function InodeAt(img: seq<byte>, i: nat): Inode {
    var at := BLOCK_SIZE * (i + 1);
    var size := WordAt(img, at);
    Inode(size, WordsAt(img, at + 4, CeilBlocks(size)))
  }

  function Parse(img: seq<byte>): (fs: Fs)
    ensures |fs.dentries| == Min(WordAt(img, 0), MAX_FILES) && |fs.inodes| == Min(WordAt(img, 4), MAX_FILES)
  {
    Fs(seq(Min(WordAt(img, 0), MAX_FILES), i requires 0 <= i => DentryAt(img, i)),
       seq(Min(WordAt(img, 4), MAX_FILES), i requires 0 <= i => InodeAt(img, i)),
       WordAt(img, 8), img)
  }

  // The entry a name opens: the last one put into the table with it.
  function FindDentry(ds: seq<Dentry>, name: seq<byte>): (r: Option<nat>)
    ensures r.Some? ==> r.value < |ds| && ds[r.value].filename == name
    ensures r.None? ==> forall i :: 0 <= i < |ds| ==> ds[i].filename != name
    ensures r.Some? ==> forall i :: r.value < i < |ds| ==> ds[i].filename != name
  {
    if ds == [] then None
    else if ds[|ds| - 1].filename == name then Some(|ds| - 1)
    else FindDentry(ds[..|ds| - 1], name)
  }

  // ----- Reading -----

  function RawBlock(fs: Fs, id: nat): nat {
    id + |fs.inodes| + 1
  }

  predicate Readable(fs: Fs, id: nat) {
    id <= fs.numTotalDataBlocks && RawBlock(fs, id) < |fs.image| / BLOCK_SIZE
  }

  function Span(at: nat, n: nat): (r: seq<nat>)
    ensures |r| == n && forall k :: 0 <= k < n ==> r[k] == at + k
  {
    seq(n, k requires 0 <= k < n => at + k)
  }

  // How much one turn of the loop copies.  It is held to a block, but not to
  // what is left of the block behind the offset.
  function PieceLength(length: nat, remaining: nat): nat {
    Min(Min(length, remaining), BLOCK_SIZE)
  }

  // The image positions that readData copies, block by block; None when a
  // block is out of range.
  function Positions(fs: Fs, blocks: seq<nat>, offset: nat, length: nat, remaining: nat): Option<seq<nat>> {
    if blocks == [] then Some([])
    else if !Readable(fs, blocks[0]) then None
    else
      var n := PieceLength(length, remaining);
      var here := Span(RawBlock(fs, blocks[0]) * BLOCK_SIZE + offset, n);
      if length == n then Some(here)
      else
        match Positions(fs, blocks[1..], 0, length - n, remaining - n)
        case None => None
        case Some(more) => Some(here + more)
  }

  // bytesRemaining is a 32-bit difference.
  function Remaining(size: nat, offset: nat): nat {
    (size + WORD - offset % WORD) % WORD
  }

  function From(blocks: seq<nat>, start: nat): seq<nat> {
    if start <= |blocks| then blocks[start..] else []
  }

  function ReadPositions(fs: Fs, inode: nat, offset: nat, length: nat): Option<seq<nat>>
    requires inode < |fs.inodes|
  {
    var node := fs.inodes[inode];
    Positions(fs, From(node.datablocks, offset / BLOCK_SIZE), offset % BLOCK_SIZE, length, Remaining(node.size, offset))
  }

  function Fetch(img: seq<byte>, at: seq<nat>): (r: seq<byte>)
    ensures |r| == |at| && forall k :: 0 <= k < |at| ==> r[k] == ByteAt(img, at[k])
  {
    seq(|at|, k requires 0 <= k < |at| => ByteAt(img, at[k]))
  }

  // Inode numbers behind the table are refused.
  function ReadData(fs: Fs, inode: nat, offset: nat, length: nat): Option<seq<byte>>
    requires inode != |fs.inodes|
  {
    if inode > |fs.inodes| then None else
    match ReadPositions(fs, inode, offset, length)
    case None => None
    case Some(at) => Some(Fetch(fs.image, at))
  }

  // ----- What a read should return -----

  // A file whose blocks are all there.
  ghost predicate Whole(fs: Fs, inode: nat) {
    && inode < |fs.inodes| && fs.inodes[inode].size < WORD
    && |fs.inodes[inode].datablocks| == CeilBlocks(fs.inodes[inode].size)
    && forall i :: 0 <= i < |fs.inodes[inode].datablocks| ==> Readable(fs, fs.inodes[inode].datablocks[i])
  }

  // Where byte k of the file is in the image.
  function Place(fs: Fs, blocks: seq<nat>, k: nat): nat
    requires k < |blocks| * BLOCK_SIZE
  {
    RawBlock(fs, blocks[k / BLOCK_SIZE]) * BLOCK_SIZE + k % BLOCK_SIZE
  }

  function Places(fs: Fs, blocks: seq<nat>, offset: nat, n: nat): (r: seq<nat>)
    requires offset + n <= |blocks| * BLOCK_SIZE
    ensures |r| == n && forall k: nat :: k < n ==> r[k] == Place(fs, blocks, offset + k)
  {
    if n == 0 then [] else Places(fs, blocks, offset, n - 1) + [Place(fs, blocks, offset + n - 1)]
  }

  function FileBytes(fs: Fs, inode: nat): (r: seq<byte>)
    requires inode < |fs.inodes| && fs.inodes[inode].size <= |fs.inodes[inode].datablocks| * BLOCK_SIZE
    ensures |r| == fs.inodes[inode].size
  {
    Fetch(fs.image, Places(fs, fs.inodes[inode].datablocks, 0, fs.inodes[inode].size))
  }

  // From the start of a block on, the loop copies the file's bytes in order.
  lemma {:induction false} AlignedRead(fs: Fs, blocks: seq<nat>, length: nat, remaining: nat)
    requires forall i :: 0 <= i < |blocks| ==> Readable(fs, blocks[i])
    requires remaining <= |blocks| * BLOCK_SIZE
    ensures Positions(fs, blocks, 0, length, remaining) == Some(Places(fs, blocks, 0, Min(length, remaining)))
  {
    hide Places;
    hide Readable;
    hide RawBlock;
    var n := PieceLength(length, remaining);
    if blocks != [] {
      var here := Span(RawBlock(fs, blocks[0]) * BLOCK_SIZE + 0, n);
      if length == n {
        assert here == Places(fs, blocks, 0, n);
      } else {
        AlignedRead(fs, blocks[1..], length - n, remaining - n);
        var more := Places(fs, blocks[1..], 0, Min(length - n, remaining - n));
        PlacesNext(fs, blocks, n, Min(length - n, remaining - n));
      }
    } else {
      assert Places(fs, blocks, 0, 0) == [];
    }
  }

  lemma PlacesNext(fs: Fs, blocks: seq<nat>, n: nat, m: nat)
    requires blocks != [] && n <= BLOCK_SIZE && m <= (|blocks| - 1) * BLOCK_SIZE && (n < BLOCK_SIZE ==> m == 0)
    ensures Places(fs, blocks, 0, n + m) ==
            Span(RawBlock(fs, blocks[0]) * BLOCK_SIZE, n) + Places(fs, blocks[1..], 0, m)
  {
    hide Places;
    hide RawBlock;
    forall k | 0 <= k < n + m
      ensures Place(fs, blocks, k) ==
              if k < n then RawBlock(fs, blocks[0]) * BLOCK_SIZE + k else Place(fs, blocks[1..], k - n)
    {
    }
  }

  lemma RemainingIsRest(size: nat, offset: nat)
    requires offset <= size < WORD
    ensures Remaining(size, offset) == size - offset
  {
  }

  // Positions counted from a later block.
  lemma PlacesFrom(fs: Fs, blocks: seq<nat>, at: nat, r: nat, n: nat)
    requires r < BLOCK_SIZE && at <= |blocks| && at * BLOCK_SIZE + r + n <= |blocks| * BLOCK_SIZE
    ensures Places(fs, blocks, at * BLOCK_SIZE + r, n) == Places(fs, blocks[at..], r, n)
  {
    hide Places;
    hide RawBlock;
    var here, there := Places(fs, blocks, at * BLOCK_SIZE + r, n), Places(fs, blocks[at..], r, n);
    forall k | 0 <= k < n ensures here[k] == there[k] {
      assert (at * BLOCK_SIZE + r + k) / BLOCK_SIZE == at + (r + k) / BLOCK_SIZE;
    }
  }

  // What a read inside a block copies: a piece that may run over the block's
  // end, then the file from the second block on.
  function Pieces(fs: Fs, blocks: seq<nat>, r: nat, length: nat, remaining: nat): seq<nat>
    requires r < BLOCK_SIZE && blocks != [] && r + remaining <= |blocks| * BLOCK_SIZE
  {
    var n := PieceLength(length, remaining);
    Span(RawBlock(fs, blocks[0]) * BLOCK_SIZE + r, n)
    + if n == length then [] else Places(fs, blocks[1..], 0, Min(length - n, remaining - n))
  }

  lemma PiecesAreCopied(fs: Fs, blocks: seq<nat>, r: nat, length: nat, remaining: nat)
    requires r < BLOCK_SIZE && blocks != [] && r + remaining <= |blocks| * BLOCK_SIZE
    requires forall i :: 0 <= i < |blocks| ==> Readable(fs, blocks[i])
    ensures Positions(fs, blocks, r, length, remaining) == Some(Pieces(fs, blocks, r, length, remaining))
  {
    hide Places;
    hide Readable;
    hide RawBlock;
    var n := PieceLength(length, remaining);
    if n < length {
      AlignedRead(fs, blocks[1..], length - n, remaining - n);
    } else {
      var here := Span(RawBlock(fs, blocks[0]) * BLOCK_SIZE + r, n);
      assert here + [] == here;
    }
  }

  lemma PiecesAreRight(fs: Fs, blocks: seq<nat>, r: nat, length: nat, remaining: nat)
    requires 0 < r < BLOCK_SIZE && blocks != [] && r + remaining <= |blocks| * BLOCK_SIZE
    ensures var n := Min(length, remaining);
            Pieces(fs, blocks, r, length, remaining) == Places(fs, blocks, r, n) <==>
              r + n <= BLOCK_SIZE || (n <= BLOCK_SIZE && blocks[1] == blocks[0] + 1)
  {
    hide Places;
    var n := Min(length, remaining);
    var pieces, places := Pieces(fs, blocks, r, length, remaining), Places(fs, blocks, r, n);
    if n <= BLOCK_SIZE {
      ShortPieces(fs, blocks, r, length, remaining);
      if r + n > BLOCK_SIZE && blocks[1] != blocks[0] + 1 {
        assert places[BLOCK_SIZE - r] != pieces[BLOCK_SIZE - r];
      }
    } else {
      assert places[BLOCK_SIZE] == RawBlock(fs, blocks[1]) * BLOCK_SIZE + r;
      assert pieces[BLOCK_SIZE] == Place(fs, blocks[1..], 0);
    }
  }

  lemma ShortPieces(fs: Fs, blocks: seq<nat>, r: nat, length: nat, remaining: nat)
    requires r < BLOCK_SIZE && blocks != [] && r + remaining <= |blocks| * BLOCK_SIZE
    requires Min(length, remaining) <= BLOCK_SIZE
    ensures Pieces(fs, blocks, r, length, remaining) ==
            Span(RawBlock(fs, blocks[0]) * BLOCK_SIZE + r, Min(length, remaining))
  {
    hide Places;
    hide RawBlock;
  }

  // A read returns the slice of the file at the offset if and only if it
  // starts a block, stays inside one, or runs into a second block that happens
  // to follow the first in the image.
  lemma ReadIsExactSlice(fs: Fs, inode: nat, offset: nat, length: nat)
    requires Whole(fs, inode) && offset <= fs.inodes[inode].size
    ensures var node, at := fs.inodes[inode], offset / BLOCK_SIZE;
            var n, r := Min(length, node.size - offset), offset % BLOCK_SIZE;
            ReadPositions(fs, inode, offset, length) == Some(Places(fs, node.datablocks, offset, n)) <==>
              r == 0 || r + n <= BLOCK_SIZE
              || (n <= BLOCK_SIZE && node.datablocks[at + 1] == node.datablocks[at] + 1)
  {
    hide Readable;
    hide RawBlock;
    hide Places;
    hide Positions;
    hide Pieces;
    var node, at := fs.inodes[inode], offset / BLOCK_SIZE;
    RemainingIsRest(node.size, offset);
    hide Remaining;
    var blocks := From(node.datablocks, at);
    var n, r := Min(length, node.size - offset), offset % BLOCK_SIZE;
    PlacesFrom(fs, node.datablocks, at, r, n);
    if r == 0 {
      AlignedRead(fs, blocks, length, node.size - offset);
    } else {
      PiecesAreCopied(fs, blocks, r, length, node.size - offset);
      PiecesAreRight(fs, blocks, r, length, node.size - offset);
    }
  }

  // Past the end of the file the 32-bit difference wraps: a read gives nothing
  // only when it starts behind the last block, not between the end of the file
  // and the end of that block.
  lemma ReadPastEnd(fs: Fs, inode: nat, offset: nat, length: nat)
    requires Whole(fs, inode) && fs.inodes[inode].size < offset < WORD
    ensures var node := fs.inodes[inode];
            ReadPositions(fs, inode, offset, length) == Some([]) <==>
              length == 0 || offset / BLOCK_SIZE >= |node.datablocks|
  {
    var node, at := fs.inodes[inode], offset / BLOCK_SIZE;
    if at < |node.datablocks| {
      RemainingWraps(node.size, offset);
      hide Readable;
      hide Remaining;
      var blocks := From(node.datablocks, at);
      assert |blocks| == 1 && blocks[1..] == [];
    }
  }

  lemma RemainingWraps(size: nat, offset: nat)
    requires size < offset < WORD && offset / BLOCK_SIZE < CeilBlocks(size)
    ensures Remaining(size, offset) > BLOCK_SIZE && offset / BLOCK_SIZE == CeilBlocks(size) - 1
  {
  }

  // ----- Reading a whole file in chunks -----

  // What `count` reads of `chunk` bytes each return, one after the other, the
  // offset moving on by what was read.
  datatype Session = Session(data: seq<byte>, offset: nat)

  function ReadChunks(fs: Fs, inode: nat, offset: nat, chunk: nat, count: nat): Option<Session>
    requires inode != |fs.inodes|
  {
    if count == 0 then Some(Session([], offset))
    else
      match ReadChunks(fs, inode, offset, chunk, count - 1)
      case None => None
      case Some(s) =>
        match ReadData(fs, inode, s.offset, chunk)
        case None => None
        case Some(more) => Some(Session(s.data + more, s.offset + |more|))
  }

  // A chunk that divides a block, or is whole blocks, never straddles.
  lemma ChunkStaysInside(offset: nat, chunk: nat, count: nat)
    requires chunk > 0 && (BLOCK_SIZE % chunk == 0 || chunk % BLOCK_SIZE == 0) && offset == count * chunk
    ensures offset % BLOCK_SIZE == 0 || offset % BLOCK_SIZE + chunk <= BLOCK_SIZE
  {
    if chunk % BLOCK_SIZE == 0 {
      var q := chunk / BLOCK_SIZE;
      assert offset == count * q * BLOCK_SIZE;
    } else {
      var q := BLOCK_SIZE / chunk;
      assert BLOCK_SIZE == q * chunk;
      var a, r := offset / BLOCK_SIZE, offset % BLOCK_SIZE;
      assert r == (count - a * q) * chunk;
      RoomForOneMore(count - a * q, q, chunk);
    }
  }

  lemma RoomForOneMore(n: int, q: nat, chunk: nat)
    requires chunk > 0 && 0 <= n * chunk < q * chunk
    ensures n * chunk + chunk <= q * chunk
  {
    if n >= q {
      Distributes(q, n - q, chunk);
      Nonnegative(n - q, chunk);
    } else {
      Distributes(n + 1, q - n - 1, chunk);
      Distributes(n, 1, chunk);
      Nonnegative(q - n - 1, chunk);
    }
  }

  lemma Distributes(a: int, b: int, c: int)
    ensures (a + b) * c == a * c + b * c
  {
  }

  lemma Nonnegative(a: nat, b: nat)
    ensures a * b >= 0
  {
  }

  lemma SlicesJoin(fs: Fs, inode: nat, offset: nat, n: nat)
    requires Whole(fs, inode) && offset + n <= fs.inodes[inode].size
    ensures FileBytes(fs, inode)[..offset] + Fetch(fs.image, Places(fs, fs.inodes[inode].datablocks, offset, n))
            == FileBytes(fs, inode)[..offset + n]
  {
    hide Places;
    hide Place;
    var piece := Fetch(fs.image, Places(fs, fs.inodes[inode].datablocks, offset, n));
    forall k | 0 <= k < n ensures FileBytes(fs, inode)[offset + k] == piece[k] {
    }
  }

  lemma ReadOn(fs: Fs, inode: nat, offset: nat, chunk: nat)
    requires Whole(fs, inode) && offset <= fs.inodes[inode].size
    requires offset == fs.inodes[inode].size || offset % BLOCK_SIZE == 0 || offset % BLOCK_SIZE + chunk <= BLOCK_SIZE
    ensures var n := Min(chunk, fs.inodes[inode].size - offset);
            ReadData(fs, inode, offset, chunk) ==
            Some(Fetch(fs.image, Places(fs, fs.inodes[inode].datablocks, offset, n)))
  {
    hide ReadPositions;
    hide Places;
    ReadIsExactSlice(fs, inode, offset, chunk);
  }

  lemma NextCount(count: nat, chunk: nat, size: nat)
    requires count > 0
    ensures var done := Min((count - 1) * chunk, size);
            Min(count * chunk, size) == done + Min(chunk, size - done)
  {
    Distributes(count - 1, 1, chunk);
    Nonnegative(count - 1, chunk);
  }

  // Reading on and on with any chunk that divides the block size gives the
  // file's bytes in order, up to its end, and then nothing.
  lemma {:induction false} ChunksGiveWholeFile(fs: Fs, inode: nat, chunk: nat, count: nat)
    requires Whole(fs, inode)
    requires chunk > 0 && (BLOCK_SIZE % chunk == 0 || chunk % BLOCK_SIZE == 0)
    ensures var n := Min(count * chunk, fs.inodes[inode].size);
            ReadChunks(fs, inode, 0, chunk, count) == Some(Session(FileBytes(fs, inode)[..n], n))
  {
    hide ReadData;
    hide Places;
    hide Readable;
    hide FileBytes;
    if count > 0 {
      var size := fs.inodes[inode].size;
      ChunksGiveWholeFile(fs, inode, chunk, count - 1);
      var done := Min((count - 1) * chunk, size);
      NextCount(count, chunk, size);
      DoneSoFar(count - 1, chunk, size);
      ReadOn(fs, inode, done, chunk);
      SlicesJoin(fs, inode, done, Min(chunk, size - done));
    }
  }

  lemma DoneSoFar(count: nat, chunk: nat, size: nat)
    requires chunk > 0 && (BLOCK_SIZE % chunk == 0 || chunk % BLOCK_SIZE == 0)
    ensures var done := Min(count * chunk, size);
            && done <= size && Min(chunk, size - done) <= size - done
            && (done == size || done % BLOCK_SIZE == 0 || done % BLOCK_SIZE + chunk <= BLOCK_SIZE)
  {
    if count * chunk < size {
      Nonnegative(count, chunk);
      ChunkStaysInside(count * chunk, chunk, count);
    }
  }
}
