// The file-system reader of fs/kissfs.cpp and fs/filesystem.cpp, proved
// against KissSpec.
module KissFs {
  import opened Common
  import opened Blocks
  import opened KissSpec
  import opened HashTable

  const TABLE_SIZE: nat := 133

  // The cursor of inc/fs/kiss.h.
  class Reader {
    const mem: seq<byte>
    var read: nat

    constructor (mem: seq<byte>)
      ensures this.mem == mem && read == 0
    {
      this.mem := mem;
      read := 0;
    }

    method Word() returns (w: nat)
      modifies this
      ensures w == WordAt(mem, old(read)) && read == old(read) + 4
    {
      w := WordAt(mem, read);
      read := read + 4;
    }

    method Bytes(n: nat) returns (r: seq<byte>)
      modifies this
      ensures r == BytesAt(mem, old(read), n) && read == old(read) + n
    {
      r := BytesAt(mem, read, n);
      read := read + n;
    }

    method Reposition(offset: nat)
      modifies this
      ensures read == offset
    {
      read := offset;
    }
  }

  datatype Descriptor = Directory | File(inode: nat)

  // Names are compared and hashed up to 32 characters.
  function Truncated(name: seq<byte>): seq<byte> {
    name[..Min(|name|, NAME_LENGTH)]
  }

  class KissFS {
    const dentryIndexOfFilename: LinearProbingHashTable
    var dentries: seq<Dentry>
    var inodes: seq<Inode>
    var numDentries: nat
    var numInodes: nat
    var numTotalDataBlocks: nat
    var image: seq<byte>
    var numBlocks: nat

    function Value(): Fs
      reads this
    {
      Fs(dentries, inodes, numTotalDataBlocks, image)
    }

    ghost predicate Counted()
      reads this
    {
      numDentries == |dentries| && numInodes == |inodes| && numBlocks == |image| / BLOCK_SIZE
    }

    ghost predicate Valid()
      reads this, dentryIndexOfFilename, dentryIndexOfFilename.table
    {
      && Counted()
      && dentryIndexOfFilename.Valid() && HasRoom(dentryIndexOfFilename.table[..])
      && IndexIs(dentryIndexOfFilename.table[..], dentries)
    }

    // initFromMemoryAddress: reads the tables and indexes the names.
    constructor (image: seq<byte>)
      ensures Valid() && Value() == Parse(image)
    {
      var reader := new Reader(image);
      var numDentries := reader.Word();
      var numInodes := reader.Word();
      var numTotal := reader.Word();
      var _ := reader.Bytes(52);
      numDentries := if numDentries > MAX_FILES then MAX_FILES else numDentries;
      var dentries := ReadDentries(reader, numDentries);
      numInodes := if numInodes > MAX_FILES then MAX_FILES else numInodes;
      var inodes := ReadInodes(reader, numInodes);
      var index := MakeIndex(dentries);
      this.dentryIndexOfFilename := index;
      this.dentries := dentries;
      this.inodes := inodes;
      this.numDentries := numDentries;
      this.numInodes := numInodes;
      this.numTotalDataBlocks := numTotal;
      this.image := image;
      this.numBlocks := |image| / BLOCK_SIZE;
    }

    method Open(filename: seq<byte>) returns (fd: Option<Descriptor>)
      requires Valid()
      ensures fd == match FindDentry(dentries, Truncated(filename))
                    case None => None
                    case Some(i) =>
                      Some(if dentries[i].filetype == DIRECTORY then Directory else File(dentries[i].inode))
    {
      hide TableOk;
      var found := dentryIndexOfFilename.Get(Truncated(filename));
      if found.None? {
        assert forall i: nat :: !Holds(dentryIndexOfFilename.table[..], Truncated(filename), i);
        return None;
      }
      assert Holds(dentryIndexOfFilename.table[..], Truncated(filename), found.value);
      var d := dentries[found.value];
      fd := Some(if d.filetype == DIRECTORY then Directory else File(d.inode));
    }

    // Copies a piece of the image; false when the block is out of range.
    method ReadBlock(datablockId: nat, offset: nat, buf: array<byte>, at: nat, len: nat) returns (ok: bool)
      requires Counted() && at + len <= buf.Length
      modifies buf
      ensures ok == (RawBlock(Value(), datablockId) < |image| / BLOCK_SIZE)
      ensures forall k :: 0 <= k < buf.Length ==>
                buf[k] == if ok && at <= k < at + len
                          then ByteAt(image, RawBlock(Value(), datablockId) * BLOCK_SIZE + offset + (k - at))
                          else old(buf[k])
    {
      var rawBlockId := datablockId + numInodes + 1;
      if rawBlockId >= numBlocks {
        return false;
      }
      var from := rawBlockId * BLOCK_SIZE + offset;
      forall k | 0 <= k < len {
        buf[at + k] := ByteAt(image, from + k);
      }
      ok := true;
    }

    // One turn of the loop of readData, `done` being the positions copied.
    method CopyPiece(datablockId: nat, realOffset: nat, buf: array<byte>, read: nat, left: nat, bytesRemaining: nat,
                     ghost done: seq<nat>)
      returns (ok: bool, len: nat)
      requires Counted() && read == |done| && read + left <= buf.Length && Copied(buf[..], image, done)
      modifies buf
      ensures ok == Readable(Value(), datablockId)
      ensures ok ==>
                && len == PieceLength(left, bytesRemaining)
                && Copied(buf[..], image, Joined(Value(), datablockId, realOffset, len, done))
                && forall k :: read + len <= k < buf.Length ==> buf[k] == old(buf[k])
    {
      hide RawBlock;
      len := 0;
      if datablockId > numTotalDataBlocks {
        return false, len;
      }
      len := left;
      if len > bytesRemaining {
        len := bytesRemaining;
      }
      if len > BLOCK_SIZE {
        len := BLOCK_SIZE;
      }
      ok := ReadBlock(datablockId, realOffset, buf, read, len);
    }

    // The number of bytes read, or -1.
    method ReadData(inode: nat, offset: nat, buf: array<byte>, length: nat) returns (n: int)
      requires Counted() && inode != numInodes && offset < WORD && length <= buf.Length
      modifies buf
      ensures match KissSpec.ReadData(Value(), inode, offset, length)
              case None => n == -1
              case Some(data) => n == |data| <= length && data == buf[..][..n]
                                 && forall k :: n <= k < buf.Length ==> buf[k] == old(buf[k])
    {
      hide RawBlock;
      hide Readable;
      hide Positions;
      hide PieceLength;
      hide Fetch;
      hide Span;
      hide From;
      hide Copied;
      hide Joined;
      hide KissSpec.ReadData;
      if inode > numInodes {
        NoSuchInode(Value(), inode, offset, length);
        return -1;
      }
      var read: nat := 0;
      var blocks := inodes[inode].datablocks;
      var i := offset / BLOCK_SIZE;
      var bytesRemaining: nat := Remaining(inodes[inode].size, offset);
      var realOffset: nat := offset % BLOCK_SIZE;
      var left: nat := length;
      ghost var fs, done: seq<nat> := Value(), [];
      ghost var goal := ReadPositions(fs, inode, offset, length);
      assert goal == Positions(fs, From(blocks, i), realOffset, left, bytesRemaining);
      NothingBefore(goal);
      NothingCopied(buf[..], image);
      hide ReadPositions;
      hide Remaining;
      hide After;
      while i < |blocks|
        invariant read == |done| && read + left == length
        invariant goal == After(done, Positions(fs, From(blocks, i), realOffset, left, bytesRemaining))
        invariant Copied(buf[..], image, done)
        invariant forall k :: read <= k < buf.Length ==> buf[k] == old(buf[k])
        decreases |blocks| - i
      {
        NextPiece(fs, blocks, i, realOffset, left, bytesRemaining, done);
        var ok, len := CopyPiece(blocks[i], realOffset, buf, read, left, bytesRemaining, done);
        if !ok {
          Outcome(fs, inode, offset, length, goal);
          return -1;
        }
        done := Joined(fs, blocks[i], realOffset, len, done);
        left := left - len;
        bytesRemaining := bytesRemaining - len;
        read := read + len;
        realOffset := 0;
        i := i + 1;
        if left == 0 {
          break;
        }
      }
      NoBlocks(fs, blocks, i, realOffset, left, bytesRemaining, done);
      Outcome(fs, inode, offset, length, goal);
      AllCopied(buf[..], image, done);
      n := read;
    }
  }

  lemma NoSuchInode(fs: Fs, inode: nat, offset: nat, length: nat)
    requires inode > |fs.inodes|
    ensures KissSpec.ReadData(fs, inode, offset, length) == None
  {
  }

  lemma Outcome(fs: Fs, inode: nat, offset: nat, length: nat, goal: Option<seq<nat>>)
    requires inode < |fs.inodes| && goal == ReadPositions(fs, inode, offset, length)
    ensures goal.None? ==> KissSpec.ReadData(fs, inode, offset, length) == None
    ensures goal.Some? ==> KissSpec.ReadData(fs, inode, offset, length) == Some(Fetch(fs.image, goal.value))
  {
  }

  // An open file of fs/filesystem.cpp: reading moves the offset on.
  class OpenFile {
    const fs: KissFS
    const inode: nat
    var offset: nat

    constructor (fs: KissFS, inode: nat)
      ensures this.fs == fs && this.inode == inode && offset == 0
    {
      this.fs := fs;
      this.inode := inode;
      offset := 0;
    }

    method Read(buf: array<byte>, nbytes: nat) returns (n: int)
      requires fs.Counted() && inode != fs.numInodes && offset < WORD && nbytes <= buf.Length
      modifies this, buf
      ensures match KissSpec.ReadData(fs.Value(), inode, old(offset), nbytes)
              case None => n == -1 && offset == old(offset)
              case Some(data) => n == |data| <= nbytes && buf[..n] == data && offset == (old(offset) + |data|) % WORD
    {
      hide KissSpec.ReadData;
      n := fs.ReadData(inode, offset, buf, nbytes);
      if n == -1 {
        return;
      }
      offset := (offset + n) % WORD;
    }
  }

  // The first bytes of a buffer are those at the positions.
  ghost predicate Copied(buf: seq<byte>, img: seq<byte>, at: seq<nat>) {
    |at| <= |buf| && forall k :: 0 <= k < |at| ==> buf[k] == ByteAt(img, at[k])
  }

  lemma NothingCopied(buf: seq<byte>, img: seq<byte>)
    ensures Copied(buf, img, [])
  {
  }

  lemma AllCopied(buf: seq<byte>, img: seq<byte>, at: seq<nat>)
    requires Copied(buf, img, at)
    ensures buf[..|at|] == Fetch(img, at)
  {
  }

  lemma NoBlocks(fs: Fs, blocks: seq<nat>, i: nat, offset: nat, left: nat, remaining: nat, done: seq<nat>)
    ensures i >= |blocks| ==> After(done, Positions(fs, From(blocks, i), offset, left, remaining)) == Some(done)
  {
    assert done + [] == done;
  }

  // The positions copied after n more bytes of a block.
  function Joined(fs: Fs, id: nat, offset: nat, n: nat, done: seq<nat>): (r: seq<nat>)
    ensures |r| == |done| + n
  {
    done + Span(RawBlock(fs, id) * BLOCK_SIZE + offset, n)
  }

  lemma NextPiece(fs: Fs, blocks: seq<nat>, i: nat, offset: nat, left: nat, remaining: nat, done: seq<nat>)
    requires i < |blocks|
    ensures var n := PieceLength(left, remaining);
            var joined := Joined(fs, blocks[i], offset, n, done);
            && n <= left && n <= remaining
            && After(done, Positions(fs, From(blocks, i), offset, left, remaining)) ==
               if !Readable(fs, blocks[i]) then None
               else if left == n then Some(joined)
               else After(joined, Positions(fs, From(blocks, i + 1), 0, left - n, remaining - n))
  {
    hide RawBlock;
    hide Readable;
    assert From(blocks, i)[1..] == From(blocks, i + 1);
    var n := PieceLength(left, remaining);
    var here := Span(RawBlock(fs, blocks[i]) * BLOCK_SIZE + offset, n);
    if n < left {
      var more := Positions(fs, From(blocks, i + 1), 0, left - n, remaining - n);
      assert more.Some? ==> done + (here + more.value) == (done + here) + more.value;
    }
  }

  function After(done: seq<nat>, more: Option<seq<nat>>): Option<seq<nat>> {
    match more
    case None => None
    case Some(s) => Some(done + s)
  }

  lemma NothingBefore(more: Option<seq<nat>>)
    ensures After([], more) == more
  {
    assert more.Some? ==> [] + more.value == more.value;
  }

  // The table holds, for each name, the entry it opens.
  ghost predicate IndexIs(t: seq<Entry>, ds: seq<Dentry>) {
    forall name, i: nat :: Holds(t, name, i) <==> FindDentry(ds, name) == Some(i)
  }

  method ReadDentries(reader: Reader, n: nat) returns (ds: seq<Dentry>)
    requires reader.read == 64
    modifies reader
    ensures ds == seq(n, i requires 0 <= i => DentryAt(reader.mem, i))
  {
    hide WordAt;
    hide CString;
    ds := [];
    for i := 0 to n
      invariant reader.read == 64 + 64 * i
      invariant |ds| == i && forall k :: 0 <= k < i ==> ds[k] == DentryAt(reader.mem, k)
    {
      var name := reader.Bytes(NAME_LENGTH);
      var filetype := reader.Word();
      var inode := reader.Word();
      var _ := reader.Bytes(24);
      ds := ds + [Dentry(CString(name), filetype, inode)];
    }
  }

  method ReadInodes(reader: Reader, n: nat) returns (nodes: seq<Inode>)
    modifies reader
    ensures nodes == seq(n, i requires 0 <= i => InodeAt(reader.mem, i))
  {
    hide WordAt;
    nodes := [];
    for i := 0 to n
      invariant |nodes| == i && forall k :: 0 <= k < i ==> nodes[k] == InodeAt(reader.mem, k)
    {
      reader.Reposition(BLOCK_SIZE * (i + 1));
      var size := reader.Word();
      var words := ReadWords(reader, CeilBlocks(size));
      nodes := nodes + [Inode(size, words)];
    }
  }

  method ReadWords(reader: Reader, n: nat) returns (words: seq<nat>)
    modifies reader
    ensures words == WordsAt(reader.mem, old(reader.read), n)
  {
    hide WordAt;
    words := [];
    ghost var at := reader.read;
    for j := 0 to n
      invariant reader.read == at + 4 * j
      invariant |words| == j && forall k :: 0 <= k < j ==> words[k] == WordAt(reader.mem, at + 4 * k)
    {
      var w := reader.Word();
      words := words + [w];
    }
  }

  method MakeIndex(ds: seq<Dentry>) returns (index: LinearProbingHashTable)
    requires |ds| <= MAX_FILES
    ensures fresh(index) && fresh(index.table) && index.Valid()
    ensures HasRoom(index.table[..]) && IndexIs(index.table[..], ds)
  {
    hide TableOk;
    hide Holds;
    hide Used;
    index := new LinearProbingHashTable(TABLE_SIZE);
    for i := 0 to |ds|
      invariant index.Valid() && fresh(index.table) && index.table.Length == TABLE_SIZE
      invariant Used(index.table[..]) <= i && IndexIs(index.table[..], ds[..i])
    {
      RoomWhenFewAreUsed(index.table[..]);
      assert ds[..i + 1][..i] == ds[..i];
      index.Put(ds[i].filename, i);
    }
    RoomWhenFewAreUsed(index.table[..]);
    assert ds[..|ds|] == ds;
  }
}
