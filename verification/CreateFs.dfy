// The program createfs.c, which lays files out in an image: the boot block,
// the inode blocks and the data blocks, each written in place.
module CreateFs {
  import opened Common
  import opened Blocks
  import opened KissSpec

  const MAX_FILES_IN_BOOT_BLOCK: nat := 62
  const MAX_FILE_SIZE: nat := 0x3F_F000
  const UNPLACED: nat := 0xFFFF_FFFF
  const DOT: byte := 46

  datatype Mode = Regular | CharDevice | Other

  // What the directory listing and stat give for one name.
  datatype Source = Source(name: seq<byte>, mode: Mode, data: seq<byte>)

  function Filetype(mode: Mode): nat {
    if mode == CharDevice then 0 else NORMAL_FILE
  }

  predicate Accepts(src: Source) {
    src.mode != Other && |src.data| <= MAX_FILE_SIZE
  }

  // The files that get into the image: in order, and 62 at most.
  function Accepted(sources: seq<Source>): (r: seq<Source>)
    ensures |r| <= MAX_FILES_IN_BOOT_BLOCK && forall i :: 0 <= i < |r| ==> Accepts(r[i])
  {
    if sources == [] then []
    else
      var front, last := Accepted(sources[..|sources| - 1]), sources[|sources| - 1];
      if Accepts(last) && |front| < MAX_FILES_IN_BOOT_BLOCK then front + [last] else front
  }

  // Names keep 31 characters.
  function ShortName(name: seq<byte>): seq<byte> {
    name[..Min(|name|, NAME_LENGTH - 1)]
  }

  ghost predicate NoNul(s: seq<byte>) {
    forall k :: 0 <= k < |s| ==> s[k] != 0
  }

  // ----- Words in a buffer -----

  method PutWord(a: array<byte>, at: nat, w: nat)
    requires at + 4 <= a.Length && w < WORD
    modifies a
    ensures WordAt(a[..], at) == w
    ensures forall k :: 0 <= k < a.Length && !(at <= k < at + 4) ==> a[k] == old(a[k])
  {
    a[at] := WordByte(w, 0);
    a[at + 1] := WordByte(w, 1);
    a[at + 2] := WordByte(w, 2);
    a[at + 3] := WordByte(w, 3);
    WordIsRead(a[..], at, w);
  }

  lemma SameWord(b: seq<byte>, c: seq<byte>, at: nat)
    requires forall k: nat :: at <= k < at + 4 ==> ByteAt(b, k) == ByteAt(c, k)
    ensures WordAt(b, at) == WordAt(c, at)
  {
  }

  // An entry of the boot block depends on its 64 bytes only.
  lemma SameDentry(b: seq<byte>, c: seq<byte>, i: nat)
    requires forall k: nat :: 64 + 64 * i <= k < 128 + 64 * i ==> ByteAt(b, k) == ByteAt(c, k)
    ensures DentryAt(b, i) == DentryAt(c, i)
  {
    var at := 64 + 64 * i;
    SameWord(b, c, at + 32);
    SameWord(b, c, at + 36);
    hide WordAt;
    assert BytesAt(b, at, NAME_LENGTH) == BytesAt(c, at, NAME_LENGTH);
  }

  lemma {:induction false} PaddedName(name: seq<byte>, bytes: seq<byte>)
    requires NoNul(name) && |name| < |bytes| && name <= bytes && bytes[|name|] == 0
    ensures CString(bytes) == name
  {
    if name != [] {
      PaddedName(name[1..], bytes[1..]);
    }
  }

  // ----- One file -----

  // The buffer kept for a file until it is written: its blocks, and where they
  // will go.
  datatype FileBuffer = FileBuffer(size: nat, blocks: seq<seq<byte>>, dentry: nat, inode: nat, ids: seq<nat>)

  ghost predicate HoldsData(blocks: seq<seq<byte>>, data: seq<byte>) {
    && |blocks| == CeilBlocks(|data|)
    && (forall j :: 0 <= j < |blocks| ==> |blocks[j]| == BLOCK_SIZE)
    && (forall k :: 0 <= k < |data| ==> blocks[k / BLOCK_SIZE][k % BLOCK_SIZE] == data[k])
  }

  // Reads a file block by block.  Behind its end the last block has whatever
  // was in memory.
  method ReadBlocks(data: seq<byte>, memory: seq<byte>) returns (blocks: seq<seq<byte>>)
    requires |memory| == BLOCK_SIZE
    ensures HoldsData(blocks, data)
  {
    blocks := [];
    var n := CeilBlocks(|data|);
    for i := 0 to n
      invariant |blocks| == i && forall j :: 0 <= j < i ==> |blocks[j]| == BLOCK_SIZE
      invariant forall k :: 0 <= k < Min(i * BLOCK_SIZE, |data|) ==> blocks[k / BLOCK_SIZE][k % BLOCK_SIZE] == data[k]
    {
      var piece := data[i * BLOCK_SIZE..Min((i + 1) * BLOCK_SIZE, |data|)];
      blocks := blocks + [piece + memory[|piece|..]];
    }
  }

  // The first block of the buffer: the size, then the numbers of the blocks.
  method InodeBlock(file: FileBuffer) returns (block: seq<byte>)
    requires file.size < WORD && |file.ids| < 1024 && forall j :: 0 <= j < |file.ids| ==> file.ids[j] < WORD
    ensures |block| == BLOCK_SIZE && WordAt(block, 0) == file.size
    ensures forall j :: 0 <= j < |file.ids| ==> WordAt(block, 4 + 4 * j) == file.ids[j]
  {
    hide WordAt;
    var a := new byte[BLOCK_SIZE](_ => 0);
    PutWord(a, 0, file.size);
    for j := 0 to |file.ids|
      invariant WordAt(a[..], 0) == file.size
      invariant forall i :: 0 <= i < j ==> WordAt(a[..], 4 + 4 * i) == file.ids[i]
    {
      ghost var was := a[..];
      PutWord(a, 4 + 4 * j, file.ids[j]);
      SameWord(was, a[..], 0);
      forall i | 0 <= i < j ensures WordAt(a[..], 4 + 4 * i) == file.ids[i] {
        SameWord(was, a[..], 4 + 4 * i);
      }
    }
    block := a[..];
  }

  // ----- The map of free blocks -----

  // rand(), as the numbers it is going to give.
  class Random {
    const rolls: seq<nat>
    var next: nat

    // No numbers are left.
    predicate Spent()
      reads this
    {
      next >= |rolls|
    }

    constructor (rolls: seq<nat>)
      ensures next == 0
    {
      this.rolls := rolls;
      next := 0;
    }

    method Roll() returns (r: Option<nat>)
      modifies this
      ensures r == if old(next) < |rolls| then Some(rolls[old(next)]) else None
      ensures next == old(next) + 1
    {
      r := if next < |rolls| then Some(rolls[next]) else None;
      next := next + 1;
    }
  }

  // One flag for the boot block, one for each inode, one for each data block;
  // twice as many of both as needed.
  class FreeMap {
    const numInodes: nat
    const numDataBlocks: nat
    const taken: array<bool>

    ghost predicate Valid() {
      taken.Length == numInodes + numDataBlocks + 1
    }

    constructor (files: nat, blocks: nat)
      ensures Valid() && fresh(taken) && numInodes == 2 * files && numDataBlocks == 2 * blocks
      ensures forall i :: 0 < i < taken.Length ==> !taken[i]
    {
      numInodes := 2 * files;
      numDataBlocks := 2 * blocks;
      taken := new bool[2 * files + 2 * blocks + 1](i => i == 0);
    }

    // Draws until a free block among the n behind `base` turns up, and takes it.
    method Draw(base: nat, n: nat, random: Random) returns (v: Option<nat>)
      requires Valid() && n > 0 && base + n <= taken.Length
      modifies taken, random
      ensures v.Some? ==> v.value < n && !old(taken[base + v.value])
                          && taken[..] == old(taken[..])[base + v.value := true]
      // It is the first number that hits a free block.
      ensures v.Some? ==> old(random.next) < random.next <= |random.rolls|
                          && v.value == random.rolls[random.next - 1] % n
                          && forall i :: old(random.next) <= i < random.next - 1 ==>
                               old(taken[base + random.rolls[i] % n])
      ensures v.None? ==> taken[..] == old(taken[..]) && random.Spent()
                          && forall i :: old(random.next) <= i < |random.rolls| ==> taken[base + random.rolls[i] % n]
    {
      while random.next < |random.rolls|
        invariant taken[..] == old(taken[..]) && old(random.next) <= random.next
        invariant forall i :: old(random.next) <= i < random.next && i < |random.rolls| ==>
                    taken[base + random.rolls[i] % n]
        decreases |random.rolls| - random.next
        modifies random, taken
      {
        var roll := random.Roll();
        var at := roll.value % n;
        if !taken[base + at] {
          taken[base + at] := true;
          return Some(at);
        }
      }
      v := None;
    }

    method GetInodeBlock(random: Random) returns (v: Option<nat>)
      requires Valid() && numInodes > 0
      modifies taken, random
      ensures v.Some? ==> v.value < numInodes && !old(taken[1 + v.value])
                          && taken[..] == old(taken[..])[1 + v.value := true]
      ensures v.None? ==> taken[..] == old(taken[..]) && random.Spent()
                          && forall i :: old(random.next) <= i < |random.rolls| ==>
                               taken[1 + random.rolls[i] % numInodes]
    {
      v := Draw(1, numInodes, random);
    }

    method GetDataBlock(random: Random) returns (v: Option<nat>)
      requires Valid() && numDataBlocks > 0
      modifies taken, random
      ensures v.Some? ==> v.value < numDataBlocks && !old(taken[1 + numInodes + v.value])
                          && taken[..] == old(taken[..])[1 + numInodes + v.value := true]
      ensures v.None? ==> taken[..] == old(taken[..]) && random.Spent()
                          && forall i :: old(random.next) <= i < |random.rolls| ==>
                               taken[1 + numInodes + random.rolls[i] % numDataBlocks]
    {
      v := Draw(1 + numInodes, numDataBlocks, random);
    }
  }

  // ----- The boot block -----

  // The entry of a name, in 64 bytes of its own.
  method CreateDentry(bblock: array<byte>, slot: nat, name: seq<byte>, mode: Mode) returns (ok: bool)
    requires bblock.Length == BLOCK_SIZE && slot < 63 && NoNul(name)
    modifies bblock
    ensures ok == (mode != Other)
    ensures ok ==> DentryAt(bblock[..], slot) == Dentry(ShortName(name), Filetype(mode), UNPLACED)
    ensures forall k :: 0 <= k < BLOCK_SIZE && !(64 + 64 * slot <= k < 128 + 64 * slot) ==> bblock[k] == old(bblock[k])
  {
    hide WordAt;
    hide CString;
    var at := 64 + 64 * slot;
    forall k | at <= k < at + 64 {
      bblock[k] := 0;
    }
    if mode == Other {
      return false;
    }
    CopyName(bblock, at, name);
    label Named:
    PutWord(bblock, at + 32, Filetype(mode));
    ghost var typed := bblock[..];
    PutWord(bblock, at + 36, UNPLACED);
    SameWord(typed, bblock[..], at + 32);
    assert BytesAt(bblock[..], at, NAME_LENGTH) == BytesAt(old@Named(bblock[..]), at, NAME_LENGTH);
    ok := true;
  }

  // strncpy of 31 characters, and a null behind them.
  method CopyName(bblock: array<byte>, at: nat, name: seq<byte>)
    requires at + 64 <= bblock.Length && NoNul(name)
    requires forall k :: at <= k < at + 64 ==> bblock[k] == 0
    modifies bblock
    ensures CString(BytesAt(bblock[..], at, NAME_LENGTH)) == ShortName(name)
    ensures forall k :: 0 <= k < bblock.Length && !(at <= k < at + 32) ==> bblock[k] == old(bblock[k])
  {
    for k := 0 to NAME_LENGTH - 1
      invariant forall i :: 0 <= i < Min(k, |name|) ==> bblock[at + i] == name[i]
      invariant forall i :: at + Min(k, |name|) <= i < at + 64 ==> bblock[i] == 0
      invariant forall i :: 0 <= i < bblock.Length && !(at <= i < at + 32) ==> bblock[i] == old(bblock[i])
    {
      bblock[at + k] := if k < |name| then name[k] else 0;
    }
    bblock[at + 31] := 0;
    var bytes := BytesAt(bblock[..], at, NAME_LENGTH);
    var short := ShortName(name);
    assert short == bytes[..|short|];
    assert bytes[|short|] == bblock[at + |short|];
    PaddedName(short, bytes);
  }

  // The boot block lists these files, each with its name, type and inode, and
  // the buffers hold their data.
  ghost predicate Lists(b: seq<byte>, files: seq<FileBuffer>, sources: seq<Source>) {
    && |b| == BLOCK_SIZE && |files| == |sources| <= MAX_FILES_IN_BOOT_BLOCK
    && WordAt(b, 0) == |files| + 1 && DentryAt(b, 0) == Dentry([DOT], DIRECTORY, 0)
    && (forall f: nat :: f < |files| ==> ListsFile(b, f, files[f], sources[f]))
  }

  ghost predicate ListsFile(b: seq<byte>, f: nat, file: FileBuffer, src: Source) {
    && DentryAt(b, f + 1) == Dentry(ShortName(src.name), Filetype(src.mode), file.inode)
    && file.dentry == f + 1 && file.size == |src.data| <= MAX_FILE_SIZE && HoldsData(file.blocks, src.data)
  }

  function TotalBlocks(files: seq<FileBuffer>): nat {
    if files == [] then 0 else TotalBlocks(files[..|files| - 1]) + |files[|files| - 1].blocks|
  }

  lemma LowByte(b: seq<byte>, n: nat)
    requires |b| > 3 && WordAt(b, 0) == n < 256
    ensures b[0] as nat == n
  {
  }

  // Changing bytes outside the entries in use keeps the list.
  lemma SameList(b: seq<byte>, c: seq<byte>, files: seq<FileBuffer>, sources: seq<Source>)
    requires Lists(b, files, sources) && |c| == BLOCK_SIZE
    requires forall k :: (0 <= k < 4 || 64 <= k < 128 + 64 * |files|) ==> c[k] == b[k]
    ensures Lists(c, files, sources)
  {
    hide DentryAt;
    hide WordAt;
    hide HoldsData;
    SameWord(b, c, 0);
    SameDentry(b, c, 0);
    forall f: nat | f < |files| ensures ListsFile(c, f, files[f], sources[f]) {
      assert ListsFile(b, f, files[f], sources[f]);
      SameDentry(b, c, f + 1);
    }
  }

  // Where the files were put: inodes in range and all different, data blocks
  // too.
  ghost predicate Placed(files: seq<FileBuffer>, numInodes: nat, numData: nat) {
    && (forall f: nat :: f < |files| ==> files[f].inode < numInodes && |files[f].ids| == |files[f].blocks|)
    && (forall f: nat, j: nat :: f < |files| && j < |files[f].ids| ==> files[f].ids[j] < numData)
    && (forall f, g :: 0 <= f < g < |files| ==> files[f].inode != files[g].inode)
    && IdsApart(files)
  }

  ghost predicate IdsApart(files: seq<FileBuffer>) {
    forall f: nat, j: nat, g: nat, k: nat {:trigger files[f].ids[j], files[g].ids[k]} ::
      f < |files| && j < |files[f].ids| && g < |files| && k < |files[g].ids| && files[f].ids[j] == files[g].ids[k]
      ==> f == g && j == k
  }

  ghost predicate NoIds(files: seq<FileBuffer>) {
    forall f :: 0 <= f < |files| ==> files[f].ids == []
  }

  class ImageWriter {
    const bblock: array<byte>
    var files: seq<FileBuffer>

    // An empty boot block, with the entry for the directory itself.
    constructor ()
      ensures fresh(bblock) && files == [] && Lists(bblock[..], files, [])
      ensures WordAt(bblock[..], 4) == 0 && WordAt(bblock[..], 8) == 0
    {
      hide WordAt;
      bblock := new byte[BLOCK_SIZE](_ => 0);
      files := [];
      new;
      ghost var zero := bblock[..];
      ZeroWords(zero);
      bblock[64] := DOT;
      PutWord(bblock, 96, DIRECTORY);
      ghost var b1 := bblock[..];
      PutWord(bblock, 100, 0);
      ghost var b2 := bblock[..];
      SameWord(b1, b2, 96);
      PutWord(bblock, 0, 1);
      SameWord(b2, bblock[..], 96);
      SameWord(b2, bblock[..], 100);
      SameWord(zero, bblock[..], 4);
      SameWord(zero, bblock[..], 8);
      PaddedName([DOT], BytesAt(bblock[..], 64, NAME_LENGTH));
    }

    // One turn of the first loop: the file is taken in, or skipped.
    method AddFile(src: Source, memory: seq<byte>, ghost sources: seq<Source>) returns (ok: bool)
      requires Lists(bblock[..], files, sources) && |sources| < MAX_FILES_IN_BOOT_BLOCK
      requires WordAt(bblock[..], 4) == |files| && WordAt(bblock[..], 8) == TotalBlocks(files)
      requires NoNul(src.name) && |memory| == BLOCK_SIZE && TotalBlocks(files) + 1024 < WORD
      requires NoIds(files)
      modifies this`files, bblock
      ensures ok == Accepts(src) && NoIds(files)
      ensures Lists(bblock[..], files, if ok then sources + [src] else sources)
      ensures WordAt(bblock[..], 4) == |files| && WordAt(bblock[..], 8) == TotalBlocks(files)
      ensures TotalBlocks(files) <= old(TotalBlocks(files)) + 1023
    {
      hide WordAt;
      hide DentryAt;
      hide HoldsData;
      hide TotalBlocks;
      ghost var b0 := bblock[..];
      LowByte(b0, |files| + 1);
      var slot := bblock[0] as nat;
      ok := CreateDentry(bblock, slot, src.name, src.mode);
      ghost var b1 := bblock[..];
      SameList(b0, b1, files, sources);
      SameWord(b0, b1, 4);
      SameWord(b0, b1, 8);
      if !ok {
        return;
      }
      if |src.data| > MAX_FILE_SIZE {
        return false;
      }
      var blocks := ReadBlocks(src.data, memory);
      BlockCount(blocks, src.data);
      var file := FileBuffer(|src.data|, blocks, slot, UNPLACED, []);
      PutWord(bblock, 0, slot + 1);
      ghost var b2 := bblock[..];
      SameWord(b1, b2, 4);
      SameWord(b1, b2, 8);
      PutWord(bblock, 4, WordAt(bblock[..], 4) + 1);
      ghost var b3 := bblock[..];
      SameWord(b2, b3, 0);
      SameWord(b2, b3, 8);
      PutWord(bblock, 8, WordAt(bblock[..], 8) + |blocks|);
      SameWord(b3, bblock[..], 0);
      SameWord(b3, bblock[..], 4);
      OneMoreFile(b1, bblock[..], files, sources, file, src);
      files := files + [file];
    }

    // The first loop: as long as there are names, and entries left.
    method AddFiles(listing: seq<Source>, memory: seq<byte>)
      requires Lists(bblock[..], files, []) && files == []
      requires WordAt(bblock[..], 4) == 0 && WordAt(bblock[..], 8) == 0
      requires |memory| == BLOCK_SIZE && forall src :: src in listing ==> NoNul(src.name)
      modifies this`files, bblock
      ensures Lists(bblock[..], files, Accepted(listing)) && NoIds(files)
      ensures WordAt(bblock[..], 4) == |files| && WordAt(bblock[..], 8) == TotalBlocks(files)
    {
      hide WordAt;
      hide ListsFile;
      hide Accepts;
      hide DentryAt;
      hide TotalBlocks;
      NoneYet(listing);
      hide Accepted;
      var i := 0;
      while i < |listing| && WordAt(bblock[..], 0) <= 62
        invariant i <= |listing| && NoIds(files) && Lists(bblock[..], files, Accepted(listing[..i]))
        invariant WordAt(bblock[..], 4) == |files| && WordAt(bblock[..], 8) == TotalBlocks(files)
      {
        AcceptedNext(listing, i);
        TotalBound(bblock[..], files, Accepted(listing[..i]));
        var _ := AddFile(listing[i], memory, Accepted(listing[..i]));
        i := i + 1;
      }
      AcceptedRest(listing, i);
    }

    // Draws an inode for a file and puts it into the file's entry.
    method PlaceInode(f: nat, free: FreeMap, random: Random, ghost sources: seq<Source>) returns (ok: bool)
      requires Lists(bblock[..], files, sources) && free.Valid() && f < |files| && 0 < free.numInodes < WORD
      requires InodesPlaced(files, free.numInodes, f, free.taken[..])
      requires free.taken as object != bblock
      modifies this`files, bblock, free.taken, random
      ensures |files| == old(|files|) && Lists(bblock[..], files, sources)
      ensures WordAt(bblock[..], 4) == old(WordAt(bblock[..], 4)) && WordAt(bblock[..], 8) == old(WordAt(bblock[..], 8))
      ensures files == old(files)[f := old(files)[f].(inode := files[f].inode)]
      ensures ok ==> InodesPlaced(files, free.numInodes, f + 1, free.taken[..])
      ensures free.taken[1 + free.numInodes..] == old(free.taken[1 + free.numInodes..])
      ensures ok || random.Spent()
    {
      hide WordAt;
      hide DentryAt;
      hide HoldsData;
      var v := free.GetInodeBlock(random);
      if v.None? {
        return false;
      }
      InodesPlacedNext(files, free.numInodes, f, old(free.taken[..]), v.value);
      hide InodesPlaced;
      assert ListsFile(bblock[..], f, files[f], sources[f]);
      ghost var b := bblock[..];
      PutWord(bblock, 64 + 64 * files[f].dentry + 36, v.value);
      Repointed(b, bblock[..], files, sources, f, v.value);
      SameWord(b, bblock[..], 4);
      SameWord(b, bblock[..], 8);
      files := files[f := files[f].(inode := v.value)];
      ok := true;
    }

    method PlaceInodes(free: FreeMap, random: Random, ghost sources: seq<Source>) returns (ok: bool)
      requires Lists(bblock[..], files, sources) && free.Valid() && free.numInodes == 2 * |files| < WORD
      requires free.taken as object != bblock
      modifies this`files, bblock, free.taken, random
      ensures Lists(bblock[..], files, sources) && |files| == old(|files|)
      ensures WordAt(bblock[..], 4) == old(WordAt(bblock[..], 4)) && WordAt(bblock[..], 8) == old(WordAt(bblock[..], 8))
      ensures ok ==> InodesPlaced(files, free.numInodes, |files|, free.taken[..])
      ensures forall f :: 0 <= f < |files| ==> files[f] == old(files)[f].(inode := files[f].inode)
      ensures free.taken[1 + free.numInodes..] == old(free.taken[1 + free.numInodes..])
      ensures ok || random.Spent()
    {
      hide WordAt;
      hide Lists;
      NonePlaced(files, free.numInodes, free.taken[..]);
      hide InodesPlaced;
      for f := 0 to |files|
        invariant |files| == old(|files|) && Lists(bblock[..], files, sources)
        invariant WordAt(bblock[..], 4) == old(WordAt(bblock[..], 4))
        invariant WordAt(bblock[..], 8) == old(WordAt(bblock[..], 8))
        invariant InodesPlaced(files, free.numInodes, f, free.taken[..])
        invariant forall g :: 0 <= g < |files| ==> files[g] == old(files)[g].(inode := files[g].inode)
        invariant free.taken[1 + free.numInodes..] == old(free.taken[1 + free.numInodes..])
      {
        ok := PlaceInode(f, free, random, sources);
        if !ok {
          return false;
        }
      }
      ok := true;
    }

    // Draws a block for each block of a file.
    method PlaceBlocks(f: nat, free: FreeMap, random: Random, ghost sources: seq<Source>) returns (ok: bool)
      requires free.Valid() && f < |files| && (files[f].blocks != [] ==> free.numDataBlocks > 0)
      requires BlocksPlaced(files, free.numInodes, free.numDataBlocks, free.taken[..])
      requires files[f].ids == []
      modifies this`files, free.taken, random
      ensures |files| == old(|files|)
      ensures files == old(files)[f := old(files)[f].(ids := files[f].ids)]
      ensures ok ==> |files[f].ids| == |files[f].blocks|
      ensures ok ==> BlocksPlaced(files, free.numInodes, free.numDataBlocks, free.taken[..])
      ensures ok || random.Spent()
    {
      hide IdsApart;
      var n := |files[f].blocks|;
      for j := 0 to n
        invariant |files| == old(|files|) && files == old(files)[f := old(files)[f].(ids := files[f].ids)]
        invariant |files[f].ids| == j && BlocksPlaced(files, free.numInodes, free.numDataBlocks, free.taken[..])
      {
        ghost var taken := free.taken[..];
        var v := free.GetDataBlock(random);
        if v.None? {
          return false;
        }
        BlocksPlacedNext(files, free.numInodes, free.numDataBlocks, taken, f, v.value);
        hide BlocksPlaced;
        files := files[f := files[f].(ids := files[f].ids + [v.value])];
      }
      ok := true;
    }

    method PlaceAllBlocks(free: FreeMap, random: Random, ghost sources: seq<Source>) returns (ok: bool)
      requires free.Valid() && free.numDataBlocks == 2 * TotalBlocks(files)
      requires Lists(bblock[..], files, sources) && NoIds(files)
      requires free.taken as object != bblock
      modifies this`files, free.taken, random
      ensures Lists(bblock[..], files, sources) && SameInodes(files, old(files))
      ensures ok ==> BlocksPlaced(files, free.numInodes, free.numDataBlocks, free.taken[..])
      ensures ok ==> forall f :: 0 <= f < |files| ==> |files[f].ids| == |files[f].blocks|
      ensures ok || random.Spent()
    {
      hide WordAt;
      hide Lists;
      hide TotalBlocks;
      NoBlocksYet(files, free.numInodes, free.numDataBlocks, free.taken[..]);
      hide BlocksPlaced;
      hide IdsApart;
      ghost var b, was := bblock[..], files;
      for f := 0 to |files|
        invariant SameInodes(files, was) && bblock[..] == b
        invariant forall g :: f <= g < |files| ==> files[g].ids == []
        invariant forall g :: 0 <= g < f ==> |files[g].ids| == |files[g].blocks|
        invariant BlocksPlaced(files, free.numInodes, free.numDataBlocks, free.taken[..])
      {
        TotalAtLeast(was, f);
        ok := PlaceBlocks(f, free, random, sources);
        if !ok {
          SameListing(b, was, files, sources);
          return false;
        }
      }
      SameListing(b, was, files, sources);
      ok := true;
    }

    // Draws a place for everything; false when the numbers run out.
    method Place(random: Random, ghost sources: seq<Source>) returns (ok: bool, numInodes: nat, ghost numData: nat)
      requires Lists(bblock[..], files, sources) && NoIds(files)
      requires WordAt(bblock[..], 4) == |files| && WordAt(bblock[..], 8) == TotalBlocks(files)
      modifies this`files, bblock, random
      ensures numInodes == 2 * |sources| && numInodes + numData < WORD && Lists(bblock[..], files, sources)
      ensures WordAt(bblock[..], 4) == numInodes && WordAt(bblock[..], 8) == numData
      ensures ok ==> Placed(files, numInodes, numData)
      ensures ok || random.Spent()
    {
      hide WordAt;
      hide ListsFile;
      hide DentryAt;
      hide IdsApart;
      TotalBound(bblock[..], files, sources);
      hide TotalBlocks;
      var free := new FreeMap(WordAt(bblock[..], 4), WordAt(bblock[..], 8));
      numInodes, numData := free.numInodes, free.numDataBlocks;
      ghost var b := bblock[..];
      PutWord(bblock, 4, free.numInodes);
      ghost var c := bblock[..];
      SameList(b, c, files, sources);
      PutWord(bblock, 8, free.numDataBlocks);
      SameList(c, bblock[..], files, sources);
      SameWord(c, bblock[..], 4);
      ghost var was := files;
      ok := PlaceInodes(free, random, sources);
      if !ok {
        return;
      }
      ghost var placed, taken := files, free.taken[..];
      SameTotal(was, placed);
      ok := PlaceAllBlocks(free, random, sources);
    }

    // Writes the boot block, the inodes and the data, each block where it goes.
    method Write(numInodes: nat, ghost numData: nat, ghost sources: seq<Source>) returns (out: seq<byte>)
      requires Lists(bblock[..], files, sources) && Placed(files, numInodes, numData)
      requires numInodes + numData < WORD
      requires WordAt(bblock[..], 4) == numInodes && WordAt(bblock[..], 8) == numData
      ensures IsImage(out, files, sources, numInodes, numData)
    {
      hide WordAt;
      hide WriteBlock;
      hide ListsFile;
      hide BlockAt;
      hide HasBlock;
      hide IdsApart;
      WriteBlockIsLocal([], 0, bblock[..]);
      out := WriteBlock([], 0, bblock[..]);
      for f := 0 to |files|
        invariant |out| % BLOCK_SIZE == 0 && HasBlock(out, 0) && BlockAt(out, 0) == bblock[..]
        invariant InodesWritten(out, files, f)
      {
        SmallFile(bblock[..], files, sources, f, numInodes, numData);
        var block := InodeBlock(files[f]);
        WriteBlockIsLocal(out, files[f].inode + 1, block);
        out := WriteBlock(out, files[f].inode + 1, block);
      }
      for f := 0 to |files|
        invariant |out| % BLOCK_SIZE == 0 && HasBlock(out, 0) && BlockAt(out, 0) == bblock[..]
        invariant InodesWritten(out, files, |files|) && DataWritten(out, files, numInodes, f, 0)
      {
        assert ListsFile(bblock[..], f, files[f], sources[f]);
        for j := 0 to |files[f].blocks|
          invariant |out| % BLOCK_SIZE == 0 && HasBlock(out, 0) && BlockAt(out, 0) == bblock[..]
          invariant InodesWritten(out, files, |files|) && DataWritten(out, files, numInodes, f, j)
        {
          BlockIsFull(bblock[..], f, files[f], sources[f], j);
          DataWrittenNext(out, files, numInodes, numData, f, j);
          out := WriteBlock(out, files[f].ids[j] + numInodes + 1, files[f].blocks[j]);
        }
      }
    }
  }

  ghost predicate InodeSays(block: seq<byte>, file: FileBuffer) {
    WordAt(block, 0) == file.size && forall j :: 0 <= j < |file.ids| ==> WordAt(block, 4 + 4 * j) == file.ids[j]
  }

  ghost predicate InodesWritten(out: seq<byte>, files: seq<FileBuffer>, n: nat) {
    forall f: nat :: f < n && f < |files| ==>
      HasBlock(out, files[f].inode + 1) && InodeSays(BlockAt(out, files[f].inode + 1), files[f])
  }

  ghost predicate DataWritten(out: seq<byte>, files: seq<FileBuffer>, numInodes: nat, f: nat, j: nat) {
    forall g: nat, k: nat ::
      g < |files| && k < |files[g].ids| && k < |files[g].blocks| && (g < f || (g == f && k < j)) ==>
        && HasBlock(out, files[g].ids[k] + numInodes + 1)
        && BlockAt(out, files[g].ids[k] + numInodes + 1) == files[g].blocks[k]
  }

  // What the image holds: the boot block with its entries, and each file's
  // inode and blocks at the places drawn.
  ghost predicate IsImage(img: seq<byte>, files: seq<FileBuffer>, sources: seq<Source>, numInodes: nat, numData: nat) {
    && |img| % BLOCK_SIZE == 0 && HasBlock(img, 0) && Lists(BlockAt(img, 0), files, sources)
    && WordAt(BlockAt(img, 0), 4) == numInodes && WordAt(BlockAt(img, 0), 8) == numData
    && Placed(files, numInodes, numData)
    && InodesWritten(img, files, |files|) && DataWritten(img, files, numInodes, |files|, 0)
  }

  lemma SmallFile(b: seq<byte>, files: seq<FileBuffer>, sources: seq<Source>, f: nat, numInodes: nat, numData: nat)
    requires Lists(b, files, sources) && Placed(files, numInodes, numData) && numInodes + numData < WORD && f < |files|
    ensures files[f].size < WORD && |files[f].ids| < 1024
    ensures forall j :: 0 <= j < |files[f].ids| ==> files[f].ids[j] < WORD
  {
    assert ListsFile(b, f, files[f], sources[f]);
    BlockCount(files[f].blocks, sources[f].data);
  }

  lemma BlockIsFull(b: seq<byte>, f: nat, file: FileBuffer, src: Source, j: nat)
    requires ListsFile(b, f, file, src) && j < |file.blocks|
    ensures |file.blocks[j]| == BLOCK_SIZE
  {
  }

  lemma DataWrittenNext(out: seq<byte>, files: seq<FileBuffer>, numInodes: nat, numData: nat, f: nat, j: nat)
    requires |out| % BLOCK_SIZE == 0 && Placed(files, numInodes, numData) && f < |files| && j < |files[f].blocks|
    requires |files[f].blocks[j]| == BLOCK_SIZE && HasBlock(out, 0)
    requires InodesWritten(out, files, |files|) && DataWritten(out, files, numInodes, f, j)
    ensures var r := WriteBlock(out, files[f].ids[j] + numInodes + 1, files[f].blocks[j]);
            && |r| % BLOCK_SIZE == 0 && HasBlock(r, 0) && BlockAt(r, 0) == BlockAt(out, 0)
            && InodesWritten(r, files, |files|) && DataWritten(r, files, numInodes, f, j + 1)
  {
    hide WriteBlock;
    hide BlockAt;
    hide HasBlock;
    hide InodeSays;
    var r := WriteBlock(out, files[f].ids[j] + numInodes + 1, files[f].blocks[j]);
    assert 0 != files[f].ids[j] + numInodes + 1;
    WriteBlockIsLocal(out, files[f].ids[j] + numInodes + 1, files[f].blocks[j]);
    var boot := BlockAt(out, 0);
    assert HasBlock(r, 0) && BlockAt(r, 0) == boot;
  }

  ghost predicate SameInodes(files: seq<FileBuffer>, was: seq<FileBuffer>) {
    |files| == |was| && forall f :: 0 <= f < |files| ==> files[f] == was[f].(ids := files[f].ids)
  }

  lemma SameListing(b: seq<byte>, was: seq<FileBuffer>, files: seq<FileBuffer>, sources: seq<Source>)
    requires Lists(b, was, sources) && SameInodes(files, was)
    ensures Lists(b, files, sources)
  {
    hide DentryAt;
    hide WordAt;
    hide HoldsData;
    forall f: nat | f < |files| ensures ListsFile(b, f, files[f], sources[f]) {
      assert ListsFile(b, f, was[f], sources[f]);
    }
  }

  lemma {:induction false} SameTotal(was: seq<FileBuffer>, files: seq<FileBuffer>)
    requires |files| == |was| && forall f :: 0 <= f < |files| ==> |files[f].blocks| == |was[f].blocks|
    ensures TotalBlocks(files) == TotalBlocks(was)
  {
    if files != [] {
      SameTotal(was[..|was| - 1], files[..|files| - 1]);
    }
  }

  lemma {:induction false} TotalAtLeast(files: seq<FileBuffer>, f: nat)
    requires f < |files|
    ensures |files[f].blocks| <= TotalBlocks(files)
  {
    if f < |files| - 1 {
      TotalAtLeast(files[..|files| - 1], f);
    }
  }

  lemma NoBlocksYet(files: seq<FileBuffer>, numInodes: nat, numData: nat, taken: seq<bool>)
    requires |taken| == numInodes + numData + 1 && forall f :: 0 <= f < |files| ==> files[f].ids == []
    ensures BlocksPlaced(files, numInodes, numData, taken)
  {
  }

  lemma NonePlaced(files: seq<FileBuffer>, numInodes: nat, taken: seq<bool>)
    ensures numInodes < |taken| ==> InodesPlaced(files, numInodes, 0, taken)
  {
  }

  lemma InodesPlacedNext(files: seq<FileBuffer>, numInodes: nat, n: nat, taken: seq<bool>, v: nat)
    requires InodesPlaced(files, numInodes, n, taken) && n < |files| && v < numInodes && !taken[1 + v]
    ensures InodesPlaced(files[n := files[n].(inode := v)], numInodes, n + 1, taken[1 + v := true])
  {
  }

  // All data blocks drawn so far are different and marked taken.
  ghost predicate BlocksPlaced(files: seq<FileBuffer>, numInodes: nat, numData: nat, taken: seq<bool>) {
    && |taken| == numInodes + numData + 1
    && (forall f: nat, j: nat :: f < |files| && j < |files[f].ids| ==>
          files[f].ids[j] < numData && taken[1 + numInodes + files[f].ids[j]])
    && IdsApart(files)
  }

  lemma BlocksPlacedNext(files: seq<FileBuffer>, numInodes: nat, numData: nat, taken: seq<bool>, f: nat, v: nat)
    requires BlocksPlaced(files, numInodes, numData, taken) && f < |files| && v < numData && !taken[1 + numInodes + v]
    ensures BlocksPlaced(files[f := files[f].(ids := files[f].ids + [v])], numInodes, numData,
                         taken[1 + numInodes + v := true])
  {
    var t := files[f := files[f].(ids := files[f].ids + [v])];
    forall g: nat, j: nat | g < |t| && j < |t[g].ids|
      ensures t[g].ids[j] == if g == f && j == |files[f].ids| then v else files[g].ids[j]
    {
    }
  }

  // The first n files have inodes of their own, marked taken.
  ghost predicate InodesPlaced(files: seq<FileBuffer>, numInodes: nat, n: nat, taken: seq<bool>) {
    && n <= |files| && numInodes < |taken|
    && (forall f :: 0 <= f < n ==> files[f].inode < numInodes && taken[1 + files[f].inode])
    && (forall f, g :: 0 <= f < g < n ==> files[f].inode != files[g].inode)
  }

  lemma Repointed(b: seq<byte>, c: seq<byte>, files: seq<FileBuffer>, sources: seq<Source>, f: nat, v: nat)
    requires Lists(b, files, sources) && |c| == BLOCK_SIZE && f < |files|
    requires var at := 64 + 64 * (f + 1) + 36;
             WordAt(c, at) == v && forall k :: 0 <= k < BLOCK_SIZE && !(at <= k < at + 4) ==> c[k] == b[k]
    ensures Lists(c, files[f := files[f].(inode := v)], sources)
  {
    hide HoldsData;
    hide WordAt;
    hide CString;
    var t := files[f := files[f].(inode := v)];
    SameWord(b, c, 0);
    SameDentry(b, c, 0);
    forall g: nat | g < |files| ensures ListsFile(c, g, t[g], sources[g]) {
      assert ListsFile(b, g, files[g], sources[g]);
      if g != f {
        SameDentry(b, c, g + 1);
      } else {
        var at := 64 + 64 * (f + 1);
        SameWord(b, c, at + 32);
        assert BytesAt(b, at, NAME_LENGTH) == BytesAt(c, at, NAME_LENGTH);
      }
    }
  }

  lemma NoneYet(listing: seq<Source>)
    ensures Accepted(listing[..0]) == [] && TotalBlocks([]) == 0
  {
  }

  lemma AcceptedNext(listing: seq<Source>, i: nat)
    requires i < |listing|
    ensures Accepted(listing[..i + 1]) ==
            if Accepts(listing[i]) && |Accepted(listing[..i])| < MAX_FILES_IN_BOOT_BLOCK
            then Accepted(listing[..i]) + [listing[i]] else Accepted(listing[..i])
  {
    assert listing[..i + 1][..i] == listing[..i];
  }

  lemma {:induction false} AcceptedRest(listing: seq<Source>, i: nat)
    requires i <= |listing| && (i == |listing| || |Accepted(listing[..i])| == MAX_FILES_IN_BOOT_BLOCK)
    ensures Accepted(listing) == Accepted(listing[..i])
    decreases |listing| - i
  {
    if i < |listing| {
      AcceptedNext(listing, i);
      AcceptedRest(listing, i + 1);
    } else {
      assert listing[..i] == listing;
    }
  }

  // ----- Which files get in -----

  // A regular file or character device of at most 1023 blocks.
  predicate Fits(src: Source) {
    src.mode != Other && |src.data| <= 1023 * 4096
  }

  function FitCount(listing: seq<Source>): nat {
    if listing == [] then 0 else FitCount(listing[..|listing| - 1]) + if Fits(listing[|listing| - 1]) then 1 else 0
  }

  // The image has room for the first 62 of them.
  lemma {:induction false} AcceptedCount(listing: seq<Source>)
    ensures |Accepted(listing)| == Min(FitCount(listing), 62)
  {
    if listing != [] {
      AcceptedCount(listing[..|listing| - 1]);
    }
  }

  // Each of these is in the image, in the order of the listing.
  lemma {:induction false} FittingIsAccepted(listing: seq<Source>, i: nat)
    requires i < |listing| && Fits(listing[i]) && FitCount(listing[..i]) < 62
    ensures var f := FitCount(listing[..i]); f < |Accepted(listing)| && Accepted(listing)[f] == listing[i]
  {
    var n := |listing| - 1;
    AcceptedCount(listing[..n]);
    if i < n {
      assert listing[..n][..i] == listing[..i];
      FittingIsAccepted(listing[..n], i);
    }
  }

  // And nothing else is.
  lemma {:induction false} AcceptedFits(listing: seq<Source>, f: nat) returns (i: nat)
    requires f < |Accepted(listing)|
    ensures i < |listing| && Fits(listing[i]) && Accepted(listing)[f] == listing[i] && FitCount(listing[..i]) == f
  {
    var n := |listing| - 1;
    AcceptedCount(listing[..n]);
    if f < |Accepted(listing[..n])| {
      i := AcceptedFits(listing[..n], f);
      assert listing[..n][..i] == listing[..i];
    } else {
      i := n;
    }
  }

  lemma {:induction false} TotalBound(b: seq<byte>, files: seq<FileBuffer>, sources: seq<Source>)
    requires Lists(b, files, sources)
    ensures TotalBlocks(files) <= 1023 * |files|
  {
    forall f: nat | f < |files| ensures |files[f].blocks| <= 1023 {
      assert ListsFile(b, f, files[f], sources[f]);
      BlockCount(files[f].blocks, sources[f].data);
    }
    hide Lists;
    TotalOfSmall(files);
  }

  lemma {:induction false} TotalOfSmall(files: seq<FileBuffer>)
    requires forall f :: 0 <= f < |files| ==> |files[f].blocks| <= 1023
    ensures TotalBlocks(files) <= 1023 * |files|
  {
    if files != [] {
      TotalOfSmall(files[..|files| - 1]);
    }
  }

  lemma ZeroWords(b: seq<byte>)
    requires |b| == BLOCK_SIZE && forall k :: 0 <= k < |b| ==> b[k] == 0
    ensures WordAt(b, 4) == 0 && WordAt(b, 8) == 0
  {
  }

  lemma BlockCount(blocks: seq<seq<byte>>, data: seq<byte>)
    requires HoldsData(blocks, data) && |data| <= MAX_FILE_SIZE
    ensures |blocks| <= 1023 && |blocks| == CeilBlocks(|data|)
  {
  }

  lemma OneMoreFile(b: seq<byte>, c: seq<byte>, files: seq<FileBuffer>, sources: seq<Source>,
                    file: FileBuffer, src: Source)
    requires Lists(b, files, sources) && |c| == BLOCK_SIZE && WordAt(c, 0) == |files| + 2
    requires |sources| < MAX_FILES_IN_BOOT_BLOCK && ListsFile(b, |files|, file, src)
    requires forall k :: 12 <= k < BLOCK_SIZE ==> c[k] == b[k]
    ensures Lists(c, files + [file], sources + [src])
    ensures TotalBlocks(files + [file]) == TotalBlocks(files) + |file.blocks|
  {
    hide DentryAt;
    hide WordAt;
    hide HoldsData;
    TotalOfMore(files, file);
    hide TotalBlocks;
    SameDentry(b, c, 0);
    forall f: nat | f < |files| ensures ListsFile(c, f, files[f], sources[f]) {
      assert ListsFile(b, f, files[f], sources[f]);
      SameDentry(b, c, f + 1);
    }
    SameDentry(b, c, |files| + 1);
    assert ListsFile(c, |files|, file, src);
    hide ListsFile;
  }

  lemma TotalOfMore(files: seq<FileBuffer>, file: FileBuffer)
    ensures TotalBlocks(files + [file]) == TotalBlocks(files) + |file.blocks|
  {
    assert (files + [file])[..|files|] == files;
  }

  // The whole program: the image of a directory listing, for any numbers that
  // rand() gives; None when they run out before everything has a place.
  method CreateImage(listing: seq<Source>, memory: seq<byte>, random: Random)
    returns (img: Option<seq<byte>>, ghost files: seq<FileBuffer>, ghost numData: nat)
    requires |memory| == BLOCK_SIZE && forall src :: src in listing ==> NoNul(src.name)
    modifies random
    ensures img.Some? ==> IsImage(img.value, files, Accepted(listing), 2 * |Accepted(listing)|, numData)
    ensures img.None? ==> random.Spent()
  {
    hide WordAt;
    hide ListsFile;
    hide DentryAt;
    hide Accepted;
    hide Placed;
    hide IsImage;
    var writer := new ImageWriter();
    writer.AddFiles(listing, memory);
    ghost var sources := Accepted(listing);
    var ok, numInodes, n := writer.Place(random, sources);
    files, numData := writer.files, n;
    if !ok {
      return None, files, numData;
    }
    var out := writer.Write(numInodes, numData, sources);
    img := Some(out);
  }
}
