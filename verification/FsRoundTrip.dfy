// What createfs writes, KissFS reads: the files of a directory come back byte
// for byte, exactly as long as the reader agrees on where the data starts.
module FsRoundTrip {
  import opened Common
  import opened Blocks
  import opened KissSpec
  import opened CreateFs
  import opened KissFs

  lemma WordInBlock(img: seq<byte>, b: nat, r: nat)
    requires HasBlock(img, b) && r + 4 <= BLOCK_SIZE
    ensures WordAt(img, b * BLOCK_SIZE + r) == WordAt(BlockAt(img, b), r)
  {
    ByteOfBlock(img, b, r);
    ByteOfBlock(img, b, r + 1);
    ByteOfBlock(img, b, r + 2);
    ByteOfBlock(img, b, r + 3);
    hide HasBlock;
  }

  lemma DentryInBoot(img: seq<byte>, i: nat)
    requires HasBlock(img, 0) && i < 63
    ensures DentryAt(img, i) == DentryAt(BlockAt(img, 0), i)
  {
    SameDentry(img, BlockAt(img, 0), i);
  }

  // The reader finds every entry the writer made.
  lemma EntriesAreParsed(img: seq<byte>, files: seq<FileBuffer>, sources: seq<Source>, numInodes: nat, numData: nat)
    requires IsImage(img, files, sources, numInodes, numData)
    ensures var fs := Parse(img);
            && fs.numTotalDataBlocks == numData && |fs.inodes| == Min(numInodes, MAX_FILES) && fs.image == img
            && |fs.dentries| == |sources| + 1
            && fs.dentries[0] == Dentry([DOT], DIRECTORY, 0)
            && forall f: nat :: f < |files| ==>
                 fs.dentries[f + 1] == Dentry(ShortName(sources[f].name), Filetype(sources[f].mode), files[f].inode)
  {
    hide DentryAt;
    hide WordAt;
    hide HoldsData;
    hide InodeAt;
    hide Placed;
    hide InodesWritten;
    hide DataWritten;
    WordInBlock(img, 0, 0);
    WordInBlock(img, 0, 4);
    WordInBlock(img, 0, 8);
    DentryInBoot(img, 0);
    forall f: nat | f < |files|
      ensures DentryAt(img, f + 1) == Dentry(ShortName(sources[f].name), Filetype(sources[f].mode), files[f].inode)
    {
      assert ListsFile(BlockAt(img, 0), f, files[f], sources[f]);
      DentryInBoot(img, f + 1);
    }
  }

  // And every inode whose number it can hold.
  lemma InodeIsParsed(img: seq<byte>, files: seq<FileBuffer>, sources: seq<Source>, numInodes: nat, numData: nat,
                      f: nat)
    requires IsImage(img, files, sources, numInodes, numData) && f < |files|
    ensures InodeAt(img, files[f].inode) == Inode(|sources[f].data|, files[f].ids)
  {
    hide WordAt;
    hide DentryAt;
    hide DataWritten;
    hide IdsApart;
    var file := files[f];
    var b := file.inode + 1;
    assert ListsFile(BlockAt(img, 0), f, file, sources[f]);
    BlockCount(file.blocks, sources[f].data);
    hide HoldsData;
    assert HasBlock(img, b) && InodeSays(BlockAt(img, b), file);
    hide HasBlock;
    hide BlockAt;
    WordInBlock(img, b, 0);
    forall j | 0 <= j < |file.ids| ensures WordAt(img, BLOCK_SIZE * b + 4 + 4 * j) == file.ids[j] {
      WordInBlock(img, b, 4 + 4 * j);
    }
    assert WordsAt(img, BLOCK_SIZE * b + 4, CeilBlocks(file.size)) == file.ids;
  }

  // Where everything is in the image: the counts, the entry of a file behind
  // that of the directory, and its inode block.
  lemma ImageLayout(img: seq<byte>, files: seq<FileBuffer>, sources: seq<Source>, numInodes: nat, numData: nat, f: nat)
    requires IsImage(img, files, sources, numInodes, numData) && f < |files|
    ensures |sources| == |files| && WordAt(img, 0) == |files| + 1 && WordAt(img, 4) == numInodes
    ensures WordAt(img, 8) == numData
    ensures var entry := 128 + 64 * f;
            && CString(BytesAt(img, entry, 32)) == ShortName(sources[f].name)
            && WordAt(img, entry + 32) == (if sources[f].mode == CharDevice then 0 else 2)
            && WordAt(img, entry + 36) == files[f].inode
    ensures var node := 4096 * (files[f].inode + 1);
            && WordAt(img, node) == |sources[f].data| && |files[f].ids| == CeilBlocks(|sources[f].data|)
            && forall j :: 0 <= j < |files[f].ids| ==> WordAt(img, node + 4 + 4 * j) == files[f].ids[j]
  {
    CountFiles(img, files, sources, numInodes, numData);
    BootWords(img, files, sources, numInodes, numData, f);
    InodeIsParsed(img, files, sources, numInodes, numData, f);
    hide IsImage;
    hide WordAt;
    hide CString;
    hide BytesAt;
    hide ShortName;
  }

  lemma BootWords(img: seq<byte>, files: seq<FileBuffer>, sources: seq<Source>, numInodes: nat, numData: nat, f: nat)
    requires IsImage(img, files, sources, numInodes, numData) && f < |files|
    ensures WordAt(img, 0) == |files| + 1 && WordAt(img, 4) == numInodes && WordAt(img, 8) == numData
    ensures |sources| == |files|
    ensures DentryAt(img, f + 1) == Dentry(ShortName(sources[f].name), Filetype(sources[f].mode), files[f].inode)
  {
    hide DentryAt;
    hide WordAt;
    hide HoldsData;
    hide InodeAt;
    hide Placed;
    hide InodesWritten;
    hide DataWritten;
    WordInBlock(img, 0, 0);
    WordInBlock(img, 0, 4);
    WordInBlock(img, 0, 8);
    assert ListsFile(BlockAt(img, 0), f, files[f], sources[f]);
    DentryInBoot(img, f + 1);
  }

  // The reader looks for data block `id` where the writer put it if and only
  // if the image has at most 64 inodes, that is 32 files: beyond that it still
  // counts 64 inode blocks.
  lemma SameBlock(img: seq<byte>, files: seq<FileBuffer>, sources: seq<Source>, numInodes: nat, numData: nat, id: nat)
    requires IsImage(img, files, sources, numInodes, numData)
    ensures RawBlock(Parse(img), id) == id + numInodes + 1 <==> numInodes <= MAX_FILES
  {
    EntriesAreParsed(img, files, sources, numInodes, numData);
    hide IsImage;
    hide Parse;
  }

  // Short names that are all different, none that of the directory itself.
  ghost predicate NamesApart(sources: seq<Source>) {
    && (forall f, g :: 0 <= f < g < |sources| ==> ShortName(sources[f].name) != ShortName(sources[g].name))
    && (forall f :: 0 <= f < |sources| ==> ShortName(sources[f].name) != [DOT])
  }

  lemma NameIsFound(img: seq<byte>, files: seq<FileBuffer>, sources: seq<Source>, numInodes: nat, numData: nat, f: nat)
    requires IsImage(img, files, sources, numInodes, numData) && NamesApart(sources) && f < |sources|
    ensures |files| == |sources| && FindDentry(Parse(img).dentries, ShortName(sources[f].name)) == Some(f + 1)
  {
    EntriesAreParsed(img, files, sources, numInodes, numData);
    CountFiles(img, files, sources, numInodes, numData);
    hide IsImage;
    hide Parse;
    hide ShortName;
    FoundInList(Parse(img).dentries, sources, f);
  }

  lemma CountFiles(img: seq<byte>, files: seq<FileBuffer>, sources: seq<Source>, numInodes: nat, numData: nat)
    requires IsImage(img, files, sources, numInodes, numData)
    ensures |files| == |sources|
  {
  }

  lemma FoundInList(ds: seq<Dentry>, sources: seq<Source>, f: nat)
    requires NamesApart(sources) && f < |sources| && |ds| == |sources| + 1
    requires forall g: nat :: g < |sources| ==> ds[g + 1].filename == ShortName(sources[g].name)
    ensures FindDentry(ds, ShortName(sources[f].name)) == Some(f + 1)
  {
    var name := ShortName(sources[f].name);
    assert ds[f + 1].filename == name;
    forall j: nat | f + 1 < j < |ds| ensures ds[j].filename != name {
      var g: nat := j - 1;
      assert ds[g + 1].filename == ShortName(sources[g].name);
    }
    hide ShortName;
    hide NamesApart;
    FoundLast(ds, name, f + 1);
  }

  lemma {:induction false} FoundLast(ds: seq<Dentry>, name: seq<byte>, i: nat)
    requires i < |ds| && ds[i].filename == name && forall j: nat :: i < j < |ds| ==> ds[j].filename != name
    ensures FindDentry(ds, name) == Some(i)
  {
    if i < |ds| - 1 {
      FoundLast(ds[..|ds| - 1], name, i);
    }
  }

  // All blocks of a file are there, and hold its bytes.
  lemma FileIsWhole(img: seq<byte>, files: seq<FileBuffer>, sources: seq<Source>, numInodes: nat, numData: nat, f: nat)
    requires IsImage(img, files, sources, numInodes, numData) && numInodes <= MAX_FILES && f < |files|
    ensures Whole(Parse(img), files[f].inode) && |files| == |sources|
    ensures Parse(img).inodes[files[f].inode] == Inode(|sources[f].data|, files[f].ids)
  {
    EntriesAreParsed(img, files, sources, numInodes, numData);
    InodeIsParsed(img, files, sources, numInodes, numData, f);
    hide InodeAt;
    hide DentryAt;
    hide WordAt;
    hide IdsApart;
    hide BlockAt;
    var fs, file := Parse(img), files[f];
    assert ListsFile(BlockAt(img, 0), f, file, sources[f]);
    BlockCount(file.blocks, sources[f].data);
    hide HoldsData;
    forall j | 0 <= j < |file.ids| ensures Readable(fs, file.ids[j]) {
      assert HasBlock(img, file.ids[j] + numInodes + 1);
      BlockInFile(img, file.ids[j] + numInodes + 1);
    }
  }

  lemma BlockInFile(img: seq<byte>, b: nat)
    requires HasBlock(img, b)
    ensures b < |img| / BLOCK_SIZE
  {
  }

  // Where byte k of a file with these blocks is, in an image with so many inodes.
  function DataPlace(ids: seq<nat>, inodes: nat, k: nat): nat
    requires k / BLOCK_SIZE < |ids|
  {
    (ids[k / BLOCK_SIZE] + inodes + 1) * BLOCK_SIZE + k % BLOCK_SIZE
  }

  // Byte k of a file, where the writer put it.
  lemma ByteIsInPlace(img: seq<byte>, files: seq<FileBuffer>, sources: seq<Source>, numInodes: nat, numData: nat,
                      f: nat, k: nat)
    requires IsImage(img, files, sources, numInodes, numData) && f < |files| && f < |sources| && k < |sources[f].data|
    ensures k / BLOCK_SIZE < |files[f].ids|
    ensures ByteAt(img, DataPlace(files[f].ids, numInodes, k)) == sources[f].data[k]
  {
    hide DentryAt;
    hide WordAt;
    hide IdsApart;
    hide InodesWritten;
    var file, j := files[f], k / BLOCK_SIZE;
    assert ListsFile(BlockAt(img, 0), f, file, sources[f]);
    BlockCount(file.blocks, sources[f].data);
    assert j < |file.blocks|;
    var b := file.ids[j] + numInodes + 1;
    assert HasBlock(img, b) && BlockAt(img, b) == file.blocks[j];
    ByteOfBlock(img, b, k % BLOCK_SIZE);
  }

  lemma ByteOfFile(fs: Fs, inode: nat, k: nat)
    requires Whole(fs, inode) && k < fs.inodes[inode].size
    ensures var ids := fs.inodes[inode].datablocks;
            && k / BLOCK_SIZE < |ids|
            && FileBytes(fs, inode)[k] == ByteAt(fs.image, DataPlace(ids, |fs.inodes|, k))
  {
    hide Places;
  }

  lemma ByteIsItself(img: seq<byte>, files: seq<FileBuffer>, sources: seq<Source>, numInodes: nat, numData: nat,
                     f: nat, k: nat)
    requires IsImage(img, files, sources, numInodes, numData) && numInodes <= MAX_FILES && f < |files|
    requires |files| == |sources| && k < |sources[f].data|
    ensures Whole(Parse(img), files[f].inode) && k < Parse(img).inodes[files[f].inode].size
    ensures FileBytes(Parse(img), files[f].inode)[k] == sources[f].data[k]
  {
    FileIsWhole(img, files, sources, numInodes, numData, f);
    EntriesAreParsed(img, files, sources, numInodes, numData);
    ByteIsInPlace(img, files, sources, numInodes, numData, f, k);
    hide IsImage;
    hide Parse;
    hide Whole;
    hide FileBytes;
    hide DataPlace;
    hide ByteAt;
    ByteOfFile(Parse(img), files[f].inode, k);
  }

  lemma FileIsItself(img: seq<byte>, files: seq<FileBuffer>, sources: seq<Source>, numInodes: nat, numData: nat, f: nat)
    requires IsImage(img, files, sources, numInodes, numData) && numInodes <= MAX_FILES && f < |files|
    ensures Whole(Parse(img), files[f].inode) && |files| == |sources|
    ensures FileBytes(Parse(img), files[f].inode) == sources[f].data
  {
    FileIsWhole(img, files, sources, numInodes, numData, f);
    SizeIsHeld(Parse(img), files[f].inode);
    hide IsImage;
    hide Parse;
    hide Whole;
    hide FileBytes;
    var fs, inode, data := Parse(img), files[f].inode, sources[f].data;
    forall k: nat | k < |data| ensures FileBytes(fs, inode)[k] == data[k] {
      ByteIsItself(img, files, sources, numInodes, numData, f, k);
    }
  }

  lemma SizeIsHeld(fs: Fs, inode: nat)
    requires Whole(fs, inode)
    ensures inode < |fs.inodes| && fs.inodes[inode].size <= |fs.inodes[inode].datablocks| * BLOCK_SIZE
  {
  }

  // The round trip.  For any outcome of the random placement, opening a name
  // of an image of at most 32 files and reading on with any chunk that divides
  // the block size gives the original bytes, and then nothing.
  lemma ReadsBackWhatWasWritten(img: seq<byte>, files: seq<FileBuffer>, sources: seq<Source>,
                                numInodes: nat, numData: nat, f: nat, chunk: nat, count: nat)
    requires IsImage(img, files, sources, numInodes, numData) && numInodes <= MAX_FILES
    requires NamesApart(sources) && f < |sources|
    requires chunk > 0 && (BLOCK_SIZE % chunk == 0 || chunk % BLOCK_SIZE == 0) && count * chunk >= |sources[f].data|
    ensures |files| == |sources| && |Parse(img).dentries| == |sources| + 1
    ensures FindDentry(Parse(img).dentries, ShortName(sources[f].name)) == Some(f + 1)
    ensures Parse(img).dentries[f + 1].filetype == Filetype(sources[f].mode)
    ensures Parse(img).dentries[f + 1].inode == files[f].inode < |Parse(img).inodes|
    ensures ReadChunks(Parse(img), files[f].inode, 0, chunk, count) == Some(Session(sources[f].data, |sources[f].data|))
  {
    NameIsFound(img, files, sources, numInodes, numData, f);
    EntriesAreParsed(img, files, sources, numInodes, numData);
    FileIsWhole(img, files, sources, numInodes, numData, f);
    FileIsItself(img, files, sources, numInodes, numData, f);
    ChunksGiveWholeFile(Parse(img), files[f].inode, chunk, count);
    hide IsImage;
    hide Parse;
    hide NamesApart;
    hide ReadChunks;
    hide FileBytes;
    assert FileBytes(Parse(img), files[f].inode)[..|sources[f].data|] == sources[f].data;
  }

  // ----- The two programs, one after the other -----

  // So many reads of one chunk each have given `data`.
  ghost predicate ReadSoFar(fs: Fs, inode: nat, chunk: nat, count: nat, data: seq<byte>)
    requires Whole(fs, inode)
  {
    SizeIsHeld(fs, inode);
    |data| == Min(count * chunk, fs.inodes[inode].size) && data == FileBytes(fs, inode)[..|data|]
  }

  lemma NothingReadYet(fs: Fs, inode: nat, chunk: nat)
    requires Whole(fs, inode)
    ensures ReadSoFar(fs, inode, chunk, 0, [])
  {
    SizeIsHeld(fs, inode);
    hide Whole;
    hide FileBytes;
  }

  // The next read appends its bytes, and gives none only at the end.
  lemma OneMoreRead(fs: Fs, inode: nat, chunk: nat, count: nat, data: seq<byte>)
    requires Whole(fs, inode) && chunk > 0 && (BLOCK_SIZE % chunk == 0 || chunk % BLOCK_SIZE == 0)
    requires ReadSoFar(fs, inode, chunk, count, data)
    ensures var more := ReadData(fs, inode, |data|, chunk);
            && more.Some? && ReadSoFar(fs, inode, chunk, count + 1, data + more.value)
            && |data| + |more.value| <= fs.inodes[inode].size < WORD
            && (more.value == [] ==> data == FileBytes(fs, inode))
  {
    hide ReadData;
    hide Readable;
    hide FileBytes;
    ChunksGiveWholeFile(fs, inode, chunk, count);
    ChunksGiveWholeFile(fs, inode, chunk, count + 1);
    Distributes(count, 1, chunk);
    hide ReadChunks;
    assert ReadChunks(fs, inode, 0, chunk, count) == Some(Session(data, |data|));
    NextChunk(fs, inode, chunk, count);
    var bytes, size := FileBytes(fs, inode), fs.inodes[inode].size;
    if |data| == size {
      assert bytes[..size] == bytes;
    }
  }

  lemma NextChunk(fs: Fs, inode: nat, chunk: nat, count: nat)
    requires inode < |fs.inodes| && ReadChunks(fs, inode, 0, chunk, count).Some?
    ensures var s := ReadChunks(fs, inode, 0, chunk, count).value;
            ReadChunks(fs, inode, 0, chunk, count + 1) ==
            match ReadData(fs, inode, s.offset, chunk)
            case None => None
            case Some(more) => Some(Session(s.data + more, s.offset + |more|))
  {
    hide ReadData;
  }

  // One read into the whole buffer, appended to what was read before.
  method ReadMore(file: OpenFile, buf: array<byte>, data: seq<byte>, ghost count: nat)
    returns (n: nat, all: seq<byte>)
    requires file.fs.Counted() && Whole(file.fs.Value(), file.inode) && file.offset == |data|
    requires buf.Length > 0 && (BLOCK_SIZE % buf.Length == 0 || buf.Length % BLOCK_SIZE == 0)
    requires ReadSoFar(file.fs.Value(), file.inode, buf.Length, count, data)
    modifies file, buf
    ensures ReadSoFar(file.fs.Value(), file.inode, buf.Length, count + 1, all)
    ensures file.offset == |all| == |data| + n <= file.fs.inodes[file.inode].size
    ensures n == 0 ==> all == FileBytes(file.fs.Value(), file.inode)
  {
    hide ReadData;
    hide FileBytes;
    hide ReadSoFar;
    SizeIsHeld(file.fs.Value(), file.inode);
    OneMoreRead(file.fs.Value(), file.inode, buf.Length, count, data);
    hide Whole;
    var read := file.Read(buf, buf.Length);
    n, all := read, data + buf[..read];
  }

  // A program that reads on until a read gives nothing.
  method ReadToEnd(file: OpenFile, chunk: nat) returns (data: seq<byte>)
    requires file.fs.Counted() && Whole(file.fs.Value(), file.inode) && file.offset == 0
    requires chunk > 0 && (BLOCK_SIZE % chunk == 0 || chunk % BLOCK_SIZE == 0)
    modifies file
    ensures data == FileBytes(file.fs.Value(), file.inode)
  {
    hide ReadData;
    hide FileBytes;
    hide ReadSoFar;
    ghost var count := 0;
    SizeIsHeld(file.fs.Value(), file.inode);
    NothingReadYet(file.fs.Value(), file.inode, chunk);
    hide Whole;
    var buf := new byte[chunk];
    data := [];
    var n := 1;
    while n > 0
      invariant file.offset == |data| && ReadSoFar(file.fs.Value(), file.inode, chunk, count, data)
      invariant n == 0 ==> data == FileBytes(file.fs.Value(), file.inode)
      invariant |data| <= file.fs.inodes[file.inode].size
      decreases file.fs.inodes[file.inode].size - |data|, n
      modifies file, buf
    {
      n, data := ReadMore(file, buf, data, count);
      count := count + 1;
    }
  }

  // Opening a name of an image and reading its file.
  method ReadBack(img: seq<byte>, ghost files: seq<FileBuffer>, ghost sources: seq<Source>,
                  ghost numInodes: nat, ghost numData: nat, ghost f: nat, name: seq<byte>, chunk: nat)
    returns (data: seq<byte>)
    requires IsImage(img, files, sources, numInodes, numData) && numInodes <= MAX_FILES
    requires NamesApart(sources) && f < |sources| && Truncated(name) == ShortName(sources[f].name)
    requires chunk > 0 && (BLOCK_SIZE % chunk == 0 || chunk % BLOCK_SIZE == 0)
    ensures data == sources[f].data
  {
    hide IsImage;
    hide NamesApart;
    hide FindDentry;
    hide Parse;
    hide FileBytes;
    hide Whole;
    NameIsFound(img, files, sources, numInodes, numData, f);
    EntriesAreParsed(img, files, sources, numInodes, numData);
    FileIsItself(img, files, sources, numInodes, numData, f);
    var fs := new KissFS(img);
    var fd := fs.Open(name);
    var file := new OpenFile(fs, fd.value.inode);
    data := ReadToEnd(file, chunk);
  }

  // The round trip as a run of both programs: createfs on a listing with at
  // most 32 acceptable files, whose short names differ, and whatever numbers
  // rand() gives; then the kernel reads one of the files.  The image is missing
  // only when the numbers ran out.
  method WriteThenRead(listing: seq<Source>, memory: seq<byte>, random: Random, name: seq<byte>, chunk: nat,
                       ghost f: nat)
    returns (img: Option<seq<byte>>, data: seq<byte>)
    requires |memory| == BLOCK_SIZE && forall src :: src in listing ==> NoNul(src.name)
    requires 2 * |Accepted(listing)| <= MAX_FILES && NamesApart(Accepted(listing))
    requires f < |Accepted(listing)| && Truncated(name) == ShortName(Accepted(listing)[f].name)
    requires chunk > 0 && (BLOCK_SIZE % chunk == 0 || chunk % BLOCK_SIZE == 0)
    modifies random
    ensures if img.Some? then data == Accepted(listing)[f].data else random.Spent()
  {
    hide IsImage;
    hide NamesApart;
    ghost var files, numData;
    img, files, numData := CreateImage(listing, memory, random);
    data := [];
    if img.Some? {
      ghost var sources := Accepted(listing);
      data := ReadBack(img.value, files, sources, 2 * |sources|, numData, f, name, chunk);
    }
  }

  // ----- Files under their own names -----

  // A file can be opened by its own name exactly if the name has at most 31
  // characters; then its entry has the whole name.
  lemma NameFits(name: seq<byte>)
    ensures |name| <= 31 ==> ShortName(name) == name == Truncated(name)
    ensures |name| > 31 ==> ShortName(name) != Truncated(name)
  {
  }

  // The files of a directory that fit into an image have short, different
  // names, and none is called ".".
  ghost predicate OrdinaryNames(listing: seq<Source>) {
    && (forall i :: 0 <= i < |listing| && Fits(listing[i]) ==> |listing[i].name| <= 31 && listing[i].name != [DOT])
    && (forall i, j :: 0 <= i < j < |listing| && Fits(listing[i]) && Fits(listing[j]) ==>
          listing[i].name != listing[j].name)
  }

  lemma AcceptedNamesApart(listing: seq<Source>)
    requires OrdinaryNames(listing)
    ensures NamesApart(Accepted(listing))
  {
    var sources := Accepted(listing);
    forall f | 0 <= f < |sources| ensures ShortName(sources[f].name) != [DOT] {
      var i := AcceptedFits(listing, f);
      NameFits(listing[i].name);
    }
    forall f, g | 0 <= f < g < |sources| ensures ShortName(sources[f].name) != ShortName(sources[g].name) {
      var i := AcceptedFits(listing, f);
      var j := AcceptedFits(listing, g);
      NameFits(listing[i].name);
      NameFits(listing[j].name);
    }
  }

  // Any file of a directory with at most 32 that fit, opened by its own name,
  // gives back its bytes.
  method WriteThenReadByName(listing: seq<Source>, memory: seq<byte>, random: Random, i: nat, chunk: nat)
    returns (img: Option<seq<byte>>, data: seq<byte>)
    requires |memory| == BLOCK_SIZE && forall src :: src in listing ==> NoNul(src.name)
    requires OrdinaryNames(listing) && FitCount(listing) <= 32 && i < |listing| && Fits(listing[i])
    requires chunk > 0 && (BLOCK_SIZE % chunk == 0 || chunk % BLOCK_SIZE == 0)
    modifies random
    ensures if img.Some? then data == listing[i].data else random.Spent()
  {
    AcceptedNamesApart(listing);
    AcceptedCount(listing);
    CountedBefore(listing, i);
    FittingIsAccepted(listing, i);
    NameFits(listing[i].name);
    hide NamesApart;
    hide OrdinaryNames;
    hide Accepted;
    hide FitCount;
    img, data := WriteThenRead(listing, memory, random, listing[i].name, chunk, FitCount(listing[..i]));
  }

  lemma {:induction false} CountedBefore(listing: seq<Source>, i: nat)
    requires i < |listing| && Fits(listing[i])
    ensures FitCount(listing[..i]) < FitCount(listing)
  {
    var n := |listing| - 1;
    if i < n {
      CountedBefore(listing[..n], i);
      assert listing[..n][..i] == listing[..i];
    }
  }

  // The name "." opens the directory.
  lemma DotIsDirectory(img: seq<byte>, files: seq<FileBuffer>, sources: seq<Source>, numInodes: nat, numData: nat)
    requires IsImage(img, files, sources, numInodes, numData) && NamesApart(sources)
    ensures FindDentry(Parse(img).dentries, Truncated([DOT])) == Some(0)
    ensures Parse(img).dentries[0].filetype == DIRECTORY
  {
    EntriesAreParsed(img, files, sources, numInodes, numData);
    CountFiles(img, files, sources, numInodes, numData);
    hide IsImage;
    hide Parse;
    hide ShortName;
    var ds := Parse(img).dentries;
    forall j: nat | 0 < j < |ds| ensures ds[j].filename != [DOT] {
      var f: nat := j - 1;
      assert ds[f + 1].filename == ShortName(sources[f].name);
    }
    FoundLast(ds, [DOT], 0);
  }
}
