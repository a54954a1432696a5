/** Regular files on their way into the image: make_file allocates their blocks and queues their
    contents (contents.c, extent.c), and the queue becomes the image. */
module FileImages {
  import opened AllocateSpec
  import opened Allocate
  import opened Extents
  import opened Rounding
  import opened ByteSeqs
  import opened SparseFormat
  import BackedBlocks
  import SparseReader
  import SparseRoundTrip
  import SparseWriter

  type Db = BackedBlocks.Db

  datatype RegularFile = RegularFile(name: string, len: nat)

  // ---------------------------------------------------------------- the blocks of several files

  /** make_file: nothing is allocated for an empty file. */
  function MakeFile(gs: seq<Group>, len: nat, blockSize: nat): (f: FileBlocks)
    requires GroupsOk(gs) && blockSize > 0
    ensures GroupsOk(f.gs)
  {
    if len == 0 then FileBlocks(gs, [], [], 0, true)
    else
      AllocateFileKeeps(gs, DivRoundUp(len, blockSize));
      AllocateFile(gs, DivRoundUp(len, blockSize))
  }

  /** One file after the other. */
  function FilesMade(gs: seq<Group>, files: seq<RegularFile>, blockSize: nat): (fs: seq<FileBlocks>)
    requires GroupsOk(gs) && blockSize > 0
    ensures |fs| == |files|
    decreases |files|
  {
    if files == [] then []
    else
      var f := MakeFile(gs, files[0].len, blockSize);
      [f] + FilesMade(f.gs, files[1..], blockSize)
  }

  /** The block belongs to the file, or to its extent block. */
  ghost predicate Owns(f: FileBlocks, b: nat) {
    InRegions(f.oob + f.rs, b)
  }

  lemma MakeFileNew(gs: seq<Group>, len: nat, blockSize: nat, b: nat)
    requires GroupsOk(gs) && blockSize > 0
    ensures var f := MakeFile(gs, len, blockSize);
            && (HandedOut(gs, b) ==> HandedOut(f.gs, b))
            && (Owns(f, b) ==> !HandedOut(gs, b) && HandedOut(f.gs, b))
  {
    var n := DivRoundUp(len, blockSize);
    if len > 0 {
      if AllocateFile(gs, n).ok {
        AllocateFileOk(gs, n);
      } else {
        AllocateGrows(gs, n + 1);
      }
    }
  }

  lemma AllocateGrows(gs: seq<Group>, len: nat)
    requires GroupsOk(gs) && !AllocateSpec.Allocate(gs, len).ok
    ensures Grown(gs, AllocateSpec.Allocate(gs, len).gs)
  {
    MultipleGrows(gs, len);
  }

  lemma {:induction false} FilesNew(gs: seq<Group>, files: seq<RegularFile>, blockSize: nat, i: nat, b: nat)
    requires GroupsOk(gs) && blockSize > 0 && i < |files|
    ensures Owns(FilesMade(gs, files, blockSize)[i], b) ==> !HandedOut(gs, b)
    decreases i
  {
    MakeFileNew(gs, files[0].len, blockSize, b);
    if i > 0 {
      FilesNew(MakeFile(gs, files[0].len, blockSize).gs, files[1..], blockSize, i - 1, b);
    }
  }

  lemma FilesMadeAt(gs: seq<Group>, files: seq<RegularFile>, blockSize: nat, i: nat)
    requires GroupsOk(gs) && blockSize > 0 && i < |files|
    ensures var f := MakeFile(gs, files[0].len, blockSize);
            FilesMade(gs, files, blockSize)[i] == if i == 0 then f else FilesMade(f.gs, files[1..], blockSize)[i - 1]
  {
    FilesMadeParts(gs, files, blockSize);
    var f := MakeFile(gs, files[0].len, blockSize);
    ConcatAt([f], FilesMade(f.gs, files[1..], blockSize), i);
  }

  lemma FilesMadeParts(gs: seq<Group>, files: seq<RegularFile>, blockSize: nat)
    requires GroupsOk(gs) && blockSize > 0 && files != []
    ensures var f := MakeFile(gs, files[0].len, blockSize);
            FilesMade(gs, files, blockSize) == [f] + FilesMade(f.gs, files[1..], blockSize)
  {}

  lemma FirstApart(gs: seq<Group>, files: seq<RegularFile>, blockSize: nat, j: nat, b: nat)
    requires GroupsOk(gs) && blockSize > 0 && 0 < j < |files|
    ensures var fs := FilesMade(gs, files, blockSize); !(Owns(fs[0], b) && Owns(fs[j], b))
  {
    FilesMadeAt(gs, files, blockSize, 0);
    FilesMadeAt(gs, files, blockSize, j);
    MakeFileNew(gs, files[0].len, blockSize, b);
    FilesNew(MakeFile(gs, files[0].len, blockSize).gs, files[1..], blockSize, j - 1, b);
  }

  /** Main result: no block belongs to two files, even if some could not be allocated, as long as no file
      overran its extent block, which leaves the rest of the run undefined. */
  lemma {:induction false} FilesApart(gs: seq<Group>, files: seq<RegularFile>, blockSize: nat, i: nat, j: nat, b: nat)
    requires GroupsOk(gs) && blockSize > 0 && i < j < |files|
    ensures var fs := FilesMade(gs, files, blockSize); !(Owns(fs[i], b) && Owns(fs[j], b))
    decreases i
  {
    if i > 0 {
      FilesApart(MakeFile(gs, files[0].len, blockSize).gs, files[1..], blockSize, i - 1, j - 1, b);
      FilesMadeAt(gs, files, blockSize, i);
      FilesMadeAt(gs, files, blockSize, j);
    } else {
      FirstApart(gs, files, blockSize, j, b);
    }
  }

  // ---------------------------------------------------------------- what is queued for them

  /** extent_create_backing_file: the regions get the file's bytes, from offset on, until none are
      left. */
  function Backing(rs: seq<Region>, name: string, offset: nat, left: nat, blockSize: nat): (ds: seq<Db>)
    ensures |ds| <= |rs|
  {
    if left == 0 || rs == [] then []
    else
      var len := Min(Bytes(rs[0].len, blockSize), left);
      [BackedBlocks.Db(rs[0].block, len, BackedBlocks.File(name, offset))]
      + Backing(rs[1..], name, offset + len, left - len, blockSize)
  }

  /** Everything queued for a file; nothing if it has no inode. */
  function FileBacking(f: FileBlocks, file: RegularFile, blockSize: nat): seq<Db>
    requires blockSize > 0
  {
    if OutcomeOf(f, DivRoundUp(file.len, blockSize), blockSize).Done?
    then Backing(f.rs, file.name, 0, file.len, blockSize)
    else []
  }

  function AllBacking(gs: seq<Group>, files: seq<RegularFile>, blockSize: nat): seq<Db>
    requires GroupsOk(gs) && blockSize > 0
    decreases |files|
  {
    if files == [] then []
    else
      var f := MakeFile(gs, files[0].len, blockSize);
      FileBacking(f, files[0], blockSize) + AllBacking(f.gs, files[1..], blockSize)
  }

  /** Entry k writes at most the blocks of region k, from its first one on. */
  lemma {:induction false} BackingAt(rs: seq<Region>, name: string, offset: nat, left: nat, blockSize: nat, k: nat)
    requires blockSize > 0 && k < |Backing(rs, name, offset, left, blockSize)|
    requires forall i :: 0 <= i < |rs| ==> rs[i].len > 0
    ensures var d := Backing(rs, name, offset, left, blockSize)[k];
            && d.block == rs[k].block && 0 < d.Blocks(blockSize) <= rs[k].len && d.len > 0
            && d.source.File? && d.source.name == name && d.source.offset + d.len <= offset + left
    decreases k
  {
    var len := Min(Bytes(rs[0].len, blockSize), left);
    BytesMonotone(1, rs[0].len, blockSize);
    assert Bytes(1, blockSize) == blockSize;
    if k == 0 {
      BlocksAtMost(len, rs[0].len, blockSize);
    } else {
      BackingAt(rs[1..], name, offset + len, left - len, blockSize, k - 1);
    }
  }

  lemma BlocksAtMost(len: nat, blocks: nat, blockSize: nat)
    requires blockSize > 0 && len <= Bytes(blocks, blockSize)
    ensures DivRoundUp(len, blockSize) <= blocks
    ensures len > 0 ==> DivRoundUp(len, blockSize) > 0
  {
    var n := DivRoundUp(len, blockSize);
    RoundUpBounds(len, blockSize);
    if n > blocks {
      BytesAdd(blocks, 1, blockSize);
      assert Bytes(1, blockSize) == blockSize;
      BytesMonotone(blocks + 1, n, blockSize);
      assert false;
    }
  }

  /** The entry that holds byte x, and where in the file it starts. */
  lemma {:induction false} BackingPlace(rs: seq<Region>, name: string, offset: nat, left: nat, blockSize: nat, x: nat)
    returns (k: nat)
    requires blockSize > 0 && x < left <= Bytes(TotalLen(rs), blockSize)
    ensures var ds := Backing(rs, name, offset, left, blockSize);
            && k < |ds| && ds[k].source.File?
            && ds[k].source.offset == offset + Bytes(TotalLen(rs[..k]), blockSize)
            && ds[k].source.offset <= offset + x < ds[k].source.offset + ds[k].len
            && ds[k].len == Min(Bytes(rs[k].len, blockSize), left - Bytes(TotalLen(rs[..k]), blockSize))
  {
    assert Bytes(0, blockSize) == 0;
    assert rs != [];
    var len := Min(Bytes(rs[0].len, blockSize), left);
    BytesAdd(rs[0].len, TotalLen(rs[1..]), blockSize);
    if x < len {
      k := 0;
      assert rs[..0] == [];
    } else {
      var j := BackingPlace(rs[1..], name, offset + len, left - len, blockSize, x - len);
      k := j + 1;
      assert rs[..k][1..] == rs[1..][..j];
      BytesAdd(rs[0].len, TotalLen(rs[1..][..j]), blockSize);
    }
  }

  // ---------------------------------------------------------------- no two entries overlap

  predicate Covers(d: Db, b: nat, blockSize: nat)
    requires blockSize > 0
  {
    d.block <= b < d.block + d.Blocks(blockSize)
  }

  ghost predicate Apart(s: seq<Db>, blockSize: nat)
    requires blockSize > 0
  {
    forall i, j, b: nat {:trigger Covers(s[i], b, blockSize), Covers(s[j], b, blockSize)} ::
      0 <= i < j < |s| && Covers(s[i], b, blockSize) ==> !Covers(s[j], b, blockSize)
  }

  ghost predicate GroupsInside(gs: seq<Group>, totalBlks: nat) {
    forall i :: 0 <= i < |gs| ==> gs[i].firstBlock + gs[i].limit <= totalBlks
  }

  lemma MakeFilePlaces(gs: seq<Group>, len: nat, blockSize: nat, totalBlks: nat)
    requires GroupsOk(gs) && blockSize > 0 && GroupsInside(gs, totalBlks)
    ensures GroupsInside(MakeFile(gs, len, blockSize).gs, totalBlks)
  {
    var n := DivRoundUp(len, blockSize);
    if len > 0 {
      if AllocateFile(gs, n).ok {
        AllocateFileOk(gs, n);
      } else {
        AllocateGrows(gs, n + 1);
      }
    }
  }

  /** Entry k of a file lies in region k, which is new, inside its group, and no other region's. */
  lemma EntryInRegion(gs: seq<Group>, file: RegularFile, blockSize: nat, totalBlks: nat, k: nat, b: nat)
    requires GroupsOk(gs) && blockSize > 0 && GroupsInside(gs, totalBlks)
    requires k < |FileBacking(MakeFile(gs, file.len, blockSize), file, blockSize)|
    ensures var f := MakeFile(gs, file.len, blockSize);
            var d := FileBacking(f, file, blockSize)[k];
            && d.len > 0 && d.Blocks(blockSize) > 0
            && (Covers(d, b, blockSize) ==> && k < |f.rs| && f.rs[k].Holds(b) && b < totalBlks && Owns(f, b))
  {
    var n := DivRoundUp(file.len, blockSize);
    var f := MakeFile(gs, file.len, blockSize);
    assert file.len > 0;
    AllocateFileOk(gs, n);
    BackingAt(f.rs, file.name, 0, file.len, blockSize, k);
    var d := FileBacking(f, file, blockSize)[k];
    if Covers(d, b, blockSize) {
      assert (f.oob + f.rs)[|f.oob| + k] == f.rs[k];
      assert (f.oob + f.rs)[|f.oob| + k].Holds(b);
    }
  }

  lemma FileEntriesApart(gs: seq<Group>, file: RegularFile, blockSize: nat, totalBlks: nat)
    requires GroupsOk(gs) && blockSize > 0 && GroupsInside(gs, totalBlks)
    ensures Apart(FileBacking(MakeFile(gs, file.len, blockSize), file, blockSize), blockSize)
  {
    var f := MakeFile(gs, file.len, blockSize);
    var s := FileBacking(f, file, blockSize);
    forall i, j, b: nat | 0 <= i < j < |s| && Covers(s[i], b, blockSize)
      ensures !Covers(s[j], b, blockSize)
    {
      EntryInRegion(gs, file, blockSize, totalBlks, i, b);
      EntryInRegion(gs, file, blockSize, totalBlks, j, b);
      AllocateFileOk(gs, DivRoundUp(file.len, blockSize));
      RegionsApart(gs, f, i, j, b);
    }
  }

  lemma RegionsApart(gs: seq<Group>, f: FileBlocks, i: nat, j: nat, b: nat)
    requires Fresh(gs, f.gs, f.oob + f.rs) && i < j < |f.rs|
    ensures f.rs[i].Holds(b) ==> !f.rs[j].Holds(b)
  {
    var all := f.oob + f.rs;
    assert all[|f.oob| + i] == f.rs[i] && all[|f.oob| + j] == f.rs[j];
    assert f.rs[i].Holds(b) ==> all[|f.oob| + i].Holds(b);
  }

  lemma FirstEntryNew(gs: seq<Group>, file: RegularFile, blockSize: nat, totalBlks: nat, d: Db, b: nat)
    requires GroupsOk(gs) && blockSize > 0 && GroupsInside(gs, totalBlks)
    requires d in FileBacking(MakeFile(gs, file.len, blockSize), file, blockSize)
    ensures NewEntry(gs, d, blockSize, totalBlks, b)
  {
    var s := FileBacking(MakeFile(gs, file.len, blockSize), file, blockSize);
    var k :| 0 <= k < |s| && s[k] == d;
    MakeFileNew(gs, file.len, blockSize, b);
    EntryInRegion(gs, file, blockSize, totalBlks, k, b);
  }

  lemma AllBackingParts(gs: seq<Group>, files: seq<RegularFile>, blockSize: nat)
    requires GroupsOk(gs) && blockSize > 0 && AllBacking(gs, files, blockSize) != []
    ensures files != []
    ensures var f := MakeFile(gs, files[0].len, blockSize);
            AllBacking(gs, files, blockSize)
            == FileBacking(f, files[0], blockSize) + AllBacking(f.gs, files[1..], blockSize)
  {}

  lemma ConcatAt<T>(x: seq<T>, y: seq<T>, k: nat)
    requires k < |x + y|
    ensures k >= |x| ==> k - |x| < |y|
    ensures (x + y)[k] == if k < |x| then x[k] else y[k - |x|]
  {}

  /** All entries are queued for blocks that were free before. */
  lemma {:induction false} EntryNew(gs: seq<Group>, files: seq<RegularFile>, blockSize: nat, totalBlks: nat, d: Db,
                                    b: nat)
    requires GroupsOk(gs) && blockSize > 0 && GroupsInside(gs, totalBlks) && d in AllBacking(gs, files, blockSize)
    ensures NewEntry(gs, d, blockSize, totalBlks, b)
    decreases |files|
  {
    AllBackingParts(gs, files, blockSize);
    var f := MakeFile(gs, files[0].len, blockSize);
    if d in FileBacking(f, files[0], blockSize) {
      FirstEntryNew(gs, files[0], blockSize, totalBlks, d, b);
    } else {
      MakeFilePlaces(gs, files[0].len, blockSize, totalBlks);
      EntryNew(f.gs, files[1..], blockSize, totalBlks, d, b);
      StillNew(gs, files[0].len, d, blockSize, totalBlks, b);
    }
  }

  /** The entry is not empty, and its block b was free and lies in the image. */
  ghost predicate NewEntry(gs: seq<Group>, d: Db, blockSize: nat, totalBlks: nat, b: nat)
    requires blockSize > 0
  {
    && d.len > 0 && d.Blocks(blockSize) > 0
    && (Covers(d, b, blockSize) ==> !HandedOut(gs, b) && b < totalBlks)
  }

  lemma StillNew(gs: seq<Group>, len: nat, d: Db, blockSize: nat, totalBlks: nat, b: nat)
    requires GroupsOk(gs) && blockSize > 0
    ensures NewEntry(MakeFile(gs, len, blockSize).gs, d, blockSize, totalBlks, b) ==>
              NewEntry(gs, d, blockSize, totalBlks, b)
  {
    MakeFileNew(gs, len, blockSize, b);
  }

  lemma {:induction false} EntriesApart(gs: seq<Group>, files: seq<RegularFile>, blockSize: nat, totalBlks: nat)
    requires GroupsOk(gs) && blockSize > 0 && GroupsInside(gs, totalBlks)
    ensures Apart(AllBacking(gs, files, blockSize), blockSize)
    decreases |files|
  {
    if files != [] {
      var f := MakeFile(gs, files[0].len, blockSize);
      var first, rest := FileBacking(f, files[0], blockSize), AllBacking(f.gs, files[1..], blockSize);
      MakeFilePlaces(gs, files[0].len, blockSize, totalBlks);
      EntriesApart(f.gs, files[1..], blockSize, totalBlks);
      FileEntriesApart(gs, files[0], blockSize, totalBlks);
      forall i, j, b: nat | 0 <= i < |first| && 0 <= j < |rest| && Covers(first[i], b, blockSize)
        ensures !Covers(rest[j], b, blockSize)
      {
        EntryInRegion(gs, files[0], blockSize, totalBlks, i, b);
        MakeFileNew(gs, files[0].len, blockSize, b);
        EntryNew(f.gs, files[1..], blockSize, totalBlks, rest[j], b);
      }
      ConcatApart(first, rest, blockSize);
    }
  }

  lemma ConcatApart(x: seq<Db>, y: seq<Db>, blockSize: nat)
    requires blockSize > 0 && Apart(x, blockSize) && Apart(y, blockSize)
    requires forall i, j, b: nat {:trigger Covers(x[i], b, blockSize), Covers(y[j], b, blockSize)} ::
               0 <= i < |x| && 0 <= j < |y| && Covers(x[i], b, blockSize) ==> !Covers(y[j], b, blockSize)
    ensures Apart(x + y, blockSize)
  {
    var s := x + y;
    forall i, j, b: nat | 0 <= i < j < |s| && Covers(s[i], b, blockSize)
      ensures !Covers(s[j], b, blockSize)
    {
      assert s[i] == if i < |x| then x[i] else y[i - |x|];
      assert s[j] == if j < |x| then x[j] else y[j - |x|];
    }
  }

  /** The queue is free of overlaps, so it will be replayed in order without a report. */
  lemma BackingDisjoint(gs: seq<Group>, files: seq<RegularFile>, blockSize: nat, totalBlks: nat)
    requires GroupsOk(gs) && blockSize > 0 && GroupsInside(gs, totalBlks) && totalBlks <= 0x1_0000_0000
    ensures BackedBlocks.Disjoint(AllBacking(gs, files, blockSize), blockSize)
  {
    var s := AllBacking(gs, files, blockSize);
    EntriesApart(gs, files, blockSize, totalBlks);
    forall i | 0 <= i < |s|
      ensures s[i].Fits(blockSize) && s[i].Blocks(blockSize) > 0
    {
      EntryNew(gs, files, blockSize, totalBlks, s[i], 0);
      EntryNew(gs, files, blockSize, totalBlks, s[i], s[i].block + s[i].Blocks(blockSize) - 1);
    }
    forall i, j | 0 <= i < |s| && 0 <= j < |s| && i != j
      ensures s[i].Before(s[j], blockSize) || s[j].Before(s[i], blockSize)
    {
      assert s[i].Fits(blockSize) && s[j].Fits(blockSize);
      ApartPair(s, blockSize, i, j);
    }
  }

  lemma ApartPair(s: seq<Db>, blockSize: nat, i: nat, j: nat)
    requires blockSize > 0 && Apart(s, blockSize) && i < |s| && j < |s| && i != j
    requires s[i].Blocks(blockSize) > 0 && s[j].Blocks(blockSize) > 0
    ensures s[i].Before(s[j], blockSize) || s[j].Before(s[i], blockSize)
  {
    var b := if s[i].block >= s[j].block then s[i].block else s[j].block;
    assert (Covers(s[i], b, blockSize) && Covers(s[j], b, blockSize))
           || s[i].Before(s[j], blockSize) || s[j].Before(s[i], blockSize);
  }

  // ---------------------------------------------------------------- every byte of every file

  /** What write_data_file maps: a part of the file named. */
  function ReadDb(contents: string -> seq<bv8>, d: Db): (r: seq<bv8>)
    ensures |r| == d.len
  {
    if d.source.File? && d.source.offset + d.len <= |contents(d.source.name)|
    then contents(d.source.name)[d.source.offset..d.source.offset + d.len]
    else Zeros(d.len)
  }

  /** mmap takes an offset in the file only at the start of a page. */
  predicate CanMap(d: Db, pageSize: nat)
    requires pageSize > 0
  {
    d.source.File? ==> Aligned(d.source.offset, pageSize)
  }

  function Reader(contents: string -> seq<bv8>, pageSize: nat): Db -> SparseRoundTrip.Part
    requires pageSize > 0
  {
    d => SparseRoundTrip.Part(ReadDb(contents, d), CanMap(d, pageSize))
  }

  lemma ReaderLength(contents: string -> seq<bv8>, pageSize: nat)
    requires pageSize > 0
    ensures forall d :: |Reader(contents, pageSize)(d).data| == d.len
  {}

  lemma ReaderByte(contents: string -> seq<bv8>, pageSize: nat, d: Db, name: string, x: nat)
    requires pageSize > 0 && HoldsByte(d, name, |contents(name)|, x)
    ensures var part := Reader(contents, pageSize)(d);
            |part.data| == d.len && part.data[x - d.source.offset] == contents(name)[x]
  {}

  /** Where byte x of a file goes: into extent k, as far behind its start as in the file. */
  ghost predicate InExtent(e: Extent, x: nat, place: nat, blockSize: nat) {
    && Bytes(e.eeBlock, blockSize) <= x < Bytes(e.eeBlock + e.eeLen, blockSize)
    && place == Bytes(e.eeStart, blockSize) + (x - Bytes(e.eeBlock, blockSize))
  }

  /** The entry that holds byte x and the extent of the same region. */
  lemma ByteInBacking(rs: seq<Region>, name: string, len: nat, blockSize: nat, x: nat) returns (k: nat)
    requires blockSize > 0 && x < len <= Bytes(TotalLen(rs), blockSize)
    requires forall i :: 0 <= i < |rs| ==> rs[i].len > 0
    ensures var ds, es := Backing(rs, name, 0, len, blockSize), ExtentsFrom(rs, 0);
            && k < |ds| && k < |es| && HoldsByte(ds[k], name, len, x)
            && InExtent(es[k], x, PlaceIn(ds[k], x, blockSize), blockSize) && Fills(ds[k], es[k], len, blockSize)
  {
    k := BackingPlace(rs, name, 0, len, blockSize, x);
    BackingAt(rs, name, 0, len, blockSize, k);
    ExtentsAt(rs, 0, k);
    ExtentStartsAt(rs, 0, k);
    BytesAdd(TotalLen(rs[..k]), rs[k].len, blockSize);
  }

  /** Byte x of the file is among the bytes of the entry. */
  predicate HoldsByte(d: Db, name: string, len: nat, x: nat) {
    && d.source.File? && d.source.name == name && d.source.offset + d.len <= len
    && d.source.offset <= x < d.source.offset + d.len
  }

  /** Where it is written. */
  function PlaceIn(d: Db, x: nat, blockSize: nat): nat
    requires d.source.File? && d.source.offset <= x
  {
    Bytes(d.block, blockSize) + (x - d.source.offset)
  }

  /** The entry is the part of the file that belongs to the extent. */
  predicate Fills(d: Db, e: Extent, len: nat, blockSize: nat) {
    && d.source.File? && d.source.offset == Bytes(e.eeBlock, blockSize) <= len && d.block == e.eeStart
    && d.len == Min(Bytes(e.eeLen, blockSize), len - d.source.offset)
  }

  /** What is written for the extent of a file of that length arrives: its part of the file starts with a
      page, and it does not fill its blocks up to the end of the image. */
  predicate Shown(e: Extent, len: nat, blockSize: nat, totalBlks: nat, pageSize: nat)
    requires pageSize > 0
  {
    && Aligned(Bytes(e.eeBlock, blockSize), pageSize)
    && !(e.eeStart + e.eeLen == totalBlks && Bytes(e.eeBlock + e.eeLen, blockSize) <= len)
  }

  lemma FillsShown(d: Db, e: Extent, contents: string -> seq<bv8>, len: nat, blockSize: nat, totalBlks: nat,
                   pageSize: nat)
    requires blockSize > 0 && pageSize > 0 && Fills(d, e, len, blockSize) && e.eeStart + e.eeLen <= totalBlks
    ensures var w := SparseRoundTrip.WriteOf(d, blockSize, Reader(contents, pageSize));
            w.Accepted(Bytes(totalBlks, blockSize)) <==> Shown(e, len, blockSize, totalBlks, pageSize)
  {
    BytesAdd(e.eeStart, e.eeLen, blockSize);
    BytesAdd(e.eeBlock, e.eeLen, blockSize);
    BytesMonotone(e.eeStart + e.eeLen, totalBlks, blockSize);
    BytesMonotone(totalBlks, e.eeStart + e.eeLen, blockSize);
  }

  /** The same for a file that got an inode. */
  lemma ByteInEntry(gs: seq<Group>, file: RegularFile, blockSize: nat, x: nat) returns (k: nat)
    requires GroupsOk(gs) && blockSize > 0 && x < file.len
    requires OutcomeOf(MakeFile(gs, file.len, blockSize), DivRoundUp(file.len, blockSize), blockSize).Done?
    ensures var f := MakeFile(gs, file.len, blockSize);
            var es := OutcomeOf(f, DivRoundUp(file.len, blockSize), blockSize).inode.extents;
            var ds := FileBacking(f, file, blockSize);
            && k < |es| && k < |ds| && HoldsByte(ds[k], file.name, file.len, x)
            && InExtent(es[k], x, PlaceIn(ds[k], x, blockSize), blockSize) && Fills(ds[k], es[k], file.len, blockSize)
  {
    var n := DivRoundUp(file.len, blockSize);
    var f := MakeFile(gs, file.len, blockSize);
    AllocateFileOk(gs, n);
    RoundUpBounds(file.len, blockSize);
    k := ByteInBacking(f.rs, file.name, file.len, blockSize, x);
  }

  lemma EntryInside(gs: seq<Group>, file: RegularFile, blockSize: nat, totalBlks: nat, k: nat)
    requires GroupsOk(gs) && blockSize > 0 && GroupsInside(gs, totalBlks)
    requires k < |FileBacking(MakeFile(gs, file.len, blockSize), file, blockSize)|
    ensures var d := FileBacking(MakeFile(gs, file.len, blockSize), file, blockSize)[k];
            Bytes(d.block, blockSize) + d.len <= Bytes(totalBlks, blockSize)
  {
    var d := FileBacking(MakeFile(gs, file.len, blockSize), file, blockSize)[k];
    var n := d.Blocks(blockSize);
    EntryInRegion(gs, file, blockSize, totalBlks, k, 0);
    EntryInRegion(gs, file, blockSize, totalBlks, k, d.block + n - 1);
    RoundUpBounds(d.len, blockSize);
    BytesAdd(d.block, n, blockSize);
    BytesMonotone(d.block + n, totalBlks, blockSize);
  }

  /** No extent goes past the end of the image. */
  lemma ExtentInside(gs: seq<Group>, file: RegularFile, blockSize: nat, totalBlks: nat, k: nat)
    requires GroupsOk(gs) && blockSize > 0 && GroupsInside(gs, totalBlks) && file.len > 0
    requires AllocateFile(gs, DivRoundUp(file.len, blockSize)).ok
    requires k < |ExtentsFrom(MakeFile(gs, file.len, blockSize).rs, 0)|
    ensures var f := MakeFile(gs, file.len, blockSize);
            var e := ExtentsFrom(f.rs, 0)[k];
            0 < e.eeLen && e.eeStart + e.eeLen <= totalBlks && Owns(f, e.eeStart + e.eeLen - 1)
  {
    var n := DivRoundUp(file.len, blockSize);
    var f := MakeFile(gs, file.len, blockSize);
    AllocateFileOk(gs, n);
    ExtentsAt(f.rs, 0, k);
    var b := f.rs[k].block + f.rs[k].len - 1;
    assert (f.oob + f.rs)[|f.oob| + k] == f.rs[k];
    assert (f.oob + f.rs)[|f.oob| + k].Holds(b);
  }

  /** The groups that file i finds. */
  lemma {:induction false} GroupsFound(gs: seq<Group>, files: seq<RegularFile>, blockSize: nat, totalBlks: nat, i: nat)
    returns (g: seq<Group>)
    requires GroupsOk(gs) && blockSize > 0 && GroupsInside(gs, totalBlks) && i < |files|
    ensures GroupsOk(g) && GroupsInside(g, totalBlks)
    ensures FilesMade(gs, files, blockSize)[i] == MakeFile(g, files[i].len, blockSize)
    decreases i
  {
    if i == 0 {
      g := gs;
    } else {
      MakeFilePlaces(gs, files[0].len, blockSize, totalBlks);
      g := GroupsFound(MakeFile(gs, files[0].len, blockSize).gs, files[1..], blockSize, totalBlks, i - 1);
    }
  }

  lemma {:induction false} BackingOfFile(gs: seq<Group>, files: seq<RegularFile>, blockSize: nat, i: nat, d: Db)
    requires GroupsOk(gs) && blockSize > 0 && i < |files|
    requires d in FileBacking(FilesMade(gs, files, blockSize)[i], files[i], blockSize)
    ensures d in AllBacking(gs, files, blockSize)
    decreases i
  {
    if i > 0 {
      BackingOfFile(MakeFile(gs, files[0].len, blockSize).gs, files[1..], blockSize, i - 1, d);
    }
  }

  /** The image when the queue is replayed. */
  function QueueImage(s: seq<Db>, contents: string -> seq<bv8>, blockSize: nat, totalBlks: nat, pageSize: nat): seq<bv8>
    requires blockSize > 0 && pageSize > 0
  {
    SparseRoundTrip.Overlay(Zeros(Bytes(totalBlks, blockSize)), Writes(s, contents, blockSize, pageSize))
  }

  function Writes(s: seq<Db>, contents: string -> seq<bv8>, blockSize: nat, pageSize: nat): seq<SparseWriter.Write>
    requires pageSize > 0
  {
    SparseRoundTrip.WritesOf(s, blockSize, Reader(contents, pageSize))
  }

  /** No write is refused when the queue is replayed. */
  ghost predicate NoneRefused(s: seq<Db>, contents: string -> seq<bv8>, blockSize: nat, totalBlks: nat, pageSize: nat)
    requires blockSize > 0 && pageSize > 0
  {
    SparseRoundTrip.Accepted(Writes(s, contents, blockSize, pageSize), |s|, Bytes(totalBlks, blockSize))
  }

  /** Main result: every byte of a file that got an inode is in the image where the file's extents say,
      however many files were made before and after it, if and only if its extent is shown; otherwise
      there is a zero, and a write has been refused. */
  lemma FileByteInImage(gs: seq<Group>, files: seq<RegularFile>, contents: string -> seq<bv8>, blockSize: nat,
                        totalBlks: nat, pageSize: nat, i: nat, x: nat) returns (k: nat, place: nat)
    requires GroupsOk(gs) && blockSize > 0 && GroupsInside(gs, totalBlks) && totalBlks <= 0x1_0000_0000
    requires pageSize > 0 && i < |files| && x < files[i].len == |contents(files[i].name)|
    requires OutcomeOf(FilesMade(gs, files, blockSize)[i], DivRoundUp(files[i].len, blockSize), blockSize).Done?
    ensures var f := FilesMade(gs, files, blockSize)[i];
            var es := OutcomeOf(f, DivRoundUp(files[i].len, blockSize), blockSize).inode.extents;
            var queued := BackedBlocks.Queued(AllBacking(gs, files, blockSize));
            var image := QueueImage(queued, contents, blockSize, totalBlks, pageSize);
            && k < |es| && InExtent(es[k], x, place, blockSize) && place < |image|
            && image[place] == (if Shown(es[k], files[i].len, blockSize, totalBlks, pageSize)
                                then contents(files[i].name)[x] else 0)
            && (NoneRefused(queued, contents, blockSize, totalBlks, pageSize) ==>
                  Shown(es[k], files[i].len, blockSize, totalBlks, pageSize))
  {
    var g := GroupsFound(gs, files, blockSize, totalBlks, i);
    k := ByteInEntry(g, files[i], blockSize, x);
    EntryInside(g, files[i], blockSize, totalBlks, k);
    ExtentInside(g, files[i], blockSize, totalBlks, k);
    var f := FilesMade(gs, files, blockSize)[i];
    var d := FileBacking(f, files[i], blockSize)[k];
    place := PlaceIn(d, x, blockSize);
    BackingOfFile(gs, files, blockSize, i, d);
    BackingDisjoint(gs, files, blockSize, totalBlks);
    var e := ExtentsFrom(f.rs, 0)[k];
    EntryInImage(AllBacking(gs, files, blockSize), contents, blockSize, totalBlks, pageSize, d, e, files[i].name, x);
    if !Shown(e, files[i].len, blockSize, totalBlks, pageSize) {
      EntryRefused(AllBacking(gs, files, blockSize), contents, blockSize, totalBlks, pageSize, d, e, files[i].len);
    }
  }

  lemma EntryInImage(inserted: seq<Db>, contents: string -> seq<bv8>, blockSize: nat, totalBlks: nat,
                     pageSize: nat, d: Db, e: Extent, name: string, x: nat)
    requires blockSize > 0 && pageSize > 0 && BackedBlocks.Disjoint(inserted, blockSize) && d in inserted
    requires HoldsByte(d, name, |contents(name)|, x) && Fills(d, e, |contents(name)|, blockSize)
    requires Bytes(d.block, blockSize) + d.len <= Bytes(totalBlks, blockSize) && e.eeStart + e.eeLen <= totalBlks
    ensures var image := QueueImage(BackedBlocks.Queued(inserted), contents, blockSize, totalBlks, pageSize);
            var place := PlaceIn(d, x, blockSize);
            && place < |image|
            && image[place] == (if Shown(e, |contents(name)|, blockSize, totalBlks, pageSize) then contents(name)[x]
                                else 0)
  {
    ReaderByte(contents, pageSize, d, name, x);
    FillsShown(d, e, contents, |contents(name)|, blockSize, totalBlks, pageSize);
    QueuedPart(inserted, contents, blockSize, totalBlks, pageSize, d, x - d.source.offset);
  }

  lemma QueuedPart(inserted: seq<Db>, contents: string -> seq<bv8>, blockSize: nat, totalBlks: nat, pageSize: nat,
                   d: Db, p: nat)
    requires blockSize > 0 && pageSize > 0 && BackedBlocks.Disjoint(inserted, blockSize) && d in inserted
    requires p < d.len && Bytes(d.block, blockSize) + d.len <= Bytes(totalBlks, blockSize)
    ensures var image := QueueImage(BackedBlocks.Queued(inserted), contents, blockSize, totalBlks, pageSize);
            var w := SparseRoundTrip.WriteOf(d, blockSize, Reader(contents, pageSize));
            && Bytes(d.block, blockSize) + p < |image| && |w.data| == d.len
            && image[Bytes(d.block, blockSize) + p]
               == if w.Accepted(Bytes(totalBlks, blockSize)) then w.data[p] else 0
  {
    ReaderLength(contents, pageSize);
    SparseRoundTrip.QueuedBlockInImage(inserted, blockSize, totalBlks, Reader(contents, pageSize), d, p);
  }

  lemma EntryRefused(inserted: seq<Db>, contents: string -> seq<bv8>, blockSize: nat, totalBlks: nat,
                     pageSize: nat, d: Db, e: Extent, len: nat)
    requires blockSize > 0 && pageSize > 0 && BackedBlocks.Disjoint(inserted, blockSize) && d in inserted
    requires Fills(d, e, len, blockSize) && e.eeStart + e.eeLen <= totalBlks
    requires !Shown(e, len, blockSize, totalBlks, pageSize)
    ensures !NoneRefused(BackedBlocks.Queued(inserted), contents, blockSize, totalBlks, pageSize)
  {
    ReaderLength(contents, pageSize);
    FillsShown(d, e, contents, len, blockSize, totalBlks, pageSize);
    SparseRoundTrip.RefusedInQueue(inserted, blockSize, Reader(contents, pageSize), d, Bytes(totalBlks, blockSize));
  }

  // ---------------------------------------------------------------- make_file and what calls it

  /** Every byte is where an extent says, unless what is written for the extent does not arrive. */
  ghost predicate FileThere(image: seq<bv8>, inode: Inode, data: seq<bv8>, blockSize: nat, totalBlks: nat,
                            pageSize: nat)
    requires pageSize > 0
  {
    forall x: nat {:trigger data[x]} ::
      x < |data| ==> ByteThere(image, inode, data, blockSize, totalBlks, pageSize, x)
  }

  ghost predicate ByteThere(image: seq<bv8>, inode: Inode, data: seq<bv8>, blockSize: nat, totalBlks: nat,
                            pageSize: nat, x: nat)
    requires pageSize > 0 && x < |data|
  {
    exists k: nat, place: nat {:trigger InExtent(inode.extents[k], x, place, blockSize)} ::
      k < |inode.extents| && InExtent(inode.extents[k], x, place, blockSize) && place < |image|
      && image[place] == if Shown(inode.extents[k], |data|, blockSize, totalBlks, pageSize) then data[x] else 0
  }

  /** Every byte is where an extent says, without exception. */
  ghost predicate FilePresent(image: seq<bv8>, inode: Inode, data: seq<bv8>, blockSize: nat) {
    forall x: nat {:trigger data[x]} :: x < |data| ==> BytePresent(image, inode, data, blockSize, x)
  }

  ghost predicate BytePresent(image: seq<bv8>, inode: Inode, data: seq<bv8>, blockSize: nat, x: nat)
    requires x < |data|
  {
    exists k: nat, place: nat {:trigger InExtent(inode.extents[k], x, place, blockSize)} ::
      k < |inode.extents| && InExtent(inode.extents[k], x, place, blockSize)
      && place < |image| && image[place] == data[x]
  }

  /** Blocks of whole pages, and a last block of the image that the file does not own: then nothing is
      missing. */
  lemma AllShown(gs: seq<Group>, files: seq<RegularFile>, blockSize: nat, totalBlks: nat, pageSize: nat, i: nat, k: nat)
    requires GroupsOk(gs) && blockSize > 0 && GroupsInside(gs, totalBlks) && i < |files|
    requires pageSize > 0 && Aligned(blockSize, pageSize)
    requires totalBlks > 0 && !Owns(FilesMade(gs, files, blockSize)[i], totalBlks - 1)
    requires var r := OutcomeOf(FilesMade(gs, files, blockSize)[i], DivRoundUp(files[i].len, blockSize), blockSize);
             files[i].len > 0 && r.Done? && k < |r.inode.extents|
    ensures var r := OutcomeOf(FilesMade(gs, files, blockSize)[i], DivRoundUp(files[i].len, blockSize), blockSize);
            Shown(r.inode.extents[k], files[i].len, blockSize, totalBlks, pageSize)
  {
    var g := GroupsFound(gs, files, blockSize, totalBlks, i);
    ExtentInside(g, files[i], blockSize, totalBlks, k);
    AlignedTimes(ExtentsFrom(MakeFile(g, files[i].len, blockSize).rs, 0)[k].eeBlock, blockSize, pageSize);
  }

  lemma AlignedTimes(n: nat, blockSize: nat, pageSize: nat)
    requires pageSize > 0 && Aligned(blockSize, pageSize)
    ensures Aligned(Bytes(n, blockSize), pageSize)
  {
    var m := blockSize / pageSize;
    assert n * (m * pageSize) == (n * m) * pageSize;
    AlignedBytes(n * m, pageSize);
  }

  lemma FilesThere(gs: seq<Group>, files: seq<RegularFile>, contents: string -> seq<bv8>, blockSize: nat,
                   totalBlks: nat, pageSize: nat, i: nat)
    requires GroupsOk(gs) && blockSize > 0 && GroupsInside(gs, totalBlks) && totalBlks <= 0x1_0000_0000
    requires pageSize > 0 && i < |files| && files[i].len == |contents(files[i].name)|
    ensures var r := OutcomeOf(FilesMade(gs, files, blockSize)[i], DivRoundUp(files[i].len, blockSize), blockSize);
            var queued := BackedBlocks.Queued(AllBacking(gs, files, blockSize));
            var image := QueueImage(queued, contents, blockSize, totalBlks, pageSize);
            r.Done? ==>
              && FileThere(image, r.inode, contents(files[i].name), blockSize, totalBlks, pageSize)
              && (NoneRefused(queued, contents, blockSize, totalBlks, pageSize) ==>
                    FilePresent(image, r.inode, contents(files[i].name), blockSize))
  {
    var r := OutcomeOf(FilesMade(gs, files, blockSize)[i], DivRoundUp(files[i].len, blockSize), blockSize);
    var queued := BackedBlocks.Queued(AllBacking(gs, files, blockSize));
    var image := QueueImage(queued, contents, blockSize, totalBlks, pageSize);
    var data := contents(files[i].name);
    if r.Done? {
      forall x: nat | x < |data|
        ensures ByteThere(image, r.inode, data, blockSize, totalBlks, pageSize, x)
        ensures NoneRefused(queued, contents, blockSize, totalBlks, pageSize) ==>
                  BytePresent(image, r.inode, data, blockSize, x)
      {
        var k, place := FileByteInImage(gs, files, contents, blockSize, totalBlks, pageSize, i, x);
      }
    }
  }

  lemma QueuedAppend(inserted: seq<Db>, d: Db)
    ensures BackedBlocks.Queued(inserted + [d]) == BackedBlocks.Insert(BackedBlocks.Queued(inserted), d)
  {
    assert (inserted + [d])[..|inserted|] == inserted;
  }

  /** The backing still to be queued, from the region at hand on. */
  ghost predicate BackingLeft(whole: seq<Db>, done: seq<Db>, rs: seq<Region>, name: string, offset: nat, left: nat,
                              blockSize: nat) {
    whole == done + Backing(rs, name, offset, left, blockSize) && left <= Bytes(TotalLen(rs), blockSize)
  }

  lemma BackingStep(whole: seq<Db>, done: seq<Db>, rs: seq<Region>, name: string, offset: nat, left: nat,
                    blockSize: nat)
    requires left > 0 && BackingLeft(whole, done, rs, name, offset, left, blockSize)
    ensures && rs != []
            && var len := Min(Bytes(rs[0].len, blockSize), left);
               var d := BackedBlocks.Db(rs[0].block, len, BackedBlocks.File(name, offset));
               BackingLeft(whole, done + [d], rs[1..], name, offset + len, left - len, blockSize)
  {
    assert Bytes(0, blockSize) == 0;
    assert rs != [];
    BytesAdd(rs[0].len, TotalLen(rs[1..]), blockSize);
    var len := Min(Bytes(rs[0].len, blockSize), left);
    var d := BackedBlocks.Db(rs[0].block, len, BackedBlocks.File(name, offset));
    Appended(done, [d], Backing(rs[1..], name, offset + len, left - len, blockSize));
  }

  /** The state of the loop: done has been queued behind what was there, for rs it is still to do. */
  ghost predicate BackingState(q: BackedBlocks.Queue, inserted: seq<Db>, whole: seq<Db>, done: seq<Db>, rs: seq<Region>,
                               name: string, offset: nat, left: nat, blockSize: nat)
    reads q, q.Footprint()
  {
    && q.Valid() && q.contents == BackedBlocks.Queued(inserted + done)
    && BackingLeft(whole, done, rs, name, offset, left, blockSize)
  }

  /** One turn of it. */
  method QueueRegion(q: BackedBlocks.Queue, list: seq<Region>, i: nat, name: string, offset: nat, left: nat,
                     blockSize: nat, ghost inserted: seq<Db>, ghost whole: seq<Db>, ghost done: seq<Db>)
    returns (len: nat, ghost done': seq<Db>)
    requires left > 0 && i <= |list|
    requires BackingState(q, inserted, whole, done, list[i..], name, offset, left, blockSize)
    modifies q, q.Footprint()
    ensures len <= left && i < |list|
    ensures BackingState(q, inserted, whole, done', list[i + 1..], name, offset + len, left - len, blockSize)
    ensures fresh(q.Footprint() - old(q.Footprint()))
  {
    ghost var rs := list[i..];
    BackingStep(whole, done, rs, name, offset, left, blockSize);
    assert rs[0] == list[i] && rs[1..] == list[i + 1..];
    var region := list[i];
    len := Min(Bytes(region.len, blockSize), left);
    var d := BackedBlocks.Db(region.block, len, BackedBlocks.File(name, offset));
    done' := done + [d];
    QueuedAppend(inserted + done, d);
    Appended(inserted, done, [d]);
    q.QueueData(d);
  }

  lemma BackingStart(rs: seq<Region>, name: string, left: nat, blockSize: nat, inserted: seq<Db>)
    requires left <= Bytes(TotalLen(rs), blockSize)
    ensures BackingLeft(Backing(rs, name, 0, left, blockSize), [], rs[0..], name, 0, left, blockSize)
    ensures inserted + [] == inserted
  {
    assert rs[0..] == rs;
  }

  lemma BackingEnd(whole: seq<Db>, done: seq<Db>, rs: seq<Region>, name: string, offset: nat, blockSize: nat)
    requires BackingLeft(whole, done, rs, name, offset, 0, blockSize)
    ensures whole == done
  {}

  /** extent_create_backing_file, over the regions of the allocation. */
  method CreateBackingFile(list: seq<Region>, q: BackedBlocks.Queue, name: string, backingLen: nat,
                           blockSize: nat, ghost inserted: seq<Db>)
    requires backingLen <= Bytes(TotalLen(list), blockSize)
    requires q.Valid() && q.contents == BackedBlocks.Queued(inserted)
    modifies q, q.Footprint()
    ensures q.Valid() && fresh(q.Footprint() - old(q.Footprint()))
    ensures q.contents == BackedBlocks.Queued(inserted + Backing(list, name, 0, backingLen, blockSize))
  {
    var offset: nat, left: nat, i: nat := 0, backingLen, 0;
    ghost var whole, done: seq<Db> := Backing(list, name, 0, backingLen, blockSize), [];
    BackingStart(list, name, backingLen, blockSize, inserted);
    while left > 0
      invariant i <= |list|
      invariant BackingState(q, inserted, whole, done, list[i..], name, offset, left, blockSize)
      invariant fresh(q.Footprint() - old(q.Footprint()))
      decreases |list| - i
    {
      var len: nat;
      len, done := QueueRegion(q, list, i, name, offset, left, blockSize, inserted, whole, done);
      i, offset, left := i + 1, offset + len, left - len;
    }
    BackingEnd(whole, done, list[i..], name, offset, blockSize);
  }

  /** The queue and the groups do not get in each other's way. */
  method BackFile(a: Allocator, list: seq<Region>, q: BackedBlocks.Queue, name: string, backingLen: nat,
                  blockSize: nat, ghost inserted: seq<Db>)
    requires backingLen <= Bytes(TotalLen(list), blockSize)
    requires q.Valid() && q.contents == BackedBlocks.Queued(inserted) && a.Valid()
    modifies q, q.Footprint()
    ensures a.Valid() && a.Views() == old(a.Views())
    ensures q.Valid() && fresh(q.Footprint() - old(q.Footprint()))
    ensures q.contents == BackedBlocks.Queued(inserted + Backing(list, name, 0, backingLen, blockSize))
  {
    CreateBackingFile(list, q, name, backingLen, blockSize, inserted);
  }

  lemma EnoughRegions(gs: seq<Group>, len: nat, blockSize: nat)
    requires GroupsOk(gs) && blockSize > 0 && AllocateFile(gs, DivRoundUp(len, blockSize)).ok
    ensures len <= Bytes(TotalLen(AllocateFile(gs, DivRoundUp(len, blockSize)).rs), blockSize)
  {
    AllocateFileOk(gs, DivRoundUp(len, blockSize));
    RoundUpBounds(len, blockSize);
  }

  method AllocateBeside(a: Allocator, q: BackedBlocks.Queue, len: nat, blockSize: nat, ghost f: FileBlocks)
    returns (r: Outcome, list: seq<Region>)
    requires a.Separate() && a.Valid() && GroupsOk(a.Views()) && blockSize > 0 && q.Valid()
    requires f == AllocateFile(a.Views(), DivRoundUp(len, blockSize))
    modifies a.groups, a.Bitmaps()
    ensures a.Valid() && q.Valid() && a.Views() == f.gs
    ensures r == OutcomeOf(f, DivRoundUp(len, blockSize), blockSize)
    ensures r.Done? ==> list == f.rs && len <= Bytes(TotalLen(list), blockSize)
  {
    ghost var gs := a.Views();
    var alloc;
    r, alloc := InodeAllocateExtents(a, len, blockSize);
    list := if alloc == null then [] else alloc.list;
    if r.Done? {
      EnoughRegions(gs, len, blockSize);
    }
  }

  /** inode_allocate_file_extents. */
  method FileExtents(a: Allocator, q: BackedBlocks.Queue, file: RegularFile, blockSize: nat,
                     ghost inserted: seq<Db>, ghost f: FileBlocks) returns (r: Outcome)
    requires a.Separate() && a.Valid() && GroupsOk(a.Views()) && blockSize > 0
    requires q.Valid() && q.contents == BackedBlocks.Queued(inserted)
    requires f == AllocateFile(a.Views(), DivRoundUp(file.len, blockSize))
    modifies a.groups, a.Bitmaps(), q, q.Footprint()
    ensures a.Valid() && a.Views() == f.gs
    ensures q.Valid() && fresh(q.Footprint() - old(q.Footprint()))
    ensures r == OutcomeOf(f, DivRoundUp(file.len, blockSize), blockSize)
    ensures q.contents == BackedBlocks.Queued(inserted + FileBacking(f, file, blockSize))
  {
    assert inserted + [] == inserted;
    var list;
    r, list := AllocateBeside(a, q, file.len, blockSize, f);
    if r.Done? {
      BackFile(a, list, q, file.name, file.len, blockSize, inserted);
    }
  }

  /** make_file, as far as the blocks and the queue go. */
  method MakeRegularFile(a: Allocator, q: BackedBlocks.Queue, file: RegularFile, blockSize: nat,
                         ghost inserted: seq<Db>) returns (r: Outcome)
    requires a.Separate() && a.Valid() && GroupsOk(a.Views()) && blockSize > 0
    requires q.Valid() && q.contents == BackedBlocks.Queued(inserted)
    modifies a.groups, a.Bitmaps(), q, q.Footprint()
    ensures a.Valid() && q.Valid() && fresh(q.Footprint() - old(q.Footprint()))
    ensures var f := MakeFile(old(a.Views()), file.len, blockSize);
            && a.Views() == f.gs && r == OutcomeOf(f, DivRoundUp(file.len, blockSize), blockSize)
            && q.contents == BackedBlocks.Queued(inserted + FileBacking(f, file, blockSize))
  {
    if file.len == 0 {
      assert inserted + [] == inserted;
      return Done(Inode([], None, 0, Sectors(0, blockSize)));
    }
    ghost var f := MakeFile(a.Views(), file.len, blockSize);
    r := FileExtents(a, q, file, blockSize, inserted, f);
  }

  // ---------------------------------------------------------------- a directory of files, and the image

  /** The files from i on are still to do; what has been made and queued so far comes first. */
  ghost predicate FilesLeft(gs0: seq<Group>, files: seq<RegularFile>, blockSize: nat, gs: seq<Group>, i: nat,
                            made: seq<FileBlocks>, done: seq<Db>)
    requires blockSize > 0 && GroupsOk(gs0)
  {
    && GroupsOk(gs) && i <= |files| && |made| == i
    && FilesMade(gs0, files, blockSize) == made + FilesMade(gs, files[i..], blockSize)
    && AllBacking(gs0, files, blockSize) == done + AllBacking(gs, files[i..], blockSize)
  }

  lemma FilesStep(gs0: seq<Group>, files: seq<RegularFile>, blockSize: nat, gs: seq<Group>, i: nat,
                  made: seq<FileBlocks>, done: seq<Db>)
    requires blockSize > 0 && GroupsOk(gs0) && i < |files| && FilesLeft(gs0, files, blockSize, gs, i, made, done)
    ensures var f := MakeFile(gs, files[i].len, blockSize);
            FilesLeft(gs0, files, blockSize, f.gs, i + 1, made + [f], done + FileBacking(f, files[i], blockSize))
  {
    var f := MakeFile(gs, files[i].len, blockSize);
    FilesNext(gs, files, blockSize, i);
    var later, queued := FilesMade(f.gs, files[i + 1..], blockSize), AllBacking(f.gs, files[i + 1..], blockSize);
    Appended(made, [f], later);
    Appended(done, FileBacking(f, files[i], blockSize), queued);
  }

  lemma FilesNext(gs: seq<Group>, files: seq<RegularFile>, blockSize: nat, i: nat)
    requires blockSize > 0 && GroupsOk(gs) && i < |files|
    ensures var f := MakeFile(gs, files[i].len, blockSize);
            && FilesMade(gs, files[i..], blockSize) == [f] + FilesMade(f.gs, files[i + 1..], blockSize)
            && AllBacking(gs, files[i..], blockSize)
               == FileBacking(f, files[i], blockSize) + AllBacking(f.gs, files[i + 1..], blockSize)
  {
    var rest := files[i..];
    assert rest[0] == files[i] && rest[1..] == files[i + 1..];
  }

  lemma Appended<T>(x: seq<T>, y: seq<T>, z: seq<T>)
    ensures x + (y + z) == x + y + z
  {}

  ghost predicate OutcomesOf(outcomes: seq<Outcome>, made: seq<FileBlocks>, files: seq<RegularFile>, blockSize: nat)
    requires blockSize > 0 && |made| <= |files|
  {
    |outcomes| == |made| && forall i :: 0 <= i < |made| ==>
      outcomes[i] == OutcomeOf(made[i], DivRoundUp(files[i].len, blockSize), blockSize)
  }

  /** One turn of the loop below. */
  method MakeNext(a: Allocator, q: BackedBlocks.Queue, files: seq<RegularFile>, blockSize: nat,
                  outcomes: seq<Outcome>, ghost gs0: seq<Group>, ghost made: seq<FileBlocks>, ghost done: seq<Db>)
    returns (outcomes': seq<Outcome>, ghost made': seq<FileBlocks>, ghost done': seq<Db>)
    requires a.Separate() && a.Valid() && q.Valid() && blockSize > 0 && GroupsOk(gs0) && |outcomes| < |files|
    requires FilesLeft(gs0, files, blockSize, a.Views(), |outcomes|, made, done)
    requires OutcomesOf(outcomes, made, files, blockSize) && q.contents == BackedBlocks.Queued(done)
    modifies a.groups, a.Bitmaps(), q, q.Footprint()
    ensures a.Valid() && q.Valid() && fresh(q.Footprint() - old(q.Footprint()))
    ensures |outcomes'| == |outcomes| + 1 && FilesLeft(gs0, files, blockSize, a.Views(), |outcomes'|, made', done')
    ensures OutcomesOf(outcomes', made', files, blockSize) && q.contents == BackedBlocks.Queued(done')
  {
    var file := files[|outcomes|];
    ghost var f := MakeFile(a.Views(), file.len, blockSize);
    FilesStep(gs0, files, blockSize, a.Views(), |outcomes|, made, done);
    var r := MakeRegularFile(a, q, file, blockSize, done);
    made', done' := made + [f], done + FileBacking(f, file, blockSize);
    outcomes' := outcomes + [r];
  }

  /** The loop of build_directory_structure over its regular files. */
  method BuildDirectory(a: Allocator, q: BackedBlocks.Queue, files: seq<RegularFile>, blockSize: nat)
    returns (outcomes: seq<Outcome>)
    requires a.Separate() && a.Valid() && GroupsOk(a.Views()) && blockSize > 0
    requires q.Valid() && q.contents == []
    modifies a.groups, a.Bitmaps(), q, q.Footprint()
    ensures a.Valid() && q.Valid() && fresh(q.Footprint() - old(q.Footprint()))
    ensures OutcomesOf(outcomes, FilesMade(old(a.Views()), files, blockSize), files, blockSize)
    ensures q.contents == BackedBlocks.Queued(AllBacking(old(a.Views()), files, blockSize))
  {
    ghost var gs0 := a.Views();
    ghost var made: seq<FileBlocks>, done: seq<Db> := [], [];
    outcomes := [];
    assert files[0..] == files;
    assert [] + FilesMade(gs0, files, blockSize) == FilesMade(gs0, files, blockSize);
    assert [] + AllBacking(gs0, files, blockSize) == AllBacking(gs0, files, blockSize);
    while |outcomes| < |files|
      invariant |outcomes| <= |files| && FilesLeft(gs0, files, blockSize, a.Views(), |outcomes|, made, done)
      invariant OutcomesOf(outcomes, made, files, blockSize)
      invariant a.Valid() && q.Valid() && q.contents == BackedBlocks.Queued(done)
      invariant fresh(q.Footprint() - old(q.Footprint()))
    {
      outcomes, made, done := MakeNext(a, q, files, blockSize, outcomes, gs0, made, done);
    }
    assert made + [] == made && done + [] == done;
  }

  lemma WritesAscending(gs: seq<Group>, files: seq<RegularFile>, contents: string -> seq<bv8>, blockSize: nat,
                        totalBlks: nat, pageSize: nat)
    requires GroupsOk(gs) && blockSize > 0 && GroupsInside(gs, totalBlks) && totalBlks <= 0x1_0000_0000 && pageSize > 0
    ensures var s := BackedBlocks.Queued(AllBacking(gs, files, blockSize));
            !BackedBlocks.Reported(s, blockSize)
            && SparseRoundTrip.Ascending(Writes(s, contents, blockSize, pageSize), 0, blockSize)
  {
    var s := BackedBlocks.Queued(AllBacking(gs, files, blockSize));
    BackingDisjoint(gs, files, blockSize, totalBlks);
    BackedBlocks.ReplayAscending(AllBacking(gs, files, blockSize), blockSize);
    ReaderLength(contents, pageSize);
    SparseRoundTrip.FromTheStart(s, blockSize, Reader(contents, pageSize));
  }

  /** From a list of files to the expanded image, with all errors reported and passed over. Main result: as
      long as no extent block overran, every byte of every file that got an inode is there, where its extents
      say, unless its extent is not shown; if no write was refused, all of them are. */
  method BuildImage(a: Allocator, files: seq<RegularFile>, contents: string -> seq<bv8>, blockSize: nat, totalBlks: nat,
                    pageSize: nat)
    returns (outcomes: seq<Outcome>, reported: bool, refused: bool, r: SparseReader.Result)
    requires a.Separate() && a.Valid() && GroupsOk(a.Views()) && blockSize > 0 && pageSize > 0
    requires GroupsInside(a.Views(), totalBlks) && totalBlks < 0x1_0000_0000
    requires forall i :: 0 <= i < |files| ==> |contents(files[i].name)| == files[i].len
    modifies a.groups, a.Bitmaps()
    ensures OutcomesOf(outcomes, FilesMade(old(a.Views()), files, blockSize), files, blockSize) && !reported
    ensures r.Image? || r.Runaway?
    ensures r.Image? && Overrun !in outcomes ==>
              forall i :: 0 <= i < |files| && outcomes[i].Done? ==>
                && FileThere(r.bytes, outcomes[i].inode, contents(files[i].name), blockSize, totalBlks, pageSize)
                && (!refused ==> FilePresent(r.bytes, outcomes[i].inode, contents(files[i].name), blockSize))
  {
    ghost var gs := a.Views();
    var q := new BackedBlocks.Queue();
    outcomes := BuildDirectory(a, q, files, blockSize);
    var calls;
    calls, reported := q.ForEach(blockSize);
    WritesAscending(gs, files, contents, blockSize, totalBlks, pageSize);
    r, refused := SparseRoundTrip.WriteAndExpand(Writes(calls, contents, blockSize, pageSize), blockSize, totalBlks);
    forall i | 0 <= i < |files|
      ensures var image := QueueImage(calls, contents, blockSize, totalBlks, pageSize);
              outcomes[i].Done? ==>
                && FileThere(image, outcomes[i].inode, contents(files[i].name), blockSize, totalBlks, pageSize)
                && (!refused ==> FilePresent(image, outcomes[i].inode, contents(files[i].name), blockSize))
    {
      FilesThere(gs, files, contents, blockSize, totalBlks, pageSize, i);
    }
  }
}
