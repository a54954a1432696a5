/** do_inode_allocate_extents: allocate the blocks of a file and describe them by extents. */
module Extents {
  import opened AllocateSpec
  import opened BlockGroups
  import opened Allocate
  import opened AllocateCount
  import opened Rounding

  datatype Extent = Extent(eeBlock: nat, eeLen: nat, eeStart: nat)

  /** What is written to the inode: the extents, either in the inode itself or in the extent block
      leaf, and the number of 512-byte sectors. */
  datatype Inode = Inode(extents: seq<Extent>, leaf: Option<nat>, entries: nat, sectors: nat)

  /** What the caller gets: an inode, an error, or a run of the loop past the end of the extent
      block. */
  datatype Outcome = Done(inode: Inode) | Failed | Overrun

  const MAX_INODE_EXTENTS := 3

  /** The inode has room for a header of 12 bytes and four extents of 12 bytes. */
  const INODE_ROOM := 4

  /** The number of extents that fit into an extent block behind its header. */
  function LeafRoom(blockSize: nat): nat {
    if blockSize < 12 then 0 else (blockSize - 12) / 12
  }

  /** Blocks counted in units of 512 bytes. */
  function Sectors(blocks: nat, blockSize: nat): nat {
    blocks * blockSize / 512
  }

  // ---------------------------------------------------------------- extents

  /** The extents of a list of regions, the first of which starts at file block f. */
  function ExtentsFrom(rs: seq<Region>, f: nat): (es: seq<Extent>)
    ensures |es| == |rs|
  {
    if rs == [] then []
    else [Extent(f, rs[0].len, rs[0].block)] + ExtentsFrom(rs[1..], f + rs[0].len)
  }

  /** The extents cover the file blocks from f to f + n, in order, without gap or overlap. */
  ghost predicate Tiles(es: seq<Extent>, f: nat, n: nat) {
    if es == [] then n == 0
    else es[0].eeBlock == f && 0 < es[0].eeLen <= n && Tiles(es[1..], f + es[0].eeLen, n - es[0].eeLen)
  }

  lemma {:induction false} ExtentsTile(rs: seq<Region>, f: nat)
    requires forall k :: 0 <= k < |rs| ==> rs[k].len > 0
    ensures Tiles(ExtentsFrom(rs, f), f, TotalLen(rs))
  {
    if rs != [] {
      ExtentsTile(rs[1..], f + rs[0].len);
      assert ExtentsFrom(rs, f)[1..] == ExtentsFrom(rs[1..], f + rs[0].len);
    }
  }

  lemma {:induction false} ExtentsAt(rs: seq<Region>, f: nat, k: nat)
    requires k < |rs|
    ensures ExtentsFrom(rs, f)[k].eeStart == rs[k].block && ExtentsFrom(rs, f)[k].eeLen == rs[k].len
  {
    if k > 0 {
      ExtentsAt(rs[1..], f + rs[0].len, k - 1);
    }
  }

  lemma {:induction false} ExtentStartsAt(rs: seq<Region>, f: nat, k: nat)
    requires k < |rs|
    ensures ExtentsFrom(rs, f)[k].eeBlock == f + TotalLen(rs[..k])
  {
    if k > 0 {
      assert rs[..k][1..] == rs[1..][..k - 1];
      ExtentStartsAt(rs[1..], f + rs[0].len, k - 1);
    }
  }

  lemma {:induction false} ExtentsAppend(rs: seq<Region>, r: Region, f: nat)
    ensures ExtentsFrom(rs + [r], f) == ExtentsFrom(rs, f) + [Extent(f + TotalLen(rs), r.len, r.block)]
    ensures TotalLen(rs + [r]) == TotalLen(rs) + r.len
  {
    if rs == [] {
      assert rs + [r] == [r];
    } else {
      assert (rs + [r])[1..] == rs[1..] + [r];
      ExtentsAppend(rs[1..], r, f + rs[0].len);
    }
  }

  /** Tiling means that every file block is mapped by exactly one extent. */
  lemma {:induction false} TilesMapOnce(es: seq<Extent>, f: nat, n: nat, b: nat) returns (k: nat)
    requires Tiles(es, f, n) && f <= b < f + n
    ensures k < |es| && es[k].eeBlock <= b < es[k].eeBlock + es[k].eeLen
    ensures forall j :: 0 <= j < |es| && es[j].eeBlock <= b < es[j].eeBlock + es[j].eeLen ==> j == k
  {
    if b < f + es[0].eeLen {
      k := 0;
      forall j | 0 < j < |es|
        ensures es[j].eeBlock >= f + es[0].eeLen
      {
        TilesAbove(es[1..], f + es[0].eeLen, n - es[0].eeLen, j - 1);
      }
    } else {
      var k' := TilesMapOnce(es[1..], f + es[0].eeLen, n - es[0].eeLen, b);
      k := k' + 1;
      forall j | 0 <= j < |es| && es[j].eeBlock <= b < es[j].eeBlock + es[j].eeLen
        ensures j == k
      {
        assert j > 0 ==> es[1..][j - 1] == es[j];
      }
    }
  }

  lemma {:induction false} TilesAbove(es: seq<Extent>, f: nat, n: nat, j: nat)
    requires Tiles(es, f, n) && j < |es|
    ensures es[j].eeBlock >= f
  {
    if j > 0 {
      TilesAbove(es[1..], f + es[0].eeLen, n - es[0].eeLen, j - 1);
    }
  }

  // ---------------------------------------------------------------- the extent block

  /** reserve_oob_blocks(alloc, 1) on a fresh allocation: its first block is split off for the extent
      block, the rest of the first region stays. */
  function SplitFirst(rs: seq<Region>): (seq<Region>, Region)
    requires rs != [] && rs[0].len >= 2
  {
    var r := rs[0];
    (rs[0 := Region(r.block + 1, r.len - 1, r.bg)], Region(r.block, 1, r.bg))
  }

  lemma SplitFirstFresh(gs: seq<Group>, gs': seq<Group>, rs: seq<Region>)
    requires Fresh(gs, gs', rs) && rs != [] && rs[0].len >= 2
    ensures var (rest, oob) := SplitFirst(rs);
            && Fresh(gs, gs', [oob] + rest)
            && TotalLen(rest) == TotalLen(rs) - 1
  {
    var (rest, oob) := SplitFirst(rs);
    var all := [oob] + rest;
    assert rest[1..] == rs[1..];
    forall b: nat
      ensures InRegions(all, b) <==> InRegions(rs, b)
    {
      SplitFirstRegions(rs, b);
    }
    forall k, b: nat | 0 <= k < |all| && all[k].Holds(b)
      ensures !HandedOut(gs, b) && gs[all[k].bg].Covers(b)
    {
      assert k == 0 || k == 1 ==> rs[0].Holds(b);
      assert k > 1 ==> all[k] == rs[k - 1] && rs[k - 1].Holds(b);
    }
    forall j, k, b: nat | 0 <= j < k < |all| && all[j].Holds(b)
      ensures !all[k].Holds(b)
    {
      assert j == 0 || j == 1 ==> rs[0].Holds(b);
      assert j > 1 ==> all[j] == rs[j - 1];
      assert k > 1 ==> all[k] == rs[k - 1];
    }
  }

  lemma SplitFirstRegions(rs: seq<Region>, b: nat)
    requires rs != [] && rs[0].len >= 2
    ensures var (rest, oob) := SplitFirst(rs);
            InRegions([oob] + rest, b) <==> InRegions(rs, b)
  {
    var (rest, oob) := SplitFirst(rs);
    var all := [oob] + rest;
    if InRegions(all, b) {
      var k :| 0 <= k < |all| && all[k].Holds(b);
      assert if k <= 1 then rs[0].Holds(b) else rs[k - 1].Holds(b);
    }
    if InRegions(rs, b) {
      var k :| 0 <= k < |rs| && rs[k].Holds(b);
      assert if k > 0 then all[k + 1].Holds(b) else all[0].Holds(b) || all[1].Holds(b);
    }
  }

  ghost predicate LimitsAtMost(gs: seq<Group>, m: nat) {
    forall i :: 0 <= i < |gs| ==> gs[i].limit <= m
  }

  ghost predicate LensAtMost(es: seq<Extent>, m: nat) {
    forall k :: 0 <= k < |es| ==> es[k].eeLen <= m
  }

  /** A fresh region lies between the header and the end of its group. */
  lemma RegionBounded(gs: seq<Group>, gs': seq<Group>, rs: seq<Region>, k: nat, m: nat)
    requires Fresh(gs, gs', rs) && k < |rs| && LimitsAtMost(gs, m)
    ensures rs[k].len <= m
  {
    if rs[k].len > 0 {
      var lo: nat, hi: nat := rs[k].block, rs[k].block + rs[k].len - 1;
      assert rs[k].Holds(lo) && rs[k].Holds(hi);
      assert !HandedOut(gs, lo) && !HandedOut(gs, hi);
    }
  }

  // ---------------------------------------------------------------- the blocks of a file

  /** The groups afterwards, the regions of the file and of its extent block, and the number of
      regions before either adjustment. */
  datatype FileBlocks = FileBlocks(gs: seq<Group>, rs: seq<Region>, oob: seq<Region>, count: nat, ok: bool)

  /** n blocks and one more are allocated; with few enough regions the extra one goes back, otherwise
      it is set aside for the extent block. */
  function AllocateFile(gs: seq<Group>, n: nat): (f: FileBlocks)
    requires GroupsOk(gs)
    ensures f.ok ==> |f.oob| == if f.count > MAX_INODE_EXTENTS then 1 else 0
    ensures f.ok ==> if f.count > MAX_INODE_EXTENTS then |f.rs| == f.count else |f.rs| <= f.count
  {
    var g := AllocateSpec.Allocate(gs, n + 1);
    if !g.ok then FileBlocks(g.gs, [], [], 0, false)
    else
      FirstRegion(gs, n + 1);
      if |g.regions| <= MAX_INODE_EXTENTS then
        var (gs2, rs2) := ReduceOne(g.gs, g.regions);
        FileBlocks(gs2, rs2, [], |g.regions|, true)
      else
        var (rest, oob) := SplitFirst(g.regions);
        FileBlocks(g.gs, rest, [oob], |g.regions|, true)
  }

  lemma FirstRegion(gs: seq<Group>, len: nat)
    requires GroupsOk(gs) && len > 0 && AllocateSpec.Allocate(gs, len).ok
    ensures var g := AllocateSpec.Allocate(gs, len);
            && g.regions != [] && OnTop(g.gs, g.regions[0]) && g.regions[0].len >= 1
            && (|g.regions| > 1 ==> g.regions[0].len >= 2)
  {
    AllocateGranted(gs, len);
  }

  /** The file's n blocks and those of the extent block are new, and all that was taken. */
  ghost predicate FileOk(gs: seq<Group>, f: FileBlocks, n: nat) {
    && GroupsOk(f.gs) && SamePlaces(gs, f.gs) && Fresh(gs, f.gs, f.oob + f.rs) && TotalLen(f.rs) == n
    && TotalFree(f.gs) == TotalFree(gs) - n - |f.oob|
    && (forall k :: 0 <= k < |f.rs| ==> f.rs[k].len > 0)
    && (if n > 0 then |f.rs| == f.count > 0 else f.rs == [] && f.count == 1)
    && (if f.count > MAX_INODE_EXTENTS then |f.oob| == 1 && f.oob[0].len == 1 else f.oob == [])
  }

  lemma AllocateFileOk(gs: seq<Group>, n: nat)
    requires GroupsOk(gs) && AllocateFile(gs, n).ok
    ensures FileOk(gs, AllocateFile(gs, n), n)
  {
    AllocateGranted(gs, n + 1);
    var g := AllocateSpec.Allocate(gs, n + 1);
    if |g.regions| <= MAX_INODE_EXTENTS {
      FileReduced(gs, g.gs, g.regions, n);
    } else {
      FileSplit(gs, g.gs, g.regions, n);
    }
  }

  lemma FileReduced(gs: seq<Group>, gs1: seq<Group>, rs: seq<Region>, n: nat)
    requires GroupsOk(gs) && Granted(gs, gs1, rs, n + 1) && rs != [] && |rs| <= MAX_INODE_EXTENTS
    ensures var (gs2, rs2) := ReduceOne(gs1, rs);
            FileOk(gs, FileBlocks(gs2, rs2, [], |rs|, true), n)
  {
    ReduceOneGranted(gs, gs1, rs, n + 1);
    var rs2 := ReduceOne(gs1, rs).1;
    assert [] + rs2 == rs2;
    if n == 0 {
      AllLenZero(rs2);
      SingleBlock(rs);
    }
  }

  lemma FileSplit(gs: seq<Group>, gs1: seq<Group>, rs: seq<Region>, n: nat)
    requires Granted(gs, gs1, rs, n + 1) && |rs| > MAX_INODE_EXTENTS
    ensures var (rest, oob) := SplitFirst(rs);
            FileOk(gs, FileBlocks(gs1, rest, [oob], |rs|, true), n)
  {
    SplitFirstFresh(gs, gs1, rs);
    if n == 0 {
      SingleBlock(rs);
    }
  }

  lemma AllLenZero(rs: seq<Region>)
    requires TotalLen(rs) == 0 && forall k :: 0 <= k < |rs| ==> rs[k].len > 0
    ensures rs == []
  {}

  lemma SingleBlock(rs: seq<Region>)
    requires TotalLen(rs) == 1 && forall k :: 0 <= k < |rs| ==> rs[k].len > 0
    ensures |rs| == 1
  {
    AllLenZero(rs[1..]);
  }

  lemma AllocateFileKeeps(gs: seq<Group>, n: nat)
    requires GroupsOk(gs)
    ensures GroupsOk(AllocateFile(gs, n).gs)
  {
    if AllocateFile(gs, n).ok {
      AllocateFileOk(gs, n);
    } else {
      AllocateKeepsGroups(gs, n + 1);
    }
  }

  /** The same on the groups in memory. */
  method AllocateForFile(a: Allocator, n: nat) returns (alloc: BlockAllocation?, count: nat)
    requires a.Separate() && a.Valid() && GroupsOk(a.Views())
    modifies a.groups, a.Bitmaps()
    ensures a.Valid() && GroupsOk(a.Views())
    ensures var f := AllocateFile(old(a.Views()), n);
            && a.Views() == f.gs && (alloc != null <==> f.ok) && count == f.count
            && (alloc != null ==> fresh(alloc) && alloc.list == f.rs && alloc.oob == f.oob && alloc.iter == 0)
  {
    ghost var gs := a.Views();
    alloc := a.AllocateBlocks(n + 1);
    count := 0;
    if alloc != null {
      FirstRegion(gs, n + 1);
      count := ReturnOrSetAside(a, alloc);
    }
    AllocateFileKeeps(gs, n);
  }

  /** The extra block goes back with at most three regions, and is set aside with more. */
  method ReturnOrSetAside(a: Allocator, alloc: BlockAllocation) returns (count: nat)
    requires a.Separate() && a.Valid()
    requires alloc.list != [] && alloc.last == 0 && alloc.oob == [] && alloc.iter == 0
    requires OnTop(a.Views(), alloc.list[0]) && alloc.list[0].len >= 1
    requires |alloc.list| > 1 ==> alloc.list[0].len >= 2
    modifies a.groups, a.Bitmaps(), alloc
    ensures a.Valid() && count == |old(alloc.list)| && alloc.iter == 0
    ensures count <= MAX_INODE_EXTENTS ==>
              (a.Views(), alloc.list) == ReduceOne(old(a.Views()), old(alloc.list)) && alloc.oob == []
    ensures count > MAX_INODE_EXTENTS ==>
              && a.Views() == old(a.Views())
              && alloc.list == SplitFirst(old(alloc.list)).0 && alloc.oob == [SplitFirst(old(alloc.list)).1]
  {
    count := |alloc.list|;
    if count <= MAX_INODE_EXTENTS {
      a.ReduceByOne(alloc);
    } else {
      var split := SplitFirst(alloc.list);
      alloc.list, alloc.oob := split.0, [split.1];
    }
  }

  // ---------------------------------------------------------------- do_inode_allocate_extents

  /** The inode written for the blocks of a file of n blocks. */
  function InodeOf(f: FileBlocks, n: nat, blockSize: nat): Inode {
    Inode(ExtentsFrom(f.rs, 0), if f.oob == [] then None else Some(f.oob[0].block), f.count,
          Sectors(n + |f.oob|, blockSize))
  }

  /** The outcome. The source compares the number of extents with blockSize - 1, and then fills an
      extent block that has room for fewer. */
  function OutcomeOf(f: FileBlocks, n: nat, blockSize: nat): Outcome
    requires blockSize > 0
  {
    if !f.ok then Failed
    else if f.count > MAX_INODE_EXTENTS && blockSize - 1 < f.count then Failed
    else if f.count > MAX_INODE_EXTENTS && LeafRoom(blockSize) < f.count then Overrun
    else Done(InodeOf(f, n, blockSize))
  }

  /** do_inode_allocate_extents. */
  method InodeAllocateExtents(a: Allocator, len: nat, blockSize: nat)
    returns (r: Outcome, alloc: BlockAllocation?)
    requires a.Separate() && a.Valid() && GroupsOk(a.Views()) && blockSize > 0
    modifies a.groups, a.Bitmaps()
    ensures a.Valid() && GroupsOk(a.Views())
    ensures var n := DivRoundUp(len, blockSize);
            var f := AllocateFile(old(a.Views()), n);
            && a.Views() == f.gs && r == OutcomeOf(f, n, blockSize)
            && (r.Done? ==> alloc != null && fresh(alloc) && alloc.list == f.rs && alloc.iter == 0)
  {
    var blockLen := DivRoundUp(len, blockSize);
    ghost var f := AllocateFile(a.Views(), blockLen);
    var count;
    alloc, count := AllocateForFile(a, blockLen);
    if alloc == null {
      return Failed, null;
    }
    ghost var views := a.Views();
    r := FillInode(alloc, count, blockLen, blockSize, f);
    assert a.Views() == views;
  }

  /** The rest of it, once the blocks are there. */
  method FillInode(alloc: BlockAllocation, count: nat, blockLen: nat, blockSize: nat, ghost f: FileBlocks)
    returns (r: Outcome)
    requires alloc.iter == 0 && blockSize > 0
    requires f.ok && alloc.list == f.rs && alloc.oob == f.oob && count == f.count
    requires |alloc.oob| == if count > MAX_INODE_EXTENTS then 1 else 0
    requires if count > MAX_INODE_EXTENTS then |alloc.list| == count else |alloc.list| <= count
    modifies alloc`iter
    ensures alloc.iter == 0
    ensures r == OutcomeOf(f, blockLen, blockSize)
  {
    var leaf: Option<nat> := None;
    var room := INODE_ROOM;
    if count > MAX_INODE_EXTENTS {
      leaf := Some(alloc.oob[0].block);
      if blockSize - 1 < count {
        return Failed;
      }
      room := LeafRoom(blockSize);
    }
    var extent := new Extent[room](_ => Extent(0, 0, 0));
    var fits := WriteExtents(alloc, extent);
    alloc.iter := 0;
    if !fits {
      return Overrun;
    }
    var blocks := if leaf.Some? then blockLen + 1 else blockLen;
    r := Done(Inode(extent[..|alloc.list|], leaf, count, Sectors(blocks, blockSize)));
  }

  /** The loop over the regions that fills in the extents. The source goes on where there is no room
      left; here it stops there. */
  method WriteExtents(alloc: BlockAllocation, extent: array<Extent>) returns (fits: bool)
    requires alloc.iter == 0
    modifies alloc`iter, extent
    ensures fits <==> |alloc.list| <= extent.Length
    ensures fits ==> extent[..|alloc.list|] == ExtentsFrom(alloc.list, 0)
    ensures !fits ==> extent[..] == ExtentsFrom(alloc.list, 0)[..extent.Length]
  {
    var fileBlock := 0;
    ghost var list := alloc.list;
    while alloc.iter < |alloc.list|
      invariant alloc.list == list && alloc.iter <= |list| && alloc.iter <= extent.Length
      invariant extent[..alloc.iter] == ExtentsFrom(list[..alloc.iter], 0)
      invariant fileBlock == TotalLen(list[..alloc.iter])
    {
      ghost var i := alloc.iter;
      if alloc.iter == extent.Length {
        ExtentsPrefix(list, 0, i);
        assert extent[..] == extent[..i];
        return false;
      }
      var region := alloc.list[alloc.iter];
      ExtentsAppend(list[..i], region, 0);
      assert list[..i + 1] == list[..i] + [region];
      extent[alloc.iter] := Extent(fileBlock, region.len, region.block);
      assert extent[..i + 1] == extent[..i] + [extent[i]];
      fileBlock := fileBlock + region.len;
      alloc.iter := alloc.iter + 1;
    }
    assert list[..|list|] == list;
    fits := true;
  }

  lemma {:induction false} ExtentsPrefix(rs: seq<Region>, f: nat, i: nat)
    requires i <= |rs|
    ensures ExtentsFrom(rs[..i], f) == ExtentsFrom(rs, f)[..i]
  {
    if i > 0 {
      assert rs[..i][1..] == rs[1..][..i - 1];
      ExtentsPrefix(rs[1..], f + rs[0].len, i - 1);
    }
  }

  /** Exactly when the loop leaves the extent block: its header and extents take more bytes than the
      block has, and yet the bound of the source lets them pass. */
  lemma OverrunExactly(f: FileBlocks, n: nat, blockSize: nat)
    requires blockSize > 0 && f.ok && f.count > MAX_INODE_EXTENTS
    ensures OutcomeOf(f, n, blockSize).Done? <==> 12 + 12 * f.count <= blockSize
    ensures OutcomeOf(f, n, blockSize).Overrun? <==> f.count <= blockSize - 1 < 12 + 12 * f.count - 1
  {
    if blockSize >= 12 {
      assert f.count <= (blockSize - 12) / 12 <==> 12 * f.count <= blockSize - 12;
    }
  }

  lemma ExtentsFit(f: FileBlocks, n: nat, blockSize: nat)
    requires blockSize > 0 && OutcomeOf(f, n, blockSize).Done? && |f.rs| <= f.count
    requires f.oob == [] <==> f.count <= MAX_INODE_EXTENTS
    ensures var inode := OutcomeOf(f, n, blockSize).inode;
            12 + 12 * |inode.extents| <= if inode.leaf.Some? then blockSize else 60
  {
    if f.count > MAX_INODE_EXTENTS {
      OverrunExactly(f, n, blockSize);
    }
  }

  /** The number of extents of a file that no group can hold: one for every untouched group among the
      first ones that have enough blocks. */
  lemma FileCount(gs: seq<Group>, n: nat, c: nat)
    requires GroupsOk(gs) && JustEnough(gs, c, n + 1)
    requires forall i :: 0 <= i < |gs| ==> gs[i].free <= n
    ensures AllocateFile(gs, n).ok && AllocateFile(gs, n).count == Untouched(gs[..c])
  {
    AllocateCounts(gs, c, n + 1);
  }

  /** The groups decide: more untouched ones are needed than the extent block has room for, and not
      more than the bound of the source allows; a group that can hold the file alone saves it. */
  predicate TooManyGroups(gs: seq<Group>, c: nat, n: nat, blockSize: nat)
    requires c <= |gs| && blockSize > 0
  {
    && (forall i :: 0 <= i < |gs| ==> gs[i].free <= n)
    && MAX_INODE_EXTENTS < Untouched(gs[..c]) && LeafRoom(blockSize) < Untouched(gs[..c]) <= blockSize - 1
  }

  /** Exactly which files overrun their extent block, by what is free before; the first c groups are
      just enough for the blocks of the file and the extra one. */
  lemma OverrunOnGroups(gs: seq<Group>, n: nat, c: nat, blockSize: nat)
    requires GroupsOk(gs) && blockSize > 0 && JustEnough(gs, c, n + 1)
    ensures OutcomeOf(AllocateFile(gs, n), n, blockSize).Overrun? <==> TooManyGroups(gs, c, n, blockSize)
  {
    AllocateCounts(gs, c, n + 1);
  }

  /** With fewer free blocks in the untouched groups no file does. */
  lemma NoOverrunWithout(gs: seq<Group>, n: nat, blockSize: nat)
    requires GroupsOk(gs) && blockSize > 0 && UntouchedFree(gs) < n + 1
    ensures !OutcomeOf(AllocateFile(gs, n), n, blockSize).Overrun?
  {
    MultipleSucceeds(gs, n + 1);
  }

  /** A file that takes all that the untouched groups have, where the last group is one of them. */
  lemma OverrunOnLast(gs: seq<Group>, n: nat, blockSize: nat)
    requires GroupsOk(gs) && blockSize > 0 && gs != [] && gs[|gs| - 1].used == 0 && n + 1 == UntouchedFree(gs)
    requires TooManyGroups(gs, |gs|, n, blockSize)
    ensures OutcomeOf(AllocateFile(gs, n), n, blockSize).Overrun?
  {
    assert gs[..|gs|] == gs;
    assert gs[|gs| - 1].Ok();
    OverrunOnGroups(gs, n, |gs|, blockSize);
  }

  /** Which blocks of the regions that were allocated the file gets: all but the last one of the first region,
      which goes back, or all but the first one, which becomes the extent block. */
  lemma FileRegions(gs: seq<Group>, n: nat)
    requires GroupsOk(gs) && n > 0 && AllocateFile(gs, n).ok
    ensures var f, rs := AllocateFile(gs, n), AllocateSpec.Allocate(gs, n + 1).regions;
            && |f.rs| == |rs| > 0 && f.rs[1..] == rs[1..] && f.rs[0].len == rs[0].len - 1
            && if |rs| <= MAX_INODE_EXTENTS then f.oob == [] && f.rs[0].block == rs[0].block
               else f.oob == [Region(rs[0].block, 1, rs[0].bg)] && f.rs[0].block == rs[0].block + 1
  {
    FirstRegion(gs, n + 1);
    AllocateFileOk(gs, n);
  }

  /** Where the second extent of a file starts that no group can hold: one block before the end of the
      first untouched group's part. */
  lemma SecondExtent(gs: seq<Group>, n: nat)
    requires GroupsOk(gs) && n + 1 <= UntouchedFree(gs) && forall i :: 0 <= i < |gs| ==> gs[i].free <= n
    ensures var u, f := FirstUntouched(gs, 0), AllocateFile(gs, n);
            u < |gs| && f.ok && |f.rs| >= 2 && ExtentsFrom(f.rs, 0)[1].eeBlock == gs[u].free - 1
  {
    ServedBySeveral(gs, n + 1);
    FirstOfSeveral(gs, n + 1);
    OneLess(gs, n);
    StartsBehindFirst(AllocateFile(gs, n).rs);
  }

  lemma ServedBySeveral(gs: seq<Group>, len: nat)
    requires GroupsOk(gs) && 0 < len <= UntouchedFree(gs)
    ensures AllocateSpec.Allocate(gs, len).ok
  {
    assert gs[..|gs|] == gs;
    var c := SomeJustEnough(gs, |gs|, len);
    AllocateCounts(gs, c, len);
  }

  lemma OneLess(gs: seq<Group>, n: nat)
    requires GroupsOk(gs) && AllocateSpec.Allocate(gs, n + 1).ok && |AllocateSpec.Allocate(gs, n + 1).regions| >= 2
    ensures var rs, f := AllocateSpec.Allocate(gs, n + 1).regions, AllocateFile(gs, n);
            f.ok && |f.rs| == |rs| && f.rs[0].len == rs[0].len - 1
  {
    FirstRegion(gs, n + 1);
  }

  lemma StartsBehindFirst(rs: seq<Region>)
    requires |rs| >= 2
    ensures ExtentsFrom(rs, 0)[1].eeBlock == rs[0].len
  {
    ExtentStartsAt(rs, 0, 1);
    assert rs[..1] == [rs[0]];
    assert TotalLen(rs[..1]) == rs[0].len + TotalLen([]);
  }

  lemma FirstOfSeveral(gs: seq<Group>, len: nat)
    requires GroupsOk(gs) && AllocateSpec.Allocate(gs, len).ok && forall i :: 0 <= i < |gs| ==> gs[i].free < len
    ensures var u, rs := FirstUntouched(gs, 0), AllocateSpec.Allocate(gs, len).regions;
            u < |gs| && |rs| >= 2 && rs[0].len == gs[u].free
  {
    var u := FirstUntouched(gs, 0);
    PartialOk(gs, len);
    var p := Partial(gs, len);
    assert Multiple(p.gs, len - gs[u].free).regions != [];
  }

  /** Main result: the extents of a nonempty file tile its blocks; their runs, and the extent block
      if there are more than three of them, are new blocks, pairwise disjoint; the extents fit where
      they are written; and the blocks taken from the free pool are the ones i_blocks counts. */
  lemma FileTiled(gs: seq<Group>, n: nat, blockSize: nat, m: nat)
    requires GroupsOk(gs) && n > 0 && blockSize > 0 && OutcomeOf(AllocateFile(gs, n), n, blockSize).Done?
    ensures var f := AllocateFile(gs, n);
            var inode := OutcomeOf(f, n, blockSize).inode;
            && (12 + 12 * |inode.extents| <= if inode.leaf.Some? then blockSize else 60)
            && Tiles(inode.extents, 0, n)
            && |inode.extents| == inode.entries == |f.rs|
            && (forall k :: 0 <= k < |f.rs| ==>
                  inode.extents[k].eeStart == f.rs[k].block && inode.extents[k].eeLen == f.rs[k].len)
            && Fresh(gs, f.gs, f.oob + f.rs)
            && (inode.leaf.Some? <==> |inode.extents| > MAX_INODE_EXTENTS)
            && (inode.leaf.Some? ==> |f.oob| == 1 && f.oob[0].len == 1 && f.oob[0].block == inode.leaf.value)
            && TotalFree(f.gs) <= TotalFree(gs) && inode.sectors == (TotalFree(gs) - TotalFree(f.gs)) * blockSize / 512
            && (LimitsAtMost(gs, m) ==> LensAtMost(inode.extents, m))
  {
    var f := AllocateFile(gs, n);
    AllocateFileOk(gs, n);
    ExtentsFit(f, n, blockSize);
    ExtentsTile(f.rs, 0);
    RunsOf(gs, f, m);
  }

  lemma RunsOf(gs: seq<Group>, f: FileBlocks, m: nat)
    requires Fresh(gs, f.gs, f.oob + f.rs)
    ensures forall k :: 0 <= k < |f.rs| ==>
              ExtentsFrom(f.rs, 0)[k].eeStart == f.rs[k].block && ExtentsFrom(f.rs, 0)[k].eeLen == f.rs[k].len
    ensures LimitsAtMost(gs, m) ==> LensAtMost(ExtentsFrom(f.rs, 0), m)
  {
    forall k | 0 <= k < |f.rs|
      ensures ExtentsFrom(f.rs, 0)[k].eeStart == f.rs[k].block && ExtentsFrom(f.rs, 0)[k].eeLen == f.rs[k].len
      ensures LimitsAtMost(gs, m) ==> f.rs[k].len <= m
    {
      ExtentsAt(f.rs, 0, k);
      if LimitsAtMost(gs, m) {
        assert (f.oob + f.rs)[|f.oob| + k] == f.rs[k];
        RegionBounded(gs, f.gs, f.oob + f.rs, |f.oob| + k, m);
      }
    }
  }

  /** An empty file gets no extent, although its extent header announces one. */
  lemma EmptyFile(gs: seq<Group>, blockSize: nat)
    requires GroupsOk(gs) && AllocateFile(gs, 0).ok
    ensures var inode := InodeOf(AllocateFile(gs, 0), 0, blockSize);
            inode.extents == [] && inode.entries == 1
  {
    AllocateFileOk(gs, 0);
  }
}
