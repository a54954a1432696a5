/** allocate.c over the block groups in memory, proved against AllocateSpec. */
module Allocate {
  import opened AllocateSpec
  import opened BlockGroups

  datatype Option<T> = None | Some(value: T)

  /** A block_allocation: its regions and those set aside for metadata. last is the index of the region
      that list.last points at, iter that of the current region. */
  class BlockAllocation {
    var list: seq<Region>
    var last: nat
    var iter: nat
    var oob: seq<Region>

    constructor (regions: seq<Region>)
      ensures list == regions && last == 0 && iter == 0 && oob == []
    {
      list, last, iter, oob := regions, 0, 0, [];
    }
  }

  /** A request under way: with the groups gs, len blocks to go and the regions in got, it ends in
      m. */
  datatype Pending = Pending(m: Grant, gs: seq<Group>, got: seq<Region>, len: nat) {
    ghost predicate Valid() {
      && GroupsOk(gs)
      && var rest := Multiple(gs, len);
         m == Grant(rest.gs, if rest.ok then got + rest.regions else [], rest.ok)
    }

    function Next(): Pending
      requires Partial(gs, len).ok && Partial(gs, len).regions[0].len <= len
    {
      var p := Partial(gs, len);
      Pending(m, p.gs, got + [p.regions[0]], len - p.regions[0].len)
    }
  }

  lemma PendingNext(w: Pending)
    requires w.len > 0 && w.Valid()
    ensures var p := Partial(w.gs, w.len);
            if p.ok then 0 < p.regions[0].len <= w.len && w.Next().Valid()
            else w.m == Grant(p.gs, [], false)
  {
    var p := Partial(w.gs, w.len);
    if p.ok {
      PartialOk(w.gs, w.len);
      var rest := Multiple(p.gs, w.len - p.regions[0].len);
      assert Multiple(w.gs, w.len) == Grant(rest.gs, if rest.ok then p.regions + rest.regions else [], rest.ok);
      Regroup(w.got, p.regions, rest.regions);
    } else {
      assert Multiple(w.gs, w.len) == p;
    }
  }

  lemma Regroup(got: seq<Region>, p: seq<Region>, rest: seq<Region>)
    requires |p| == 1
    ensures got + (p + rest) == got + [p[0]] + rest
  {
    assert p == [p[0]];
  }

  lemma PendingInitially(gs: seq<Group>, len: nat)
    requires GroupsOk(gs)
    ensures Pending(Multiple(gs, len), gs, [], len).Valid()
  {
    var m := Multiple(gs, len);
    MultipleFailureEmpty(gs, len);
    assert [] + m.regions == m.regions;
  }

  lemma MultipleFailureEmpty(gs: seq<Group>, len: nat)
    requires GroupsOk(gs)
    ensures !Multiple(gs, len).ok ==> Multiple(gs, len).regions == []
  {}

  lemma PendingDone(w: Pending)
    requires w.len == 0 && w.Valid()
    ensures w.m == Grant(w.gs, w.got, true)
  {
    assert w.got + [] == w.got;
  }

  /** The first block of group i. */
  function FirstOf(firstDataBlock: nat, blocksPerGroup: nat, i: nat): nat {
    if i == 0 then firstDataBlock else FirstOf(firstDataBlock, blocksPerGroup, i - 1) + blocksPerGroup
  }

  /** A header of the given size and two data blocks fit into the group and into the image. */
  predicate RoomFor(first: nat, blocksPerGroup: nat, lenBlocks: nat, header: nat) {
    header + 2 <= blocksPerGroup && first + header + 2 <= lenBlocks
  }

  /** A group as init_bg leaves it. */
  ghost predicate InitialGroup(g: BlockGroup, first: nat, size: nat, lenBlocks: nat, header: nat)
    reads g, g.bitmap
  {
    && g.Valid() && g.dataBlocksUsed == 0 && g.firstFreeBlock == g.headerBlocks == header
    && g.firstBlock == first && g.size == size && g.overrun == Overrun(first, size, lenBlocks)
    && RoomFor(first, size, lenBlocks, header)
  }

  lemma {:induction false} FirstOfApart(firstDataBlock: nat, blocksPerGroup: nat, i: nat, j: nat)
    requires i < j
    ensures FirstOf(firstDataBlock, blocksPerGroup, i) + blocksPerGroup
            <= FirstOf(firstDataBlock, blocksPerGroup, j)
  {
    if i < j - 1 {
      FirstOfApart(firstDataBlock, blocksPerGroup, i, j - 1);
    }
  }

  lemma InitialGroupsOk(v: seq<Group>, firstDataBlock: nat, blocksPerGroup: nat)
    requires forall i :: 0 <= i < |v| ==>
               && v[i].Ok() && v[i].free >= 2 && v[i].first == v[i].header && v[i].limit <= blocksPerGroup
               && v[i].firstBlock == FirstOf(firstDataBlock, blocksPerGroup, i)
    ensures GroupsOk(v) && forall b: nat :: !HandedOut(v, b)
  {
    forall i, j | 0 <= i < j < |v|
      ensures v[i].Before(v[j])
    {
      FirstOfApart(firstDataBlock, blocksPerGroup, i, j);
    }
  }

  /** Where block_allocator_init puts the groups; superBlocks tells how many blocks the super block
      and the group descriptors take in each. Every group has room for two data blocks. */
  datatype Layout = Layout(firstDataBlock: nat, blocksPerGroup: nat, blockSize: nat, lenBlocks: nat,
                           inodeTableBlocks: nat, superBlocks: seq<nat>) {
    predicate Valid() {
      && blocksPerGroup <= 8 * blockSize && lenBlocks + blocksPerGroup < 0x1_0000_0000
      && forall i {:trigger superBlocks[i]} :: 0 <= i < |superBlocks| ==>
           RoomFor(First(i), blocksPerGroup, lenBlocks, Header(i))
    }

    function First(i: nat): nat { FirstOf(firstDataBlock, blocksPerGroup, i) }

    function Header(i: nat): nat
      requires i < |superBlocks|
    {
      2 + inodeTableBlocks + superBlocks[i]
    }

    ghost predicate Initial(g: BlockGroup, i: nat)
      reads g, g.bitmap
    {
      i < |superBlocks| && InitialGroup(g, First(i), blocksPerGroup, lenBlocks, Header(i))
    }
  }

  /** The groups have objects of their own. */
  ghost predicate Apart(gs: seq<BlockGroup>) {
    forall i, j :: 0 <= i < j < |gs| ==> gs[i] != gs[j] && gs[i].bitmap != gs[j].bitmap
  }

  /** block_allocator_init: one group after the other. */
  method InitGroups(l: Layout) returns (gs: seq<BlockGroup>)
    requires l.Valid()
    ensures |gs| == |l.superBlocks| && Apart(gs)
    ensures forall k :: 0 <= k < |gs| ==> fresh(gs[k]) && fresh(gs[k].bitmap)
    ensures forall k {:trigger l.Initial(gs[k], k)} :: 0 <= k < |gs| ==> l.Initial(gs[k], k)
  {
    gs := [];
    var first := l.firstDataBlock;
    while |gs| < |l.superBlocks|
      invariant |gs| <= |l.superBlocks| && first == l.First(|gs|) && Apart(gs)
      invariant forall k :: 0 <= k < |gs| ==> fresh(gs[k]) && fresh(gs[k].bitmap)
      invariant forall k {:trigger l.Initial(gs[k], k)} :: 0 <= k < |gs| ==> l.Initial(gs[k], k)
    {
      var g := InitGroup(l, first, |gs|);
      gs := gs + [g];
      first := first + l.blocksPerGroup;
    }
  }

  method InitGroup(l: Layout, first: nat, i: nat) returns (g: BlockGroup)
    requires l.Valid() && i < |l.superBlocks| && first == l.First(i)
    ensures fresh(g) && fresh(g.bitmap) && l.Initial(g, i)
  {
    g := new BlockGroup(first, l.blocksPerGroup, l.blockSize, l.lenBlocks, l.inodeTableBlocks, l.superBlocks[i]);
  }

  class Allocator {
    const groups: seq<BlockGroup>

    ghost function Bitmaps(): set<object> {
      set g | g in groups :: g.bitmap
    }

    constructor (gs: seq<BlockGroup>)
      ensures groups == gs
    {
      groups := gs;
    }

    /** The counters of the groups, as AllocateSpec sees them. */
    ghost function Views(): (v: seq<Group>)
      reads groups
      ensures |v| == |groups|
      ensures forall i :: 0 <= i < |groups| ==> v[i] == View(groups[i])
    {
      seq(|groups|, i requires 0 <= i < |groups| reads if 0 <= i < |groups| then {groups[i]} else {} => View(groups[i]))
    }

    static ghost function View(g: BlockGroup): Group
      reads g
    {
      Group(g.firstBlock, g.headerBlocks, if g.size >= g.overrun then g.size - g.overrun else 0,
            g.firstFreeBlock, g.freeBlocks, g.dataBlocksUsed)
    }

    /** No two groups share an object. */
    ghost predicate Separate() {
      forall i, j :: 0 <= i < j < |groups| ==> groups[i] != groups[j] && groups[i].bitmap != groups[j].bitmap
    }

    ghost predicate Valid()
      reads groups, Bitmaps()
    {
      forall g :: g in groups ==> g.Valid()
    }

    /** ext4_allocate_blocks_from_block_group. */
    method AllocateFrom(len: nat, i: nat) returns (block: int)
      requires Separate() && Valid() && i < |groups|
      modifies groups, Bitmaps()
      ensures Valid()
      ensures len <= old(groups[i].freeBlocks) ==>
                && Views() == TakeFrom(old(Views()), i, len)
                && block == old(groups[i].firstBlock + groups[i].firstFreeBlock)
      ensures len > old(groups[i].freeBlocks) ==> Views() == old(Views()) && block == -1
    {
      ghost var v := Views();
      block := groups[i].Allocate(len);
      assert forall j :: 0 <= j < |groups| && j != i ==> View(groups[j]) == v[j];
      if len <= v[i].free {
        assert Views() == TakeFrom(v, i, len);
      } else {
        assert Views() == v;
      }
    }

    /** ext4_allocate_contiguous_blocks. */
    method Contiguous(len: nat) returns (reg: Option<Region>)
      requires Separate() && Valid()
      modifies groups, Bitmaps()
      ensures Valid()
      ensures var f := OneRun(old(Views()), len);
              Views() == f.gs && reg == if f.ok then Some(f.regions[0]) else None
    {
      ghost var v := Views();
      var i := 0;
      while i < |groups|
        invariant i <= |groups| && Valid() && Views() == v
        invariant FirstFit(v, len, 0) == FirstFit(v, len, i)
      {
        var block := AllocateFrom(len, i);
        if block != -1 {
          return Some(Region(block, len, i));
        }
        i := i + 1;
      }
      reg := None;
    }

    /** allocate_block: the first free block of the image, or -1. */
    method AllocateBlock() returns (block: int)
      requires Separate() && Valid()
      modifies groups, Bitmaps()
      ensures Valid()
      ensures var f := OneRun(old(Views()), 1);
              Views() == f.gs && block == if f.ok then f.regions[0].block else -1
    {
      ghost var v := Views();
      var i := 0;
      while i < |groups|
        invariant i <= |groups| && Valid() && Views() == v
        invariant FirstFit(v, 1, 0) == FirstFit(v, 1, i)
      {
        block := AllocateFrom(1, i);
        if block != -1 {
          return;
        }
        i := i + 1;
      }
      block := -1;
    }

    /** ext4_allocate_partial. */
    method AllocatePartial(len: nat) returns (reg: Option<Region>)
      requires Separate() && Valid()
      modifies groups, Bitmaps()
      ensures Valid()
      ensures var p := Partial(old(Views()), len);
              Views() == p.gs && reg == if p.ok then Some(p.regions[0]) else None
    {
      ghost var v := Views();
      var i := 0;
      while i < |groups|
        invariant i <= |groups| && Valid() && Views() == v
        invariant FirstUntouched(v, 0) == FirstUntouched(v, i)
      {
        if groups[i].dataBlocksUsed == 0 {
          var bgLen := groups[i].freeBlocks;
          if len <= bgLen {
            reg := Contiguous(len);
          } else {
            var block := AllocateFrom(bgLen, i);
            reg := Some(Region(block, bgLen, i));
          }
          return;
        }
        i := i + 1;
      }
      reg := None;
    }

    /** ext4_allocate_multiple_contiguous_blocks. */
    method AllocateMultiple(request: nat) returns (regs: Option<seq<Region>>)
      requires Separate() && Valid() && GroupsOk(Views())
      modifies groups, Bitmaps()
      ensures Valid()
      ensures var m := Multiple(old(Views()), request);
              Views() == m.gs && regs == if m.ok then Some(m.regions) else None
    {
      ghost var w := Pending(Multiple(Views(), request), Views(), [], request);
      var len: nat, got: seq<Region> := request, [];
      PendingInitially(Views(), request);
      while len > 0
        invariant Valid() && w.Valid()
        invariant w == Pending(Multiple(old(Views()), request), Views(), got, len)
        decreases len
      {
        var reg := AllocatePartial(len);
        PendingNext(w);
        if reg == None {
          return None;
        }
        w := w.Next();
        got := got + [reg.value];
        len := len - reg.value.len;
      }
      PendingDone(w);
      regs := Some(got);
    }

    /** allocate_blocks; do_allocate is its first half. */
    method AllocateBlocks(len: nat) returns (alloc: BlockAllocation?)
      requires Separate() && Valid() && GroupsOk(Views())
      modifies groups, Bitmaps()
      ensures Valid()
      ensures var g := AllocateSpec.Allocate(old(Views()), len);
              && Views() == g.gs
              && (alloc != null <==> g.ok)
              && (alloc != null ==> fresh(alloc) && alloc.list == g.regions && alloc.last == 0
                                    && alloc.iter == 0 && alloc.oob == [])
    {
      var regs: seq<Region> := [];
      var reg := Contiguous(len);
      if reg.Some? {
        regs := [reg.value];
      } else {
        var several := AllocateMultiple(len);
        if several.Some? {
          regs := several.value;
        }
      }
      if regs == [] {
        return null;
      }
      alloc := new BlockAllocation(regs);
    }

    /** reduce_allocation by one block, on a fresh result of AllocateBlocks. */
    method ReduceByOne(alloc: BlockAllocation)
      requires Separate() && Valid()
      requires alloc.list != [] && alloc.last == 0 && OnTop(Views(), alloc.list[0]) && alloc.list[0].len >= 1
      modifies groups, Bitmaps(), alloc
      ensures Valid()
      ensures (Views(), alloc.list) == ReduceOne(old(Views()), old(alloc.list))
      ensures alloc.iter == (if alloc.list == [] then 0 else old(alloc.iter)) && alloc.oob == old(alloc.oob)
    {
      var lastReg := alloc.list[alloc.last];
      FreeIn(lastReg.bg);
      if lastReg.len > 1 {
        alloc.list := alloc.list[alloc.last := lastReg.(len := lastReg.len - 1)];
      } else {
        alloc.list, alloc.iter := [], 0;
      }
    }

    /** The last block in use in group i comes back. */
    method FreeIn(i: nat)
      requires Separate() && Valid() && i < |groups|
      requires groups[i].firstFreeBlock > groups[i].headerBlocks
      modifies groups, Bitmaps()
      ensures Valid() && Views() == old(Views())[i := old(Views())[i].GiveBack(1)]
    {
      ghost var v := Views();
      groups[i].Free(1);
      assert forall j :: 0 <= j < |groups| && j != i ==> View(groups[j]) == v[j];
    }
  }

  /** The groups of a new image, as AllocateSpec sees them. */
  function GroupsOf(l: Layout): (gs: seq<Group>)
    requires l.Valid()
    ensures |gs| == |l.superBlocks|
    ensures forall i :: 0 <= i < |gs| ==> gs[i] == GroupOf(l, i)
  {
    seq(|l.superBlocks|, i requires 0 <= i < |l.superBlocks| => GroupOf(l, i))
  }

  function GroupOf(l: Layout, i: nat): Group
    requires l.Valid() && i < |l.superBlocks|
  {
    var header := l.Header(i);
    assert RoomFor(l.First(i), l.blocksPerGroup, l.lenBlocks, header);
    var limit: nat := l.blocksPerGroup - Overrun(l.First(i), l.blocksPerGroup, l.lenBlocks);
    Group(l.First(i), header, limit, header, limit - header, 0)
  }

  lemma GroupsOfOk(l: Layout)
    requires l.Valid()
    ensures GroupsOk(GroupsOf(l)) && forall b: nat :: !HandedOut(GroupsOf(l), b)
  {
    var gs := GroupsOf(l);
    forall i | 0 <= i < |gs|
      ensures gs[i].Ok() && gs[i].free >= 2 && gs[i].first == gs[i].header && gs[i].limit <= l.blocksPerGroup
      ensures gs[i].firstBlock == FirstOf(l.firstDataBlock, l.blocksPerGroup, i)
    {
      assert RoomFor(l.First(i), l.blocksPerGroup, l.lenBlocks, l.Header(i));
    }
    InitialGroupsOk(gs, l.firstDataBlock, l.blocksPerGroup);
  }

  /** A fresh allocator meets what every operation asks for, and has handed out nothing. */
  method Init(l: Layout) returns (a: Allocator)
    requires l.Valid()
    ensures fresh(a) && fresh(a.Bitmaps()) && (forall g :: g in a.groups ==> fresh(g))
    ensures |a.groups| == |l.superBlocks| && a.Separate() && a.Valid() && GroupsOk(a.Views())
    ensures a.Views() == GroupsOf(l) && forall b: nat :: !HandedOut(a.Views(), b)
    ensures forall i {:trigger l.Initial(a.groups[i], i)} :: 0 <= i < |a.groups| ==> l.Initial(a.groups[i], i)
  {
    var gs := InitGroups(l);
    a := new Allocator(gs);
    InitialViews(a, l);
  }

  lemma InitialViews(a: Allocator, l: Layout)
    requires l.Valid() && |a.groups| == |l.superBlocks|
    requires forall i {:trigger l.Initial(a.groups[i], i)} :: 0 <= i < |a.groups| ==> l.Initial(a.groups[i], i)
    ensures a.Valid() && a.Views() == GroupsOf(l)
    ensures GroupsOk(a.Views()) && forall b: nat :: !HandedOut(a.Views(), b)
  {
    var v := a.Views();
    forall i | 0 <= i < |v|
      ensures v[i] == GroupOf(l, i) && a.groups[i].Valid()
    {
      assert l.Initial(a.groups[i], i);
    }
    assert v == GroupsOf(l);
    GroupsOfOk(l);
  }
}
