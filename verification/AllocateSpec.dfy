/**
 The block allocator of allocate.c on the counters of the block groups: which groups a request is
 served from, and what that does to the blocks handed out so far.
 */
module AllocateSpec {

  /** A group's first block, the end of its header, the end of its usable part (the last two
      relative to the group), the first free block, the number of free blocks, and the number of data
      blocks ever allocated. */
  datatype Group = Group(firstBlock: nat, header: nat, limit: nat, first: nat, free: nat, used: nat) {
    predicate Ok() {
      header <= first && first + free == limit && (used == 0 ==> first == header)
    }

    /** Block b of the image has been handed out from this group. */
    predicate Holds(b: nat) {
      firstBlock + header <= b < firstBlock + first
    }

    /** Block b is one of the group's data blocks: behind the header, before the overrun. */
    predicate Covers(b: nat) {
      firstBlock + header <= b < firstBlock + limit
    }

    /** This group ends before the other one starts. */
    predicate Before(g: Group) {
      firstBlock + limit <= g.firstBlock
    }

    function Take(len: nat): Group
      requires len <= free
    {
      this.(first := first + len, free := free - len, used := used + len)
    }

    function GiveBack(len: nat): Group
      requires len <= first
    {
      this.(first := first - len, free := free + len)
    }
  }

  datatype Region = Region(block: nat, len: nat, bg: nat) {
    predicate Holds(b: nat) { block <= b < block + len }
  }

  /** Groups follow each other on the disk, and an untouched one has at least two free blocks. */
  ghost predicate GroupsOk(gs: seq<Group>) {
    && (forall i {:trigger gs[i].Ok()} :: 0 <= i < |gs| ==> gs[i].Ok() && (gs[i].used == 0 ==> gs[i].free >= 2))
    && (forall i, j {:trigger gs[i].Before(gs[j])} :: 0 <= i < j < |gs| ==> gs[i].Before(gs[j]))
  }

  ghost predicate HandedOut(gs: seq<Group>, b: nat) {
    exists i :: 0 <= i < |gs| && gs[i].Holds(b)
  }

  function TotalFree(gs: seq<Group>): nat {
    if gs == [] then 0 else TotalFree(gs[..|gs| - 1]) + gs[|gs| - 1].free
  }

  function TotalLen(rs: seq<Region>): nat {
    if rs == [] then 0 else rs[0].len + TotalLen(rs[1..])
  }

  // ---------------------------------------------------------------- choosing groups

  /** The first group from i on with len free blocks, or the number of groups. */
  function FirstFit(gs: seq<Group>, len: nat, i: nat): (r: nat)
    requires i <= |gs|
    ensures i <= r <= |gs|
    ensures r < |gs| ==> gs[r].free >= len
    decreases |gs| - i
  {
    if i == |gs| || gs[i].free >= len then i else FirstFit(gs, len, i + 1)
  }

  /** The first group from i on that no data block was ever allocated from. */
  function FirstUntouched(gs: seq<Group>, i: nat): (r: nat)
    requires i <= |gs|
    ensures i <= r <= |gs|
    ensures r < |gs| ==> gs[r].used == 0
    decreases |gs| - i
  {
    if i == |gs| || gs[i].used == 0 then i else FirstUntouched(gs, i + 1)
  }

  lemma {:induction false} FirstFitLeast(gs: seq<Group>, len: nat, i: nat)
    requires i <= |gs|
    ensures forall j :: i <= j < FirstFit(gs, len, i) ==> gs[j].free < len
    decreases |gs| - i
  {
    if i < |gs| && gs[i].free < len {
      FirstFitLeast(gs, len, i + 1);
    }
  }

  lemma {:induction false} FirstUntouchedLeast(gs: seq<Group>, i: nat)
    requires i <= |gs|
    ensures forall j :: i <= j < FirstUntouched(gs, i) ==> gs[j].used != 0
    decreases |gs| - i
  {
    if i < |gs| && gs[i].used != 0 {
      FirstUntouchedLeast(gs, i + 1);
    }
  }

  function TakeFrom(gs: seq<Group>, i: nat, len: nat): seq<Group>
    requires i < |gs| && len <= gs[i].free
  {
    gs[i := gs[i].Take(len)]
  }

  function RegionAt(gs: seq<Group>, i: nat, len: nat): Region
    requires i < |gs|
  {
    Region(gs[i].firstBlock + gs[i].first, len, i)
  }

  /** The groups after a request, and the regions granted; none if the request failed. */
  datatype Grant = Grant(gs: seq<Group>, regions: seq<Region>, ok: bool)

  /** ext4_allocate_contiguous_blocks: one run from the first group that has it. */
  function OneRun(gs: seq<Group>, len: nat): (r: Grant)
    ensures r.ok ==> |r.regions| == 1
  {
    var i := FirstFit(gs, len, 0);
    if i < |gs| then Grant(TakeFrom(gs, i, len), [RegionAt(gs, i, len)], true) else Grant(gs, [], false)
  }

  /** ext4_allocate_partial: if the next untouched group could hold the request, first fit over all
      groups; otherwise everything that group has. */
  function Partial(gs: seq<Group>, len: nat): (r: Grant)
    ensures r.ok ==> |r.regions| == 1
  {
    var u := FirstUntouched(gs, 0);
    if u == |gs| then Grant(gs, [], false)
    else if len <= gs[u].free then OneRun(gs, len)
    else Grant(TakeFrom(gs, u, gs[u].free), [RegionAt(gs, u, gs[u].free)], true)
  }

  /** ext4_allocate_multiple_contiguous_blocks: partial allocations until the request is served. A
      failure half way leaves what was taken allocated. */
  function Multiple(gs: seq<Group>, len: nat): (r: Grant)
    requires GroupsOk(gs)
    decreases len
  {
    if len == 0 then Grant(gs, [], true)
    else
      var p := Partial(gs, len);
      if !p.ok then p
      else
        PartialOk(gs, len);
        var rest := Multiple(p.gs, len - p.regions[0].len);
        Grant(rest.gs, if rest.ok then p.regions + rest.regions else [], rest.ok)
  }

  /** do_allocate: one run from the first group that has it, else several. */
  function Allocate(gs: seq<Group>, len: nat): (r: Grant)
    requires GroupsOk(gs)
  {
    var f := OneRun(gs, len);
    if f.ok then f
    else
      var m := Multiple(gs, len);
      Grant(m.gs, m.regions, m.ok && m.regions != [])
  }

  // ---------------------------------------------------------------- one group

  /** A group that keeps its place can be updated. */
  lemma UpdateOk(gs: seq<Group>, i: nat, g: Group)
    requires GroupsOk(gs) && i < |gs| && g.Ok() && (g.used == 0 ==> g.free >= 2)
    requires g.firstBlock == gs[i].firstBlock && g.limit == gs[i].limit
    ensures GroupsOk(gs[i := g])
  {
    var gs' := gs[i := g];
    forall j | 0 <= j < |gs'|
      ensures gs'[j].Ok() && (gs'[j].used == 0 ==> gs'[j].free >= 2)
    {
      assert gs[j].Ok();
    }
    forall j, k | 0 <= j < k < |gs'|
      ensures gs'[j].Before(gs'[k])
    {
      assert gs[j].Before(gs[k]);
    }
  }

  lemma TakeFromOk(gs: seq<Group>, i: nat, len: nat)
    requires GroupsOk(gs) && i < |gs| && len <= gs[i].free
    ensures GroupsOk(TakeFrom(gs, i, len))
  {
    assert gs[i].Ok();
    UpdateOk(gs, i, gs[i].Take(len));
  }

  /** No block belongs to two groups. */
  lemma GroupsApart(gs: seq<Group>, i: nat, j: nat, b: nat)
    requires GroupsOk(gs) && i < |gs| && j < |gs| && gs[i].Covers(b) && gs[j].Covers(b)
    ensures i == j
  {
    assert i < j ==> gs[i].Before(gs[j]);
    assert j < i ==> gs[j].Before(gs[i]);
  }

  /** Taking from a group hands out exactly the blocks of the region, and none of them twice. */
  lemma TakeFromBlocks(gs: seq<Group>, i: nat, len: nat, b: nat)
    requires GroupsOk(gs) && i < |gs| && len <= gs[i].free
    ensures HandedOut(TakeFrom(gs, i, len), b) <==> HandedOut(gs, b) || RegionAt(gs, i, len).Holds(b)
    ensures RegionAt(gs, i, len).Holds(b) ==> !HandedOut(gs, b) && gs[i].Covers(b)
  {
    var gs' := TakeFrom(gs, i, len);
    assert gs[i].Ok();
    if HandedOut(gs', b) {
      var j :| 0 <= j < |gs'| && gs'[j].Holds(b);
      assert j != i ==> gs[j].Holds(b);
    }
    if HandedOut(gs, b) {
      var j :| 0 <= j < |gs| && gs[j].Holds(b);
      assert gs'[j].Holds(b) && gs[j].Ok();
      if RegionAt(gs, i, len).Holds(b) {
        GroupsApart(gs, i, j, b);
      }
    }
    if RegionAt(gs, i, len).Holds(b) {
      assert gs'[i].Holds(b);
    }
  }

  lemma {:induction false} TotalFreeUpdate(gs: seq<Group>, i: nat, g: Group)
    requires i < |gs|
    ensures TotalFree(gs[i := g]) == TotalFree(gs) - gs[i].free + g.free
  {
    var n := |gs| - 1;
    if i == n {
      assert gs[i := g][..n] == gs[..n];
    } else {
      assert gs[i := g][..n] == gs[..n][i := g];
      TotalFreeUpdate(gs[..n], i, g);
    }
  }

  // ---------------------------------------------------------------- several groups

  /** A partial allocation makes progress and keeps the groups in order. */
  lemma PartialOk(gs: seq<Group>, len: nat)
    requires GroupsOk(gs) && len > 0 && Partial(gs, len).ok
    ensures var p := Partial(gs, len);
            && GroupsOk(p.gs) && |p.gs| == |gs| && |p.regions| == 1
            && 0 < p.regions[0].len <= len
            && p.regions[0].bg < |gs| && p.regions[0].len <= gs[p.regions[0].bg].free
            && p.regions[0] == RegionAt(gs, p.regions[0].bg, p.regions[0].len)
            && p.gs == TakeFrom(gs, p.regions[0].bg, p.regions[0].len)
            && (p.regions[0].len == len || (p.gs[p.regions[0].bg].free == 0 && p.regions[0].len >= 2))
  {
    var u := FirstUntouched(gs, 0);
    assert gs[u].Ok();
    if len <= gs[u].free {
      TakeFromOk(gs, FirstFit(gs, len, 0), len);
    } else {
      TakeFromOk(gs, u, gs[u].free);
    }
  }

  /** It only fails when no group is untouched. */
  lemma PartialSucceeds(gs: seq<Group>, len: nat)
    ensures Partial(gs, len).ok <==> exists i :: 0 <= i < |gs| && gs[i].used == 0
  {
    FirstUntouchedLeast(gs, 0);
    FirstFitLeast(gs, len, 0);
  }

  /** Without the assumption on untouched groups the loop can stand still: it does exactly when the
      first untouched group has nothing free, in which case nothing is granted and nothing changes. */
  lemma PartialStuck(gs: seq<Group>, len: nat)
    requires len > 0 && Partial(gs, len).ok
    ensures var p := Partial(gs, len);
            p.regions[0].len == 0 <==> gs[FirstUntouched(gs, 0)].free == 0
    ensures var p := Partial(gs, len);
            p.regions[0].len == 0 ==> p.gs == gs
  {
    var u := FirstUntouched(gs, 0);
    if gs[u].free == 0 {
      assert gs[u].Take(0) == gs[u];
    }
  }

  /** The regions granted by a request are new data blocks, pairwise disjoint, and all that changes. */
  ghost predicate Fresh(gs: seq<Group>, gs': seq<Group>, rs: seq<Region>) {
    && |gs'| == |gs|
    && (forall k :: 0 <= k < |rs| ==> rs[k].bg < |gs|)
    && (forall b: nat :: HandedOut(gs', b) <==> HandedOut(gs, b) || InRegions(rs, b))
    && (forall k, b: nat {:trigger rs[k].Holds(b)} ::
          0 <= k < |rs| && rs[k].Holds(b) ==> !HandedOut(gs, b) && gs[rs[k].bg].Covers(b))
    && (forall j, k, b: nat {:trigger rs[j].Holds(b), rs[k].Holds(b)} ::
          0 <= j < k < |rs| && rs[j].Holds(b) ==> !rs[k].Holds(b))
  }

  ghost predicate InRegions(rs: seq<Region>, b: nat) {
    exists k :: 0 <= k < |rs| && rs[k].Holds(b)
  }

  /** Groups keep their place; only the counters move. */
  predicate SamePlaces(gs: seq<Group>, gs': seq<Group>) {
    && |gs'| == |gs|
    && forall i :: 0 <= i < |gs| ==>
         gs'[i].firstBlock == gs[i].firstBlock && gs'[i].header == gs[i].header && gs'[i].limit == gs[i].limit
  }

  /** The last block of the region is the last one in use in its group. */
  predicate OnTop(gs: seq<Group>, r: Region) {
    r.bg < |gs| && r.len <= gs[r.bg].first
    && r.block + r.len == gs[r.bg].firstBlock + gs[r.bg].first
    && gs[r.bg].header + r.len <= gs[r.bg].first
  }

  /** What a granted request amounts to. */
  ghost predicate Granted(gs: seq<Group>, gs': seq<Group>, rs: seq<Region>, len: nat) {
    && GroupsOk(gs') && SamePlaces(gs, gs') && Fresh(gs, gs', rs)
    && TotalLen(rs) == len && TotalFree(gs') == TotalFree(gs) - len
    && (forall k :: 0 <= k < |rs| ==> OnTop(gs', rs[k]) && (len > 0 ==> rs[k].len > 0))
    && (|rs| > 1 ==> rs[0].len >= 2)
  }

  lemma TakeGranted(gs: seq<Group>, i: nat, len: nat)
    requires GroupsOk(gs) && i < |gs| && len <= gs[i].free
    ensures Granted(gs, TakeFrom(gs, i, len), [RegionAt(gs, i, len)], len)
  {
    var gs', r := TakeFrom(gs, i, len), RegionAt(gs, i, len);
    TakeFromOk(gs, i, len);
    TotalFreeUpdate(gs, i, gs[i].Take(len));
    assert gs[i].Ok();
    forall b: nat
      ensures HandedOut(gs', b) <==> HandedOut(gs, b) || InRegions([r], b)
      ensures r.Holds(b) ==> !HandedOut(gs, b) && gs[i].Covers(b)
    {
      TakeFromBlocks(gs, i, len, b);
      assert r.Holds(b) ==> [r][0].Holds(b);
    }
  }

  /** A request granted in two steps. */
  lemma GrantedTwice(gs: seq<Group>, g1: seq<Group>, g2: seq<Group>, r: Region, rs: seq<Region>, len: nat)
    requires Granted(gs, g1, [r], r.len) && Granted(g1, g2, rs, len)
    requires len > 0 && r.len >= 2 && OnTop(g2, r)
    ensures Granted(gs, g2, [r] + rs, r.len + len)
  {
    var all := [r] + rs;
    FreshTwice(gs, g1, g2, r, rs);
    assert all[1..] == rs;
    forall k | 0 <= k < |all|
      ensures OnTop(g2, all[k]) && all[k].len > 0
    {
      assert k > 0 ==> all[k] == rs[k - 1];
    }
  }

  lemma FreshTwice(gs: seq<Group>, g1: seq<Group>, g2: seq<Group>, r: Region, rs: seq<Region>)
    requires Fresh(gs, g1, [r]) && Fresh(g1, g2, rs) && SamePlaces(gs, g1)
    ensures Fresh(gs, g2, [r] + rs)
  {
    var all := [r] + rs;
    forall b: nat
      ensures InRegions(all, b) <==> InRegions([r], b) || InRegions(rs, b)
    {
      InRegionsCons(r, rs, b);
    }
    forall k, b: nat | 0 <= k < |all| && all[k].Holds(b)
      ensures !HandedOut(gs, b) && gs[all[k].bg].Covers(b)
    {
      assert k == 0 ==> [r][0].Holds(b);
      assert k > 0 ==> rs[k - 1].Holds(b);
    }
    forall j, k, b: nat | 0 <= j < k < |all| && all[j].Holds(b)
      ensures !all[k].Holds(b)
    {
      if j == 0 {
        assert [r][0].Holds(b) && InRegions([r], b) && HandedOut(g1, b);
        assert all[k] == rs[k - 1];
      } else {
        assert rs[j - 1].Holds(b);
        assert all[k] == rs[k - 1];
      }
    }
  }

  lemma InRegionsCons(r: Region, rs: seq<Region>, b: nat)
    ensures InRegions([r] + rs, b) <==> InRegions([r], b) || InRegions(rs, b)
  {
    var all := [r] + rs;
    if InRegions(all, b) {
      var k :| 0 <= k < |all| && all[k].Holds(b);
      assert k > 0 ==> rs[k - 1].Holds(b);
      assert k == 0 ==> [r][0].Holds(b);
    }
    if InRegions([r], b) {
      assert all[0].Holds(b);
    }
    if InRegions(rs, b) {
      var k :| 0 <= k < |rs| && rs[k].Holds(b);
      assert all[k + 1].Holds(b);
    }
  }

  /** A group that was used up is left alone by the rest of the request. */
  lemma {:induction false} MultipleKeepsDrained(gs: seq<Group>, len: nat, i: nat)
    requires GroupsOk(gs) && i < |gs| && gs[i].free == 0
    ensures |Multiple(gs, len).gs| == |gs| && Multiple(gs, len).gs[i] == gs[i]
    decreases len
  {
    if len > 0 && Partial(gs, len).ok {
      PartialOk(gs, len);
      var p := Partial(gs, len);
      MultipleKeepsDrained(p.gs, len - p.regions[0].len, i);
    }
  }

  /** The first region of a request that needs several, and the groups after it. */
  lemma FirstPart(gs: seq<Group>, len: nat) returns (r: Region, gs1: seq<Group>)
    requires GroupsOk(gs) && len > 0 && Partial(gs, len).ok
    ensures Granted(gs, gs1, [r], r.len) && OnTop(gs1, r) && 0 < r.len <= len
    ensures r.len < len ==> r.len >= 2 && gs1[r.bg].free == 0
    ensures var rest := Multiple(gs1, len - r.len);
            Multiple(gs, len) == Grant(rest.gs, if rest.ok then [r] + rest.regions else [], rest.ok)
  {
    PartialOk(gs, len);
    var p := Partial(gs, len);
    r, gs1 := p.regions[0], p.gs;
    TakeGranted(gs, r.bg, r.len);
    assert p.regions == [r];
  }

  lemma {:induction false} MultipleGranted(gs: seq<Group>, len: nat)
    requires GroupsOk(gs) && len > 0 && Multiple(gs, len).ok
    ensures Granted(gs, Multiple(gs, len).gs, Multiple(gs, len).regions, len)
    ensures Multiple(gs, len).regions != []
    decreases len
  {
    var r, gs1 := FirstPart(gs, len);
    if r.len == len {
      assert [r] + [] == [r];
    } else {
      MultipleGranted(gs1, len - r.len);
      MoreGranted(gs, gs1, r, len, Multiple(gs1, len - r.len));
    }
  }

  /** The rest of a request behind its first region, which used up its group. */
  lemma MoreGranted(gs: seq<Group>, gs1: seq<Group>, r: Region, len: nat, rest: Grant)
    requires GroupsOk(gs) && Granted(gs, gs1, [r], r.len) && OnTop(gs1, r) && 2 <= r.len < len && gs1[r.bg].free == 0
    requires rest == Multiple(gs1, len - r.len) && Granted(gs1, rest.gs, rest.regions, len - r.len)
    ensures Granted(gs, rest.gs, [r] + rest.regions, len)
  {
    StillOnTop(gs1, r, len - r.len, rest);
    GrantedTwice(gs, gs1, rest.gs, r, rest.regions, len - r.len);
  }

  lemma StillOnTop(gs: seq<Group>, r: Region, len: nat, rest: Grant)
    requires GroupsOk(gs) && OnTop(gs, r) && gs[r.bg].free == 0 && rest == Multiple(gs, len)
    ensures OnTop(rest.gs, r)
  {
    MultipleKeepsDrained(gs, len, r.bg);
  }

  /** Main result: a granted request hands out exactly len new data blocks, each once, and lowers
      the number of free blocks by len. */
  lemma AllocateGranted(gs: seq<Group>, len: nat)
    requires GroupsOk(gs) && Allocate(gs, len).ok
    ensures Granted(gs, Allocate(gs, len).gs, Allocate(gs, len).regions, len)
    ensures Allocate(gs, len).regions != []
  {
    var i := FirstFit(gs, len, 0);
    if i < |gs| {
      TakeGranted(gs, i, len);
    } else {
      MultipleGranted(gs, len);
    }
  }

  // ---------------------------------------------------------------- failed requests

  /** Blocks are only ever added, and none become free. */
  ghost predicate Grown(gs: seq<Group>, gs': seq<Group>) {
    && GroupsOk(gs') && SamePlaces(gs, gs') && TotalFree(gs') <= TotalFree(gs)
    && (forall b: nat :: HandedOut(gs, b) ==> HandedOut(gs', b))
  }

  lemma TakeGrows(gs: seq<Group>, i: nat, len: nat)
    requires GroupsOk(gs) && i < |gs| && len <= gs[i].free
    ensures Grown(gs, TakeFrom(gs, i, len))
  {
    TakeFromOk(gs, i, len);
    TotalFreeUpdate(gs, i, gs[i].Take(len));
    forall b: nat {
      TakeFromBlocks(gs, i, len, b);
    }
  }

  lemma GrowsTwice(g0: seq<Group>, g1: seq<Group>, g2: seq<Group>)
    requires Grown(g0, g1) && Grown(g1, g2)
    ensures Grown(g0, g2)
  {}

  /** Whether a request succeeds or not, it only adds to what is handed out. */
  lemma {:induction false} MultipleGrows(gs: seq<Group>, len: nat)
    requires GroupsOk(gs)
    ensures Grown(gs, Multiple(gs, len).gs)
    decreases len
  {
    if len > 0 && Partial(gs, len).ok {
      PartialOk(gs, len);
      var p := Partial(gs, len);
      var r := p.regions[0];
      TakeGrows(gs, r.bg, r.len);
      MultipleGrows(p.gs, len - r.len);
      GrowsTwice(gs, p.gs, Multiple(p.gs, len - r.len).gs);
    }
  }

  /** A failed request leaves no untouched group. */
  lemma {:induction false} MultipleExhausts(gs: seq<Group>, len: nat)
    requires GroupsOk(gs) && !Multiple(gs, len).ok
    ensures forall i :: 0 <= i < |Multiple(gs, len).gs| ==> Multiple(gs, len).gs[i].used != 0
    decreases len
  {
    PartialSucceeds(gs, len);
    if Partial(gs, len).ok {
      PartialOk(gs, len);
      MultipleExhausts(Partial(gs, len).gs, len - Partial(gs, len).regions[0].len);
    }
  }

  /** When a failed request leaves the groups as they were: no group was untouched to begin with. */
  lemma FailureUnchanged(gs: seq<Group>, len: nat)
    requires GroupsOk(gs) && !Allocate(gs, len).ok
    ensures Allocate(gs, len).gs == gs <==> forall i :: 0 <= i < |gs| ==> gs[i].used != 0
  {
    if len == 0 {
      assert FirstFit(gs, 0, 0) == |gs|;
      assert gs == [];
    } else {
      if Multiple(gs, len).ok {
        MultipleGranted(gs, len);
      }
      MultipleExhausts(gs, len);
      PartialSucceeds(gs, len);
    }
  }

  /** A request for one block more than an untouched group has, and no other group there is, fails and
      takes all of them. */
  lemma FailureTakesBlocks(g: Group)
    requires g.Ok() && g.used == 0 && g.free >= 2
    ensures var r := Allocate([g], g.free + 1);
            GroupsOk([g]) && !r.ok && TotalFree([g]) == g.free && TotalFree(r.gs) == 0
  {
    var gs, len := [g], g.free + 1;
    OneGroup(g);
    OneGroup(g.Take(g.free));
    assert FirstFit(gs, len, 0) == 1;
    assert !Multiple(gs, len).ok by {
      MultipleSucceeds(gs, len);
      assert gs[..0] == [];
    }
    assert Partial(gs, len).gs == [g.Take(g.free)];
    PartialOk(gs, len);
    assert Multiple(gs, len).gs == Multiple([g.Take(g.free)], 1).gs;
  }

  lemma OneGroup(g: Group)
    requires g.Ok() && (g.used == 0 ==> g.free >= 2)
    ensures GroupsOk([g]) && TotalFree([g]) == g.free
  {
    assert [g][..0] == [];
  }

  lemma AllocateKeepsGroups(gs: seq<Group>, len: nat)
    requires GroupsOk(gs)
    ensures GroupsOk(Allocate(gs, len).gs)
  {
    if Allocate(gs, len).ok {
      AllocateGranted(gs, len);
    } else {
      MultipleGrows(gs, len);
    }
  }

  /** The free blocks of the untouched groups. */
  function UntouchedFree(gs: seq<Group>): nat {
    if gs == [] then 0
    else UntouchedFree(gs[..|gs| - 1]) + (if gs[|gs| - 1].used == 0 then gs[|gs| - 1].free else 0)
  }

  lemma {:induction false} UntouchedFreeUpdate(gs: seq<Group>, i: nat, g: Group)
    requires i < |gs| && gs[i].used == 0 && g.used != 0
    ensures UntouchedFree(gs[i := g]) == UntouchedFree(gs) - gs[i].free
  {
    var n := |gs| - 1;
    if i == n {
      assert gs[i := g][..n] == gs[..n];
    } else {
      assert gs[i := g][..n] == gs[..n][i := g];
      UntouchedFreeUpdate(gs[..n], i, g);
    }
  }

  lemma {:induction false} UntouchedFreeBounds(gs: seq<Group>, i: nat)
    requires i < |gs| && gs[i].used == 0
    ensures gs[i].free <= UntouchedFree(gs)
  {
    if i < |gs| - 1 {
      UntouchedFreeBounds(gs[..|gs| - 1], i);
    }
  }

  lemma {:induction false} NoneUntouched(gs: seq<Group>)
    requires forall i :: 0 <= i < |gs| ==> gs[i].used != 0
    ensures UntouchedFree(gs) == 0
  {
    if gs != [] {
      NoneUntouched(gs[..|gs| - 1]);
    }
  }

  lemma {:induction false} MultipleSucceeds(gs: seq<Group>, len: nat)
    requires GroupsOk(gs) && len > 0
    ensures Multiple(gs, len).ok <==> UntouchedFree(gs) >= len
    decreases len
  {
    var u := FirstUntouched(gs, 0);
    FirstUntouchedLeast(gs, 0);
    PartialSucceeds(gs, len);
    if u == |gs| {
      NoneUntouched(gs);
    } else {
      PartialOk(gs, len);
      UntouchedFreeBounds(gs, u);
      if gs[u].free < len {
        assert gs[u].Ok() && gs[u].free >= 2;
        UntouchedFreeUpdate(gs, u, gs[u].Take(gs[u].free));
        MultipleSucceeds(Partial(gs, len).gs, len - gs[u].free);
      }
    }
  }

  /** Exactly which requests are granted: some group has len free blocks, or the untouched groups
      have that many together. */
  lemma AllocateSucceeds(gs: seq<Group>, len: nat)
    requires GroupsOk(gs) && len > 0
    ensures Allocate(gs, len).ok <==>
            (exists i :: 0 <= i < |gs| && gs[i].free >= len) || UntouchedFree(gs) >= len
  {
    FirstFitLeast(gs, len, 0);
    MultipleSucceeds(gs, len);
    if Multiple(gs, len).ok {
      MultipleGranted(gs, len);
    }
  }

  // ---------------------------------------------------------------- reduce_allocation(alloc, 1)

  /** reduce_allocation by one block, right after an allocate_blocks, whose list.last is its first
      region: the last block of that region goes back to its group. */
  function ReduceOne(gs: seq<Group>, rs: seq<Region>): (seq<Group>, seq<Region>)
    requires rs != [] && OnTop(gs, rs[0]) && rs[0].len >= 1
  {
    var r := rs[0];
    (gs[r.bg := gs[r.bg].GiveBack(1)],
     if r.len > 1 then rs[0 := r.(len := r.len - 1)] else [])
  }

  lemma ReduceOneGranted(gs: seq<Group>, gs1: seq<Group>, rs: seq<Region>, len: nat)
    requires GroupsOk(gs) && Granted(gs, gs1, rs, len) && rs != [] && len >= 1
    ensures var (gs2, rs2) := ReduceOne(gs1, rs);
            && GroupsOk(gs2) && SamePlaces(gs, gs2) && Fresh(gs, gs2, rs2)
            && TotalLen(rs2) == len - 1 && TotalFree(gs2) == TotalFree(gs) - (len - 1)
            && (|rs| > 1 || len > 1 ==> |rs2| == |rs|)
            && (forall k :: 0 <= k < |rs2| ==> rs2[k].len > 0)
  {
    var r := rs[0];
    var (gs2, rs2) := ReduceOne(gs1, rs);
    assert gs1[r.bg].Ok();
    UsedOnTop(gs, gs1, rs, len);
    UpdateOk(gs1, r.bg, gs1[r.bg].GiveBack(1));
    TotalFreeUpdate(gs1, r.bg, gs1[r.bg].GiveBack(1));
    if r.len > 1 {
      assert rs2[1..] == rs[1..];
    } else {
      assert rs[1..] == [];
    }
    ReduceFresh(gs, gs1, rs);
  }

  lemma UsedOnTop(gs: seq<Group>, gs1: seq<Group>, rs: seq<Region>, len: nat)
    requires Granted(gs, gs1, rs, len) && rs != [] && len >= 1
    ensures gs1[rs[0].bg].used != 0
  {
    var g := gs1[rs[0].bg];
    assert g.Ok() && OnTop(gs1, rs[0]) && rs[0].len > 0;
  }

  lemma ReduceFresh(gs: seq<Group>, gs1: seq<Group>, rs: seq<Region>)
    requires GroupsOk(gs) && GroupsOk(gs1) && SamePlaces(gs, gs1) && Fresh(gs, gs1, rs)
    requires rs != [] && OnTop(gs1, rs[0]) && rs[0].len >= 1 && (|rs| > 1 ==> rs[0].len >= 2)
    ensures var (gs2, rs2) := ReduceOne(gs1, rs); Fresh(gs, gs2, rs2)
  {
    var (gs2, rs2) := ReduceOne(gs1, rs);
    var r := rs[0];
    var last := r.block + r.len - 1;
    forall b: nat
      ensures HandedOut(gs2, b) <==> HandedOut(gs1, b) && b != last
      ensures InRegions(rs2, b) <==> InRegions(rs, b) && b != last
    {
      ReduceHandedOut(gs1, rs, b);
      ReduceRegions(gs, gs1, rs, b);
    }
    assert r.Holds(last);
    forall j, k, b: nat | 0 <= j < k < |rs2| && rs2[j].Holds(b)
      ensures !rs2[k].Holds(b)
    {
      assert rs[j].Holds(b);
    }
    forall k, b: nat | 0 <= k < |rs2| && rs2[k].Holds(b)
      ensures !HandedOut(gs, b) && gs[rs2[k].bg].Covers(b)
    {
      assert rs[k].Holds(b);
    }
  }

  lemma ReduceHandedOut(gs: seq<Group>, rs: seq<Region>, b: nat)
    requires GroupsOk(gs) && rs != [] && OnTop(gs, rs[0]) && rs[0].len >= 1
    ensures HandedOut(ReduceOne(gs, rs).0, b) <==> HandedOut(gs, b) && b != rs[0].block + rs[0].len - 1
  {
    var r := rs[0];
    var gs2 := ReduceOne(gs, rs).0;
    var last := r.block + r.len - 1;
    assert gs[r.bg].Ok();
    if HandedOut(gs2, b) {
      var j :| 0 <= j < |gs2| && gs2[j].Holds(b);
      assert gs[j].Holds(b) && gs[j].Ok();
      if b == last {
        GroupsApart(gs, j, r.bg, b);
      }
    }
    if HandedOut(gs, b) {
      var j :| 0 <= j < |gs| && gs[j].Holds(b);
      if b != last {
        assert gs2[j].Holds(b);
      }
    }
  }

  lemma ReduceRegions(gs: seq<Group>, gs1: seq<Group>, rs: seq<Region>, b: nat)
    requires Fresh(gs, gs1, rs)
    requires rs != [] && OnTop(gs1, rs[0]) && rs[0].len >= 1 && (|rs| > 1 ==> rs[0].len >= 2)
    ensures InRegions(ReduceOne(gs1, rs).1, b) <==> InRegions(rs, b) && b != rs[0].block + rs[0].len - 1
  {
    var r := rs[0];
    var rs2 := ReduceOne(gs1, rs).1;
    var last := r.block + r.len - 1;
    assert r.Holds(last);
    if InRegions(rs2, b) {
      var k :| 0 <= k < |rs2| && rs2[k].Holds(b);
      assert rs[k].Holds(b);
    }
    if InRegions(rs, b) && b != last {
      var k :| 0 <= k < |rs| && rs[k].Holds(b);
      assert rs2[k].Holds(b);
    }
  }

  // ---------------------------------------------------------------- runs

  /** The calls the image writer makes. */
  datatype Call = AllocateBlock | AllocateBlocks(len: nat) | AllocateLess(len: nat)

  /** The groups, the regions handed out and not given back, and whether a request ever failed. */
  datatype State = State(gs: seq<Group>, out: seq<Region>, failed: bool)

  function Step(s: State, c: Call): State
    requires GroupsOk(s.gs)
  {
    match c
    case AllocateBlock =>
      var i := FirstFit(s.gs, 1, 0);
      if i < |s.gs| then State(TakeFrom(s.gs, i, 1), s.out + [RegionAt(s.gs, i, 1)], s.failed)
      else s.(failed := true)
    case AllocateBlocks(len) =>
      var g := Allocate(s.gs, len);
      if g.ok then State(g.gs, s.out + g.regions, s.failed) else State(g.gs, s.out, true)
    case AllocateLess(len) =>
      var g := Allocate(s.gs, len);
      if g.ok && len >= 1 then
        AllocateGranted(s.gs, len);
        var (gs, rs) := ReduceOne(g.gs, g.regions);
        State(gs, s.out + rs, s.failed)
      else State(g.gs, s.out, true)
  }

  /** What every run keeps, starting from the groups gs0. */
  ghost predicate RunInvariant(gs0: seq<Group>, s: State) {
    && GroupsOk(s.gs) && SamePlaces(gs0, s.gs)
    && (forall k :: 0 <= k < |s.out| ==> s.out[k].bg < |gs0|)
    && (forall b: nat :: HandedOut(gs0, b) || InRegions(s.out, b) ==> HandedOut(s.gs, b))
    && (forall k, b: nat {:trigger s.out[k].Holds(b)} :: 0 <= k < |s.out| && s.out[k].Holds(b) ==>
          !HandedOut(gs0, b) && gs0[s.out[k].bg].Covers(b))
    && (forall j, k, b: nat {:trigger s.out[j].Holds(b), s.out[k].Holds(b)} ::
          0 <= j < k < |s.out| && s.out[j].Holds(b) ==> !s.out[k].Holds(b))
    && TotalFree(s.gs) + TotalLen(s.out) <= TotalFree(gs0)
    && (!s.failed ==> TotalFree(s.gs) + TotalLen(s.out) == TotalFree(gs0))
  }

  lemma {:induction false} TotalLenConcat(x: seq<Region>, y: seq<Region>)
    ensures TotalLen(x + y) == TotalLen(x) + TotalLen(y)
  {
    if x == [] {
      assert x + y == y;
    } else {
      assert (x + y)[1..] == x[1..] + y;
      TotalLenConcat(x[1..], y);
    }
  }

  lemma InRegionsConcat(x: seq<Region>, y: seq<Region>, b: nat)
    ensures InRegions(x + y, b) <==> InRegions(x, b) || InRegions(y, b)
  {
    if InRegions(x, b) {
      var k :| 0 <= k < |x| && x[k].Holds(b);
      assert (x + y)[k].Holds(b);
    }
    if InRegions(y, b) {
      var k :| 0 <= k < |y| && y[k].Holds(b);
      assert (x + y)[|x| + k].Holds(b);
    }
    if InRegions(x + y, b) {
      var k :| 0 <= k < |x + y| && (x + y)[k].Holds(b);
      assert if k < |x| then x[k].Holds(b) else y[k - |x|].Holds(b);
    }
  }

  /** Regions fresh with respect to the current groups can be added to the outstanding ones. */
  lemma AddFresh(gs0: seq<Group>, s: State, gs': seq<Group>, rs: seq<Region>)
    requires RunInvariant(gs0, s) && Fresh(s.gs, gs', rs) && GroupsOk(gs') && SamePlaces(s.gs, gs')
    requires TotalFree(gs') == TotalFree(s.gs) - TotalLen(rs)
    ensures RunInvariant(gs0, State(gs', s.out + rs, s.failed))
  {
    TotalLenConcat(s.out, rs);
    AddFreshHandedOut(gs0, s, gs', rs);
    AddFreshCovered(gs0, s, gs', rs);
    AddFreshDisjoint(gs0, s, gs', rs);
  }

  lemma AddFreshHandedOut(gs0: seq<Group>, s: State, gs': seq<Group>, rs: seq<Region>)
    requires RunInvariant(gs0, s) && Fresh(s.gs, gs', rs)
    ensures forall b: nat :: HandedOut(gs0, b) || InRegions(s.out + rs, b) ==> HandedOut(gs', b)
  {
    forall b: nat
      ensures HandedOut(gs0, b) || InRegions(s.out + rs, b) ==> HandedOut(gs', b)
    {
      InRegionsConcat(s.out, rs, b);
    }
  }

  lemma AddFreshCovered(gs0: seq<Group>, s: State, gs': seq<Group>, rs: seq<Region>)
    requires RunInvariant(gs0, s) && Fresh(s.gs, gs', rs)
    ensures var all := s.out + rs;
            && (forall k :: 0 <= k < |all| ==> all[k].bg < |gs0|)
            && (forall k, b: nat {:trigger all[k].Holds(b)} :: 0 <= k < |all| && all[k].Holds(b) ==>
                  !HandedOut(gs0, b) && gs0[all[k].bg].Covers(b))
  {
    var all := s.out + rs;
    forall k | 0 <= k < |all|
      ensures all[k].bg < |gs0|
      ensures forall b: nat :: all[k].Holds(b) ==> !HandedOut(gs0, b) && gs0[all[k].bg].Covers(b)
    {
      if k >= |s.out| {
        var j := k - |s.out|;
        assert all[k] == rs[j];
        forall b: nat | all[k].Holds(b)
          ensures !HandedOut(gs0, b) && gs0[all[k].bg].Covers(b)
        {
          assert rs[j].Holds(b);
          assert s.gs[rs[j].bg].Covers(b);
        }
      }
    }
  }

  lemma AddFreshDisjoint(gs0: seq<Group>, s: State, gs': seq<Group>, rs: seq<Region>)
    requires RunInvariant(gs0, s) && Fresh(s.gs, gs', rs)
    ensures var all := s.out + rs;
            forall j, k, b: nat {:trigger all[j].Holds(b), all[k].Holds(b)} ::
              0 <= j < k < |all| && all[j].Holds(b) ==> !all[k].Holds(b)
  {
    var all := s.out + rs;
    forall j, k, b: nat | 0 <= j < k < |all| && all[j].Holds(b)
      ensures !all[k].Holds(b)
    {
      if j < |s.out| <= k {
        assert InRegions(s.out, b);
        assert all[k] == rs[k - |s.out|];
      } else if j >= |s.out| {
        assert all[j] == rs[j - |s.out|] && all[k] == rs[k - |s.out|];
      }
    }
  }

  lemma StepFailed(gs0: seq<Group>, s: State, len: nat)
    requires RunInvariant(gs0, s) && !Allocate(s.gs, len).ok
    ensures RunInvariant(gs0, State(Allocate(s.gs, len).gs, s.out, true))
  {
    MultipleGrows(s.gs, len);
  }

  lemma StepKeepsInvariant(gs0: seq<Group>, s: State, c: Call)
    requires RunInvariant(gs0, s)
    ensures RunInvariant(gs0, Step(s, c))
  {
    match c {
      case AllocateBlock =>
        var i := FirstFit(s.gs, 1, 0);
        if i < |s.gs| {
          TakeGranted(s.gs, i, 1);
          AddFresh(gs0, s, TakeFrom(s.gs, i, 1), [RegionAt(s.gs, i, 1)]);
        }
      case AllocateBlocks(len) =>
        var g := Allocate(s.gs, len);
        if g.ok {
          AllocateGranted(s.gs, len);
          AddFresh(gs0, s, g.gs, g.regions);
        } else {
          StepFailed(gs0, s, len);
        }
      case AllocateLess(len) => StepLess(gs0, s, len);
    }
  }

  lemma StepLess(gs0: seq<Group>, s: State, len: nat)
    requires RunInvariant(gs0, s)
    ensures RunInvariant(gs0, Step(s, AllocateLess(len)))
  {
    var g := Allocate(s.gs, len);
    if !g.ok {
      StepFailed(gs0, s, len);
    } else {
      AllocateGranted(s.gs, len);
      if len >= 1 {
        ReduceOneGranted(s.gs, g.gs, g.regions, len);
        var (gs, rs) := ReduceOne(g.gs, g.regions);
        AddFresh(gs0, s, gs, rs);
      } else {
        GrantedGrows(gs0, s, g, len);
      }
    }
  }

  lemma GrantedGrows(gs0: seq<Group>, s: State, g: Grant, len: nat)
    requires RunInvariant(gs0, s) && Granted(s.gs, g.gs, g.regions, len)
    ensures RunInvariant(gs0, State(g.gs, s.out, true))
  {}

  lemma StepKeepsGroups(s: State, c: Call)
    requires GroupsOk(s.gs)
    ensures GroupsOk(Step(s, c).gs)
  {
    match c {
      case AllocateBlock =>
        var i := FirstFit(s.gs, 1, 0);
        if i < |s.gs| {
          TakeFromOk(s.gs, i, 1);
        }
      case AllocateBlocks(len) => AllocateKeepsGroups(s.gs, len);
      case AllocateLess(len) =>
        AllocateKeepsGroups(s.gs, len);
        var g := Allocate(s.gs, len);
        if g.ok && len >= 1 {
          AllocateGranted(s.gs, len);
          ReduceOneGranted(s.gs, g.gs, g.regions, len);
        }
    }
  }

  /** The state after a run of calls on the groups gs0. */
  function Run(gs0: seq<Group>, calls: seq<Call>): (s: State)
    requires GroupsOk(gs0)
    ensures GroupsOk(s.gs)
    decreases |calls|
  {
    if calls == [] then State(gs0, [], false)
    else
      var s := Run(gs0, calls[..|calls| - 1]);
      StepKeepsGroups(s, calls[|calls| - 1]);
      Step(s, calls[|calls| - 1])
  }

  /** Main result: after every run the outstanding blocks are pairwise distinct data blocks that were
      free at the start, and free and outstanding blocks add up. */
  lemma {:induction false} RunsKeepInvariant(gs0: seq<Group>, calls: seq<Call>)
    requires GroupsOk(gs0)
    ensures RunInvariant(gs0, Run(gs0, calls))
    decreases |calls|
  {
    if calls != [] {
      var n := |calls| - 1;
      RunsKeepInvariant(gs0, calls[..n]);
      StepKeepsInvariant(gs0, Run(gs0, calls[..n]), calls[n]);
    }
  }
}
