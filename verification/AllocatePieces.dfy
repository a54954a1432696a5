/** Where the regions of a request lie: whole free runs of untouched groups, and the rest in the first group
    that has it. */
module AllocatePieces {
  import opened AllocateSpec

  /** Region k is all that its group has, and the group is untouched. */
  predicate WholeRun(gs: seq<Group>, rs: seq<Region>, k: nat)
    requires k < |rs|
  {
    rs[k].bg < |gs| && gs[rs[k].bg].used == 0 && rs[k] == RegionAt(gs, rs[k].bg, gs[rs[k].bg].free)
  }

  /** One of the first n regions is in group i. */
  ghost predicate Drawn(rs: seq<Region>, n: nat, i: nat)
    requires n <= |rs|
  {
    exists j :: 0 <= j < n && rs[j].bg == i
  }

  /** The groups of the first n regions are the first n untouched ones. */
  ghost predicate FirstOnes(gs: seq<Group>, rs: seq<Region>, n: nat)
    requires n <= |rs|
  {
    && (forall j, k :: 0 <= j < k < n ==> rs[j].bg < rs[k].bg)
    && forall k, i {:trigger Drawn(rs, k, i)} :: 0 <= k < n && 0 <= i < |gs| && i < rs[k].bg && gs[i].used == 0 ==>
         Drawn(rs, k, i)
  }

  /** Of the groups before the last region's none has room for it, after the request as before. */
  predicate InFirstFit(gs: seq<Group>, rs: seq<Region>)
    requires rs != []
  {
    var r := rs[|rs| - 1];
    r.bg < |gs| && forall i :: 0 <= i < r.bg ==> gs[i].free < r.len
  }

  ghost predicate Pieces(gs: seq<Group>, gs': seq<Group>, rs: seq<Region>) {
    && rs != [] && InFirstFit(gs', rs)
    && (forall k {:trigger WholeRun(gs, rs, k)} :: 0 <= k < |rs| - 1 ==> WholeRun(gs, rs, k))
    && FirstOnes(gs, rs, |rs| - 1)
  }

  lemma OnePiece(gs: seq<Group>, len: nat)
    requires OneRun(gs, len).ok
    ensures Pieces(gs, OneRun(gs, len).gs, OneRun(gs, len).regions)
  {
    FirstFitLeast(gs, len, 0);
  }

  /** The whole run of the first untouched group, and then the pieces of the rest. */
  lemma PiecesBehind(gs: seq<Group>, u: nat, gs1: seq<Group>, gs2: seq<Group>, rs: seq<Region>)
    requires u < |gs| && u == FirstUntouched(gs, 0) && gs[u].free > 0
    requires gs1 == TakeFrom(gs, u, gs[u].free) && Pieces(gs1, gs2, rs)
    ensures Pieces(gs, gs2, [RegionAt(gs, u, gs[u].free)] + rs)
  {
    var r := RegionAt(gs, u, gs[u].free);
    var all := [r] + rs;
    FirstUntouchedLeast(gs, 0);
    forall k | 0 <= k < |all| - 1
      ensures WholeRun(gs, all, k) && (k > 0 ==> u < all[k].bg)
    {
      if k > 0 {
        assert WholeRun(gs1, rs, k - 1);
      }
    }
    forall k | 0 <= k < |rs| - 1
      ensures u < rs[k].bg
    {
      assert WholeRun(gs, all, k + 1) && rs[k] == all[k + 1];
    }
    FirstOnesBehind(gs, u, gs1, rs);
  }

  lemma DrawnBehind(r: Region, rs: seq<Region>, n: nat, i: nat)
    requires n <= |rs|
    ensures Drawn(rs, n, i) ==> Drawn([r] + rs, n + 1, i)
  {
    if Drawn(rs, n, i) {
      var j :| 0 <= j < n && rs[j].bg == i;
      assert ([r] + rs)[j + 1].bg == i;
    }
  }

  lemma FirstOnesBehind(gs: seq<Group>, u: nat, gs1: seq<Group>, rs: seq<Region>)
    requires u < |gs| && u == FirstUntouched(gs, 0) && gs[u].free > 0
    requires gs1 == TakeFrom(gs, u, gs[u].free) && rs != [] && FirstOnes(gs1, rs, |rs| - 1)
    requires forall k :: 0 <= k < |rs| - 1 ==> u < rs[k].bg
    ensures FirstOnes(gs, [RegionAt(gs, u, gs[u].free)] + rs, |rs|)
  {
    var all := [RegionAt(gs, u, gs[u].free)] + rs;
    FirstUntouchedLeast(gs, 0);
    forall k, i | 0 <= k < |rs| && 0 <= i < |gs| && i < all[k].bg && gs[i].used == 0
      ensures Drawn(all, k, i)
    {
      if k > 0 {
        if i == u {
          assert all[0].bg == i;
        } else {
          assert gs1[i] == gs[i] && rs[k - 1] == all[k];
          DrawnBehind(all[0], rs, k - 1, i);
        }
      }
    }
  }

  lemma {:induction false} MultiplePieces(gs: seq<Group>, len: nat)
    requires GroupsOk(gs) && len > 0 && Multiple(gs, len).ok
    ensures Pieces(gs, Multiple(gs, len).gs, Multiple(gs, len).regions)
    decreases len
  {
    var u := FirstUntouched(gs, 0);
    PartialOk(gs, len);
    var p := Partial(gs, len);
    if len <= gs[u].free {
      OnePiece(gs, len);
      assert p.regions + [] == p.regions;
    } else {
      assert gs[u].Ok();
      MultiplePieces(p.gs, len - gs[u].free);
      var rest := Multiple(p.gs, len - gs[u].free);
      PiecesBehind(gs, u, p.gs, rest.gs, rest.regions);
    }
  }

  /** Main result: every region but the last one is the whole free run of an untouched group, the groups being
      the first untouched ones in order; the last region lies in the first group that has room for it. */
  lemma AllocateInPieces(gs: seq<Group>, len: nat)
    requires GroupsOk(gs) && len > 0 && AllocateSpec.Allocate(gs, len).ok
    ensures Pieces(gs, AllocateSpec.Allocate(gs, len).gs, AllocateSpec.Allocate(gs, len).regions)
  {
    if OneRun(gs, len).ok {
      OnePiece(gs, len);
    } else {
      MultiplePieces(gs, len);
    }
  }
}
