/** How many regions a request is served with: the untouched groups are used up one after the other. */
module AllocateCount {
  import opened AllocateSpec

  /** The number of untouched groups. */
  function Untouched(gs: seq<Group>): (n: nat)
    ensures n <= |gs|
  {
    if gs == [] then 0 else Untouched(gs[..|gs| - 1]) + (if gs[|gs| - 1].used == 0 then 1 else 0)
  }

  lemma {:induction false} UntouchedUpdate(gs: seq<Group>, i: nat, g: Group)
    requires i < |gs| && gs[i].used == 0 && g.used != 0
    ensures Untouched(gs[i := g]) == Untouched(gs) - 1
  {
    var n := |gs| - 1;
    if i == n {
      assert gs[i := g][..n] == gs[..n];
    } else {
      assert gs[i := g][..n] == gs[..n][i := g];
      UntouchedUpdate(gs[..n], i, g);
    }
  }

  lemma {:induction false} NothingUntouched(gs: seq<Group>)
    requires forall i :: 0 <= i < |gs| ==> gs[i].used != 0
    ensures Untouched(gs) == 0
  {
    if gs != [] {
      NothingUntouched(gs[..|gs| - 1]);
    }
  }

  lemma {:induction false} FreeMonotone(gs: seq<Group>, i: nat, j: nat)
    requires i <= j <= |gs|
    ensures UntouchedFree(gs[..i]) <= UntouchedFree(gs[..j])
  {
    if i < j {
      FreeMonotone(gs, i, j - 1);
      assert gs[..j][..j - 1] == gs[..j - 1];
    }
  }

  /** The first untouched group is the first to count. */
  lemma UpToFirst(gs: seq<Group>, u: nat)
    requires u < |gs| && u == FirstUntouched(gs, 0)
    ensures UntouchedFree(gs[..u + 1]) == gs[u].free && Untouched(gs[..u + 1]) == 1 && UntouchedFree(gs[..u]) == 0
  {
    FirstUntouchedLeast(gs, 0);
    NoneUntouched(gs[..u]);
    NothingUntouched(gs[..u]);
    assert gs[..u + 1][..u] == gs[..u];
  }

  /** The first c groups are just enough for len blocks. */
  predicate JustEnough(gs: seq<Group>, c: nat, len: nat) {
    0 < c <= |gs| && UntouchedFree(gs[..c - 1]) < len <= UntouchedFree(gs[..c])
  }

  /** Once the first untouched group is used up, the same groups are just enough for the rest. */
  lemma JustEnoughRest(gs: seq<Group>, c: nat, len: nat)
    requires GroupsOk(gs) && JustEnough(gs, c, len)
    ensures var u := FirstUntouched(gs, 0);
            && u < c && gs[u].used == 0 && gs[u].free >= 2
            && (len <= gs[u].free ==> Untouched(gs[..c]) == 1)
            && (len > gs[u].free ==>
                  var gs1 := TakeFrom(gs, u, gs[u].free);
                  && JustEnough(gs1, c, len - gs[u].free) && Untouched(gs1[..c]) == Untouched(gs[..c]) - 1)
  {
    var u := FirstUntouched(gs, 0);
    FirstUntouchedLeast(gs, 0);
    if u >= c {
      NoneUntouched(gs[..c]);
      assert false;
    }
    assert gs[u].Ok();
    UpToFirst(gs, u);
    if len <= gs[u].free {
      if u + 1 <= c - 1 {
        FreeMonotone(gs, u + 1, c - 1);
        assert false;
      }
    } else {
      var g := gs[u].Take(gs[u].free);
      var gs1 := TakeFrom(gs, u, gs[u].free);
      assert u < c - 1;
      TakePrefix(gs, u, g, c - 1);
      TakePrefix(gs, u, g, c);
    }
  }

  lemma TakePrefix(gs: seq<Group>, u: nat, g: Group, c: nat)
    requires u < c <= |gs| && gs[u].used == 0 && g.used != 0
    ensures UntouchedFree(gs[u := g][..c]) == UntouchedFree(gs[..c]) - gs[u].free
    ensures Untouched(gs[u := g][..c]) == Untouched(gs[..c]) - 1
  {
    assert gs[u := g][..c] == gs[..c][u := g];
    UntouchedFreeUpdate(gs[..c], u, g);
    UntouchedUpdate(gs[..c], u, g);
  }

  /** Main result: a request that goes over several groups gets one region for every untouched group
      among the first ones that are just enough for it. */
  lemma {:induction false} MultipleCount(gs: seq<Group>, c: nat, len: nat)
    requires GroupsOk(gs) && JustEnough(gs, c, len)
    ensures Multiple(gs, len).ok && |Multiple(gs, len).regions| == Untouched(gs[..c])
    decreases len
  {
    var u := FirstUntouched(gs, 0);
    JustEnoughRest(gs, c, len);
    PartialSucceeds(gs, len);
    PartialOk(gs, len);
    var p := Partial(gs, len);
    if len > gs[u].free {
      MultipleCount(p.gs, c, len - gs[u].free);
    } else {
      assert p.regions[0].len == len;
    }
  }

  /** The same for a request: one region if some group can hold it. */
  lemma AllocateCounts(gs: seq<Group>, c: nat, len: nat)
    requires GroupsOk(gs) && JustEnough(gs, c, len)
    ensures var g := AllocateSpec.Allocate(gs, len);
            && g.ok
            && |g.regions| == if exists i :: 0 <= i < |gs| && gs[i].free >= len then 1 else Untouched(gs[..c])
  {
    FirstFitLeast(gs, len, 0);
    MultipleCount(gs, c, len);
    if Untouched(gs[..c]) == 0 {
      MultipleGranted(gs, len);
    }
  }

  /** Enough groups are just enough for some number of them. */
  lemma {:induction false} SomeJustEnough(gs: seq<Group>, n: nat, len: nat) returns (c: nat)
    requires n <= |gs| && 0 < len <= UntouchedFree(gs[..n])
    ensures c <= n && JustEnough(gs, c, len)
  {
    if UntouchedFree(gs[..n - 1]) < len {
      c := n;
    } else {
      c := SomeJustEnough(gs, n - 1, len);
    }
  }

  // ---------------------------------------------------------------- a new image

  lemma {:induction false} AllUntouched(gs: seq<Group>)
    requires forall i :: 0 <= i < |gs| ==> gs[i].used == 0
    ensures Untouched(gs) == |gs|
  {
    if gs != [] {
      AllUntouched(gs[..|gs| - 1]);
    }
  }

  lemma {:induction false} FreeAtLeast(gs: seq<Group>, m: nat)
    requires forall i :: 0 <= i < |gs| ==> gs[i].free >= m
    ensures UntouchedFree(gs) >= m * Untouched(gs)
  {
    if gs != [] {
      FreeAtLeast(gs[..|gs| - 1], m);
    }
  }

  /** One block, as the resize inode takes it, and one block the way files and directories get it: both
      come from the first group. */
  lemma FirstGroupServes(gs: seq<Group>)
    requires GroupsOk(gs) && gs != [] && gs[0].free >= 3
    ensures Run(gs, [AllocateBlocks(1), AllocateLess(2)]).gs == gs[0 := gs[0].Take(1).Take(2).GiveBack(1)]
  {
    var one, two := AllocateBlocks(1), AllocateLess(2);
    assert [one, two][..1] == [one] && [one][..0] == [];
    assert Run(gs, []) == State(gs, [], false);
    OneServed(gs, [], one);
    var s := Run(gs, [one]);
    TwoServed(s);
  }

  lemma OneServed(gs: seq<Group>, out: seq<Region>, c: Call)
    requires GroupsOk(gs) && gs != [] && gs[0].free >= 1 && c == AllocateBlocks(1)
    ensures Step(State(gs, out, false), c).gs == gs[0 := gs[0].Take(1)]
  {
    assert AllocateSpec.Allocate(gs, 1) == Grant(TakeFrom(gs, 0, 1), [RegionAt(gs, 0, 1)], true);
  }

  lemma TwoServed(s: State)
    requires GroupsOk(s.gs) && s.gs != [] && s.gs[0].free >= 2
    ensures Step(s, AllocateLess(2)).gs == s.gs[0 := s.gs[0].Take(2).GiveBack(1)]
  {
    AllocateGranted(s.gs, 2);
    assert AllocateSpec.Allocate(s.gs, 2) == Grant(TakeFrom(s.gs, 0, 2), [RegionAt(s.gs, 0, 2)], true);
  }
}
