/** Which tables the evaluation of symbols is well defined on: those without a cycle of dependencies. */
module SymbolRanks {
  import opened Exprs
  import opened ExprEquality
  import opened SymbolTable
  import opened SymbolCheck

  // ---------------------------------------------------------------- the graph evaluation looks at

  ghost predicate Looks(decls: seq<Decl>, p: seq<nat>, k: nat)
    requires k + 1 < |p| && p[k] < |decls|
  {
    DependsOn(decls[p[k]], p[k + 1])
  }

  ghost predicate DependsWalk(decls: seq<Decl>, p: seq<nat>) {
    && (forall k :: 0 <= k < |p| ==> p[k] < |decls|)
    && (forall k {:trigger Looks(decls, p, k)} :: 0 <= k < |p| - 1 ==> Looks(decls, p, k))
  }

  ghost predicate DependsCycle(decls: seq<Decl>, c: seq<nat>) {
    c != [] && DependsWalk(decls, c) && DependsOn(decls[c[|c| - 1]], c[0])
  }

  lemma LooksSuffix(decls: seq<Decl>, p: seq<nat>, k: nat)
    requires DependsWalk(decls, p) && k <= |p|
    ensures DependsWalk(decls, p[k..])
  {
    forall n | 0 <= n < |p| - k - 1
      ensures Looks(decls, p[k..], n)
    {
      assert Looks(decls, p, k + n);
    }
  }

  lemma LooksExtend(decls: seq<Decl>, p: seq<nat>, s: nat)
    requires DependsWalk(decls, p) && s < |decls| && (p != [] ==> DependsOn(decls[p[|p| - 1]], s))
    ensures DependsWalk(decls, p + [s])
  {
    forall n | 0 <= n < |p|
      ensures Looks(decls, p + [s], n)
    {
      if n < |p| - 1 {
        assert Looks(decls, p, n);
      }
    }
  }

  /** Dependencies are declared symbols. */
  lemma DependsInside(decls: seq<Decl>, i: nat, j: nat)
    requires DeclsOk(decls) && i < |decls| && DependsOn(decls[i], j)
    ensures j < |decls|
  {
    var d := decls[i];
    assert DeclOk(decls, d);
    if j in OptIds(d.dirDep) {
      OptInside(decls, d.dirDep, j);
    } else if j in OptIds(d.revDep) {
      OptInside(decls, d.revDep, j);
    } else {
      var k :| 0 <= k < |d.props| && j in PropIds(d.props[k]);
      assert PropOk(decls, d.props[k]);
      if j in OptIds(d.props[k].visible) {
        OptInside(decls, d.props[k].visible, j);
      } else {
        OptInside(decls, d.props[k].expr, j);
      }
    }
  }

  lemma OptInside(decls: seq<Decl>, e: OptExpr, j: nat)
    requires OptOk(decls, e) && j in OptIds(e)
    ensures j < |decls|
  {
    ExprInside(decls, e.e, j);
  }

  lemma {:induction false} ExprInside(decls: seq<Decl>, e: Expr, j: nat)
    requires ExprOk(decls, e) && j in Ids(e)
    ensures j < |decls|
  {
    match e
    case Not(x) => ExprInside(decls, x, j);
    case Bin(_, l, r) =>
      if j in Ids(l) {
        ExprInside(decls, l, j);
      } else {
        ExprInside(decls, r, j);
      }
    case _ =>
  }

  // ---------------------------------------------------------------- a rank rules out cycles

  lemma {:induction false} RankFalls(g: Ranked, c: seq<nat>, k: nat)
    requires g.Valid() && DependsWalk(g.t.decls, c) && k < |c|
    ensures g.rank[c[k]] <= g.rank[c[0]]
  {
    if k > 0 {
      RankFalls(g, c, k - 1);
      assert Looks(g.t.decls, c, k - 1);
    }
  }

  lemma RankedNoCycle(g: Ranked, c: seq<nat>)
    requires g.Valid()
    ensures !DependsCycle(g.t.decls, c)
  {
    if DependsCycle(g.t.decls, c) {
      RankFalls(g, c, |c| - 1);
    }
  }

  // ---------------------------------------------------------------- and can be found without them

  ghost predicate AllDifferent(p: seq<nat>) {
    forall i, j :: 0 <= i < j < |p| ==> p[i] != p[j]
  }

  /** There are no more than n different numbers below n. */
  lemma {:induction false} DifferentAtMost(p: seq<nat>, n: nat)
    requires AllDifferent(p) && forall k :: 0 <= k < |p| ==> p[k] < n
    ensures |p| <= n
  {
    if p != [] {
      assert p[0] < n;
      if k :| 0 <= k < |p| && p[k] == n - 1 {
        var rest := p[..k] + p[k + 1..];
        forall i | 0 <= i < |rest|
          ensures rest[i] == p[if i < k then i else i + 1] && rest[i] < n - 1
        {}
        DifferentAtMost(rest, n - 1);
      } else {
        DifferentAtMost(p, n - 1);
      }
    }
  }

  /** Everything a symbol looks at is in done. */
  ghost predicate Settled(decls: seq<Decl>, done: seq<nat>, s: nat) {
    s < |decls| && forall j :: DependsOn(decls[s], j) ==> j in done
  }

  /** Going from symbol to symbol outside done ends at one that looks only at done, or in a cycle. */
  lemma {:induction false} FindSettled(decls: seq<Decl>, done: seq<nat>, p: seq<nat>) returns (s: nat)
    requires DeclsOk(decls) && DependsWalk(decls, p) && AllDifferent(p) && p != []
    requires forall k :: 0 <= k < |p| ==> p[k] !in done
    requires !exists c :: DependsCycle(decls, c)
    ensures s !in done && Settled(decls, done, s)
    decreases |decls| - |p|
  {
    var last := p[|p| - 1];
    if Settled(decls, done, last) {
      s := last;
    } else {
      var j :| DependsOn(decls[last], j) && j !in done;
      DependsInside(decls, last, j);
      if k :| 0 <= k < |p| && p[k] == j {
        LooksSuffix(decls, p, k);
        assert DependsCycle(decls, p[k..]);
      }
      LooksExtend(decls, p, j);
      DifferentAtMost(p + [j], |decls|);
      s := FindSettled(decls, done, p + [j]);
    }
  }

  /** Every symbol in done looks only at symbols before it. */
  ghost predicate Ordered(decls: seq<Decl>, done: seq<nat>) {
    && AllDifferent(done) && (forall p :: 0 <= p < |done| ==> done[p] < |decls|)
    && forall p {:trigger done[p]} :: 0 <= p < |done| ==> Settled(decls, done[..p], done[p])
  }

  lemma OrderedAppend(decls: seq<Decl>, done: seq<nat>, s: nat)
    requires Ordered(decls, done) && s !in done && Settled(decls, done, s)
    ensures Ordered(decls, done + [s])
  {
    var done' := done + [s];
    forall p | 0 <= p < |done'|
      ensures Settled(decls, done'[..p], done'[p])
    {
      assert done'[..p] == done[..p];
      if p == |done| {
        assert done[..p] == done;
      }
    }
  }

  lemma {:induction false} OrderAll(decls: seq<Decl>, done: seq<nat>) returns (all: seq<nat>)
    requires DeclsOk(decls) && Ordered(decls, done) && !exists c :: DependsCycle(decls, c)
    ensures Ordered(decls, all) && forall i :: 0 <= i < |decls| ==> i in all
    decreases |decls| - |done|
  {
    if i: nat :| i < |decls| && i !in done {
      var s := FindSettled(decls, done, [i]);
      OrderedAppend(decls, done, s);
      DifferentAtMost(done + [s], |decls|);
      all := OrderAll(decls, done + [s]);
    } else {
      all := done;
    }
  }

  lemma DependsEarlier(decls: seq<Decl>, done: seq<nat>, i: nat, j: nat)
    requires DeclsOk(decls) && Ordered(decls, done) && i in done && i < |decls| && DependsOn(decls[i], j)
    ensures j < |decls| && j in done && Place(done, j) < Place(done, i)
  {
    DependsInside(decls, i, j);
    var p := Place(done, i);
    assert Settled(decls, done[..p], done[p]);
    var q :| 0 <= q < p && done[..p][q] == j;
    assert done[q] == j;
  }

  lemma OrderedRanks(t: Table, done: seq<nat>)
    requires |t.decls| == |t.users| && DeclsOk(t.decls) && Ordered(t.decls, done)
    requires forall i :: 0 <= i < |t.decls| ==> i in done
    ensures Ranked(t, Places(done, |t.decls|)).Valid()
  {
    var rank := Places(done, |t.decls|);
    forall i: int, j: nat {:trigger DependsOn(t.decls[i], j)} | 0 <= i < |t.decls| && DependsOn(t.decls[i], j)
      ensures j < |t.decls| && rank[j] < rank[i]
    {
      DependsEarlier(t.decls, done, i, j);
    }
  }

  /** Main result: a table can be ranked, and evaluation is well defined on it, if and only if no symbol
      depends on itself over however many others. */
  lemma RankedExactly(t: Table)
    requires |t.decls| == |t.users| && DeclsOk(t.decls)
    ensures (exists rank :: Ranked(t, rank).Valid()) <==> !exists c :: DependsCycle(t.decls, c)
  {
    if rank :| Ranked(t, rank).Valid() {
      forall c
        ensures !DependsCycle(t.decls, c)
      {
        RankedNoCycle(Ranked(t, rank), c);
      }
    }
    if !exists c :: DependsCycle(t.decls, c) {
      var done := OrderAll(t.decls, []);
      OrderedRanks(t, done);
    }
  }
}
