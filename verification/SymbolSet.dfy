/** Whole evaluations, and sym_set_tristate_value: what setting a symbol does to it and to the others. */
module SymbolSet {
  import opened Tristate
  import opened Exprs
  import ExprEquality
  import opened SymbolTable
  import opened SymbolCalc

  /** Every VALID symbol of the table holds its value. */
  ghost predicate Cached(g: Ranked, s: seq<SymState>)
    requires g.Sized() && |s| == |g.t.decls|
  {
    forall j {:trigger Holds(g, s[j], j)} :: 0 <= j < |s| && s[j].valid ==> Holds(g, s[j], j)
  }

  /** Above all ranks. */
  ghost function Above(rank: seq<nat>): (r: nat)
    ensures forall j :: 0 <= j < |rank| ==> rank[j] < r
  {
    if rank == [] then 0
    else
      var r := Above(rank[..|rank| - 1]);
      var last := rank[|rank| - 1];
      assert forall j :: 0 <= j < |rank| - 1 ==> rank[..|rank| - 1][j] == rank[j];
      if r > last then r else last + 1
  }

  function Cleared(s: seq<SymState>): (r: seq<SymState>)
    ensures |r| == |s| && forall j :: 0 <= j < |s| ==> r[j] == s[j].(valid := false)
  {
    if s == [] then [] else [s[0].(valid := false)] + Cleared(s[1..])
  }

  /** sym_calc_value, called from outside: afterwards the symbol is VALID, and whatever is VALID is
      right. */
  method Calc(t: Symbols, i: nat, ghost g: Ranked)
    requires t.Valid() && t.Ranks(g) && i < |t.decls|
    modifies t`syms
    ensures t.Valid() && Grown(old(t.syms), t.syms) && t.syms[i].valid
    ensures g.Valid() && Cached(g, old(t.syms)) ==> Cached(g, t.syms) && t.syms[i].curr == g.TriAt(i)
  {
    ghost var s, r := t.syms, Above(g.rank);
    t.CalcValue(i, g, r);
    if g.Valid() && Cached(g, s) {
      assert Good(g, r, s);
      assert Ready(g, r, {i}, s);
      GoodAfter(g, r, s, t.syms);
      forall j | 0 <= j < |t.syms| && t.syms[j].valid
        ensures Holds(g, t.syms[j], j)
      {}
    }
  }

  /** sym_clear_all_valid. */
  method ClearAllValid(t: Symbols)
    requires t.Valid()
    modifies t`syms
    ensures t.Valid() && t.syms == Cleared(old(t.syms))
  {
    ghost var s := t.syms;
    var i := 0;
    while i < |t.syms|
      invariant i <= |t.syms| == |s| && t.Valid()
      invariant forall j :: 0 <= j < |s| ==> t.syms[j] == if j < i then s[j].(valid := false) else s[j]
    {
      t.syms := t.syms[i := t.syms[i].(valid := false)];
      i := i + 1;
    }
    assert t.syms == Cleared(s);
  }

  /** Recomputing everything: the cached evaluation agrees with the definition on all symbols. */
  method CalcAll(t: Symbols, ghost g: Ranked)
    requires t.Valid() && t.Ranks(g)
    modifies t`syms
    ensures t.Valid() && forall i :: 0 <= i < |t.syms| ==> t.syms[i].valid
    ensures g.Valid() ==> forall i :: 0 <= i < |t.syms| ==> t.syms[i].curr == g.TriAt(i)
  {
    ClearAllValid(t);
    var i := 0;
    while i < |t.decls|
      invariant i <= |t.decls| && t.Valid() && (g.Valid() ==> Cached(g, t.syms))
      invariant forall j :: 0 <= j < i ==> t.syms[j].valid
    {
      ghost var s := t.syms;
      Calc(t, i, g);
      assert forall j :: 0 <= j < i ==> s[j].valid ==> t.syms[j] == s[j];
      i := i + 1;
    }
    if g.Valid() {
      forall j | 0 <= j < |t.syms|
        ensures t.syms[j].curr == g.TriAt(j)
      {
        assert Holds(g, t.syms[j], j);
      }
    }
  }

  // ---------------------------------------------------------------- setting a value

  /** sym_tristate_within_range. */
  predicate WithinRange(d: Decl, modules: Tri, s: SymState, val: Tri) {
    var ty := EffectiveType(d.ty, modules);
    if s.visible == NO then false
    else if ty != Boolean && ty != SymType.Tristate then false
    else if ty == Boolean && val == MOD then false
    else if s.visible <= s.revDep then false
    else s.revDep <= val <= s.visible
  }

  /** sym_set_tristate_value. */
  method SetTristateValue(t: Symbols, i: nat, val: Tri) returns (ok: bool)
    requires t.Valid() && i < |t.decls|
    modifies t`syms, t`users
    ensures t.Valid()
    ensures ok <==> val == old(t.syms[i].curr) || WithinRange(t.decls[i], t.modules, old(t.syms[i]), val)
    ensures t.users == if ok then old(t.users)[i := Value(val)] else old(t.users)
    ensures t.syms == if ok && val != old(t.syms[i].curr) then Cleared(old(t.syms)) else old(t.syms)
  {
    var oldval := t.syms[i].curr;
    if oldval != val && !WithinRange(t.decls[i], t.modules, t.syms[i], val) {
      return false;
    }
    t.users := t.users[i := Value(val)];
    if oldval != val {
      ClearAllValid(t);
    }
    ok := true;
  }

  function WithUser(g: Ranked, i: nat, val: Tri): Ranked
    requires i < |g.t.users|
  {
    g.(t := g.t.(users := g.t.users[i := Value(val)]))
  }

  lemma WithUserValid(g: Ranked, i: nat, val: Tri)
    requires g.Valid() && i < |g.t.decls|
    ensures WithUser(g, i, val).Valid()
  {
    var h := WithUser(g, i, val);
    forall k, j: nat | 0 <= k < |h.t.decls| && DependsOn(h.t.decls[k], j)
      ensures j < |h.t.decls| && h.rank[j] < h.rank[k]
    {
      assert DependsOn(g.t.decls[k], j);
    }
  }

  // ---------------------------------------------------------------- the others

  ghost predicate IsPath(decls: seq<Decl>, p: seq<nat>) {
    && p != [] && (forall k :: 0 <= k < |p| ==> p[k] < |decls|)
    && forall k {:trigger Edge(decls, p, k)} :: 0 <= k < |p| - 1 ==> Edge(decls, p, k)
  }

  ghost predicate Edge(decls: seq<Decl>, p: seq<nat>, k: nat)
    requires k + 1 < |p| && p[k] < |decls|
  {
    DependsOn(decls[p[k]], p[k + 1])
  }

  ghost predicate Leads(decls: seq<Decl>, p: seq<nat>, j: nat, i: nat) {
    IsPath(decls, p) && p[0] == j && p[|p| - 1] == i
  }

  /** Symbol j depends on symbol i, directly or not, or is symbol i. */
  ghost predicate Reaches(decls: seq<Decl>, j: nat, i: nat) {
    exists p :: Leads(decls, p, j, i)
  }

  lemma ReachesStep(decls: seq<Decl>, k: nat, j: nat, i: nat)
    requires k < |decls| && DependsOn(decls[k], j) && Reaches(decls, j, i)
    ensures Reaches(decls, k, i)
  {
    var p :| Leads(decls, p, j, i);
    var q := [k] + p;
    forall n | 0 <= n < |q| - 1
      ensures Edge(decls, q, n)
    {
      if n > 0 {
        assert Edge(decls, p, n - 1);
      }
    }
    assert Leads(decls, q, k, i);
  }

  lemma ReachesItself(decls: seq<Decl>, i: nat)
    requires i < |decls|
    ensures Reaches(decls, i, i)
  {
    assert Leads(decls, [i], i, i);
  }

  lemma {:induction false} OthersKeep(g: Ranked, i: nat, val: Tri, j: nat)
    requires g.Valid() && i < |g.t.decls| && j < |g.t.decls| && !Reaches(g.t.decls, j, i)
    ensures WithUser(g, i, val).TriAt(j) == g.TriAt(j)
    decreases g.rank[j]
  {
    var h := WithUser(g, i, val);
    WithUserValid(g, i, val);
    ReachesItself(g.t.decls, i);
    assert j != i;
    if g.t.decls[j].ty != SymType.Unknown {
      forall k | DependsOn(g.t.decls[j], k)
        ensures h.All().tri(k) == g.All().tri(k) && h.All().text(k) == g.All().text(k)
      {
        if Reaches(g.t.decls, k, i) {
          ReachesStep(g.t.decls, j, k, i);
        }
        OthersKeep(g, i, val, k);
      }
      DeclLocal(g.t.decls[j], g.t.users[j], g.t.modules, g.All(), h.All());
      g.FixedPoint(j);
      h.FixedPoint(j);
    }
  }

  // ---------------------------------------------------------------- the symbol itself

  lemma DependenciesDoNotReach(g: Ranked, i: nat, k: nat)
    requires g.Valid() && i < |g.t.decls| && DependsOn(g.t.decls[i], k)
    ensures k < |g.t.decls| && !Reaches(g.t.decls, k, i)
  {
    if Reaches(g.t.decls, k, i) {
      var p :| Leads(g.t.decls, p, k, i);
      PathDescends(g, p, |p| - 1);
    }
  }

  lemma {:induction false} PathDescends(g: Ranked, p: seq<nat>, n: nat)
    requires g.Valid() && IsPath(g.t.decls, p) && n < |p|
    ensures g.rank[p[n]] <= g.rank[p[0]]
  {
    if n > 0 {
      PathDescends(g, p, n - 1);
      assert Edge(g.t.decls, p, n - 1);
    }
  }

  /** What decides the new value of symbol i has not changed, except for the user's value. */
  lemma OwnOutcome(g: Ranked, i: nat, val: Tri)
    requires g.Valid() && i < |g.t.decls| && g.t.decls[i].ty != SymType.Unknown
    ensures WithUser(g, i, val).TriAt(i) == TriOf(g.t.decls[i], Value(val), g.t.modules, g.All())
  {
    var h := WithUser(g, i, val);
    WithUserValid(g, i, val);
    forall k | DependsOn(g.t.decls[i], k)
      ensures h.All().tri(k) == g.All().tri(k) && h.All().text(k) == g.All().text(k)
    {
      DependenciesDoNotReach(g, i, k);
      OthersKeep(g, i, val, k);
    }
    DeclLocal(g.t.decls[i], Value(val), g.t.modules, g.All(), h.All());
    h.FixedPoint(i);
  }

  /** Main result: the range test accepts exactly the values that take effect, for symbols whose
      visibility leaves room above what selects them. */
  lemma SetTakesEffect(g: Ranked, s: SymState, i: nat, val: Tri)
    requires g.Valid() && i < |g.t.decls| && Holds(g, s, i) && g.t.decls[i].ty != SymType.Unknown
    ensures WithinRange(g.t.decls[i], g.t.modules, s, val)
            <==> s.visible > s.revDep && WithUser(g, i, val).TriAt(i) == val
  {
    OwnOutcome(g, i, val);
    assert DeclOk(g.t.decls, g.t.decls[i]);
  }

  /** Setting a symbol to the value it already has is always accepted, and makes that the user's value.
      The symbol keeps it unless it is visible and has more than its visibility allows. */
  lemma SetToSameValue(g: Ranked, i: nat, val: Tri)
    requires g.Valid() && i < |g.t.decls| && g.t.decls[i].ty != SymType.Unknown && g.TriAt(i) == val
    ensures var d := g.t.decls[i];
            var visible := Visibility(d, g.t.modules, g.All());
            WithUser(g, i, val).TriAt(i) == val
            <==> visible == NO || val <= visible || val == Selected(d, g.t.modules, g.All())
  {
    OwnOutcome(g, i, val);
    g.FixedPoint(i);
  }

  /** A tristate that is visible up to m and has y by default loses it when it is set to y. */
  lemma SameValueLost()
    ensures var d := Decl(SymType.Tristate, N,
                          [Prop(Prompt, true, ExprEquality.Some(Sym(SYMBOL_MOD)), ExprEquality.None),
                           Prop(Default, false, ExprEquality.None, ExprEquality.Some(Sym(SYMBOL_YES)))],
                          ExprEquality.None, ExprEquality.None);
            var g := Ranked(Table([d], [NoValue], YES), [0]);
            g.Valid() && g.TriAt(0) == YES && WithUser(g, 0, YES).TriAt(0) == MOD
  {
    var prompt := Prop(Prompt, true, ExprEquality.Some(Sym(SYMBOL_MOD)), ExprEquality.None);
    var preset := Prop(Default, false, ExprEquality.None, ExprEquality.Some(Sym(SYMBOL_YES)));
    var d := Decl(SymType.Tristate, N, [prompt, preset], ExprEquality.None, ExprEquality.None);
    var g := Ranked(Table([d], [NoValue], YES), [0]);
    assert [prompt, preset][..1] == [prompt] && [prompt][..0] == [];
    assert PromptsVisible([prompt], g.All()) == MOD;
    assert Visibility(d, YES, g.All()) == MOD;
    assert FirstDefault(d.props, 1, g.All()) == 1;
    g.FixedPoint(0);
    SetToSameValue(g, 0, YES);
    OwnOutcome(g, 0, YES);
  }

  /** Setting a symbol and evaluating symbol j afterwards. */
  method SetAndCalc(t: Symbols, i: nat, val: Tri, j: nat, ghost g: Ranked) returns (ok: bool)
    requires t.Valid() && t.Ranks(g) && g.Valid() && Cached(g, t.syms)
    requires i < |t.decls| && j < |t.decls| && t.syms[i].valid && t.decls[i].ty != SymType.Unknown
    modifies t`syms, t`users
    ensures t.Valid()
    ensures ok && val != g.TriAt(i) ==> (j == i ==> t.syms[j].curr == val)
    ensures ok && val != g.TriAt(i) && !Reaches(t.decls, j, i) ==> t.syms[j].curr == g.TriAt(j)
  {
    var s := t.syms[i];
    assert Holds(g, s, i);
    ok := SetTristateValue(t, i, val);
    if ok && val != s.curr {
      ghost var h := WithUser(g, i, val);
      WithUserValid(g, i, val);
      SetTakesEffect(g, s, i, val);
      if !Reaches(t.decls, j, i) {
        OthersKeep(g, i, val, j);
      }
      Calc(t, j, h);
    }
  }
}
