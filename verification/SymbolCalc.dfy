/** sym_calc_value of symbol.c: symbols are evaluated on demand, and the flag VALID keeps a value that
    has been computed. */
module SymbolCalc {
  import opened Tristate
  import opened Exprs
  import opened ExprEquality
  import opened SymbolTable

  /** The fields of a symbol that evaluation assigns. */
  datatype SymState = SymState(valid: bool, curr: Tri, visible: Tri, dirDep: Tri, revDep: Tri, write: bool)

  function Invalid(syms: seq<SymState>): nat {
    if syms == [] then 0 else (if syms[0].valid then 0 else 1) + Invalid(syms[1..])
  }

  /** Evaluation only touches symbols that were not VALID, and makes them VALID. */
  ghost predicate Grown(s: seq<SymState>, s': seq<SymState>) {
    && |s'| == |s|
    && forall j {:trigger s'[j]} :: 0 <= j < |s| ==> (s[j].valid || !s'[j].valid ==> s'[j] == s[j])
  }

  lemma {:induction false} GrownInvalid(s: seq<SymState>, s': seq<SymState>)
    requires Grown(s, s')
    ensures Invalid(s') <= Invalid(s)
    ensures (exists j :: 0 <= j < |s| && s'[j].valid && !s[j].valid) ==> Invalid(s') < Invalid(s)
  {
    if s != [] {
      assert s'[0] == s'[0];
      forall j | 0 <= j < |s[1..]|
        ensures s[1..][j].valid || !s'[1..][j].valid ==> s'[1..][j] == s[1..][j]
      {
        assert s'[1..][j] == s'[j + 1];
      }
      GrownInvalid(s[1..], s'[1..]);
      if j :| 0 <= j < |s| && s'[j].valid && !s[j].valid {
        if j > 0 {
          assert s'[1..][j - 1].valid && !s[1..][j - 1].valid;
        }
      }
    }
  }

  lemma MarkValid(s: seq<SymState>, i: nat)
    requires i < |s| && !s[i].valid
    ensures var s' := s[i := s[i].(valid := true)];
            Grown(s, s') && Invalid(s') < Invalid(s)
  {
    var s' := s[i := s[i].(valid := true)];
    assert s'[i].valid;
    GrownInvalid(s, s');
  }

  lemma GrownTwice(s: seq<SymState>, s': seq<SymState>, s'': seq<SymState>)
    requires Grown(s, s') && Grown(s', s'')
    ensures Grown(s, s'')
  {
    forall j | 0 <= j < |s| && (s[j].valid || !s''[j].valid)
      ensures s''[j] == s[j]
    {
      assert s'[j] == s'[j];
    }
  }

  // ---------------------------------------------------------------- what a VALID symbol holds

  /** Symbol i holds what its declaration defines. */
  ghost predicate Holds(g: Ranked, s: SymState, i: nat)
    requires g.Sized() && i < |g.t.decls|
  {
    && s.curr == g.TriAt(i)
    && (g.t.decls[i].ty != SymType.Unknown ==> HoldsRest(g, s, i))
  }

  ghost predicate HoldsRest(g: Ranked, s: SymState, i: nat)
    requires g.Sized() && i < |g.t.decls|
  {
    var d := g.t.decls[i];
    && s.visible == Visibility(d, g.t.modules, g.All())
    && s.dirDep == DirectDep(d, g.All())
    && s.revDep == Selected(d, g.t.modules, g.All())
    && s.write == Written(d, g.t.users[i], g.t.modules, g.All())
  }

  /** Every VALID symbol of rank below r holds its value. Those of higher rank may be under way. */
  ghost predicate Good(g: Ranked, r: nat, s: seq<SymState>)
    requires g.Sized() && |s| == |g.t.decls|
  {
    forall j {:trigger Holds(g, s[j], j)} :: 0 <= j < |s| && s[j].valid && g.rank[j] < r ==> Holds(g, s[j], j)
  }

  /** So does every symbol that became VALID. */
  ghost predicate Right(g: Ranked, s: seq<SymState>, s': seq<SymState>)
    requires g.Sized() && |s| == |s'| == |g.t.decls|
  {
    forall j {:trigger Holds(g, s'[j], j)} :: 0 <= j < |s| && s'[j].valid && !s[j].valid ==> Holds(g, s'[j], j)
  }

  lemma GoodAfter(g: Ranked, r: nat, s: seq<SymState>, s': seq<SymState>)
    requires g.Sized() && |s| == |g.t.decls| && Grown(s, s') && Good(g, r, s) && Right(g, s, s')
    ensures Good(g, r, s')
  {
    forall j | 0 <= j < |s| && s'[j].valid && g.rank[j] < r
      ensures Holds(g, s'[j], j)
    {
      if s[j].valid {
        assert Holds(g, s[j], j);
      }
    }
  }

  lemma RightTwice(g: Ranked, s: seq<SymState>, s': seq<SymState>, s'': seq<SymState>)
    requires g.Sized() && |s| == |g.t.decls| && Grown(s, s') && Grown(s', s'')
    requires Right(g, s, s') && Right(g, s', s'')
    ensures Right(g, s, s'')
  {
    forall j | 0 <= j < |s| && s''[j].valid && !s[j].valid
      ensures Holds(g, s''[j], j)
    {
      if s'[j].valid {
        assert Holds(g, s'[j], j);
        assert s''[j] == s'[j];
      }
    }
  }

  ghost predicate RanksBelow(g: Ranked, ids: set<nat>, r: nat) {
    forall j :: j in ids ==> j < |g.rank| && g.rank[j] < r
  }

  /** The evaluation of something that mentions the symbols ids may rely on the symbols of rank below
      r. */
  ghost predicate Ready(g: Ranked, r: nat, ids: set<nat>, s: seq<SymState>)
    requires g.Sized() && |s| == |g.t.decls|
  {
    g.Valid() && Good(g, r, s) && RanksBelow(g, ids, r)
  }

  class Symbols {
    const decls: seq<Decl>
    const modules: Tri
    var users: seq<OptTri>
    var syms: seq<SymState>

    ghost predicate Valid()
      reads this
    {
      |syms| == |users| == |decls| && DeclsOk(decls)
    }

    ghost function Tab(): Table
      reads this
    {
      Table(decls, users, modules)
    }

    /** g ranks the symbols of this table. */
    ghost predicate Ranks(g: Ranked)
      reads this
    {
      g.t == Tab() && |g.rank| == |decls|
    }

    /** expr_calc_value on a reference to a symbol. */
    method CalcSym(s: Symbol, ghost g: Ranked, ghost r: nat) returns (t: Tri, text: Text)
      requires Valid() && Ranks(g) && SymOk(decls, s)
      modifies `syms
      ensures Valid() && Grown(old(syms), syms)
      ensures Ready(g, r, SymIds(s), old(syms)) ==>
                Right(g, old(syms), syms) && t == SymTri(s, g.All()) && text == SymText(s, g.All())
      decreases Invalid(syms), 1, 0
    {
      match s
      case Const(name) =>
        t, text := if name == Y then YES else if name == M then MOD else NO, name;
      case Config(id, ty) =>
        CalcValue(id, g, r);
        t := syms[id].curr;
        text := if s.IsTristate() then TriText(t) else decls[id].name;
    }

    /** expr_calc_value. */
    method CalcExpr(e: Expr, ghost g: Ranked, ghost r: nat) returns (t: Tri)
      requires Valid() && Ranks(g) && ExprOk(decls, e)
      modifies `syms
      ensures Valid() && Grown(old(syms), syms)
      ensures Ready(g, r, Ids(e), old(syms)) ==> Right(g, old(syms), syms) && t == Eval(e, g.All())
      decreases Invalid(syms), 3, e
    {
      match e
      case Sym(s) =>
        var text;
        t, text := CalcSym(s, g, r);
      case Not(x) =>
        t := CalcExpr(x, g, r);
        t := TriNot(t);
      case Equal(x, y) =>
        var same := CalcSame(x, y, g, r);
        t := TriBool(same);
      case Unequal(x, y) =>
        var same := CalcSame(x, y, g, r);
        t := TriBool(!same);
      case Bin(op, x, y) =>
        var t1 := CalcExpr(x, g, r);
        ghost var s1 := syms;
        GrownInvalid(old(syms), s1);
        Between(g, r, Ids(x), Ids(y), old(syms), s1);
        var t2 := CalcExpr(y, g, r);
        After(g, r, Ids(x), Ids(y), old(syms), s1, syms);
        t := Apply(op, t1, t2);
    }

    /** The two symbols of a comparison. */
    method CalcSame(x: Symbol, y: Symbol, ghost g: Ranked, ghost r: nat) returns (same: bool)
      requires Valid() && Ranks(g) && SymOk(decls, x) && SymOk(decls, y)
      modifies `syms
      ensures Valid() && Grown(old(syms), syms)
      ensures Ready(g, r, SymIds(x) + SymIds(y), old(syms)) ==>
                Right(g, old(syms), syms) && (same <==> SymText(x, g.All()) == SymText(y, g.All()))
      decreases Invalid(syms), 2, 0
    {
      var t1, text1 := CalcSym(x, g, r);
      ghost var s1 := syms;
      GrownInvalid(old(syms), s1);
      Between(g, r, SymIds(x), SymIds(y), old(syms), s1);
      var t2, text2 := CalcSym(y, g, r);
      After(g, r, SymIds(x), SymIds(y), old(syms), s1, syms);
      same := text1 == text2;
    }

    /** sym_calc_value. */
    method CalcValue(i: nat, ghost g: Ranked, ghost r: nat)
      requires Valid() && Ranks(g) && i < |decls|
      modifies `syms
      ensures Valid() && Grown(old(syms), syms) && syms[i].valid
      ensures !old(syms[i].valid) ==> Invalid(syms) < old(Invalid(syms))
      ensures Ready(g, r, {i}, old(syms)) ==> Right(g, old(syms), syms) && Holds(g, syms[i], i)
      decreases Invalid(syms), 0, 0
    {
      if syms[i].valid {
        assert Ready(g, r, {i}, syms) ==> i in {i} && Holds(g, syms[i], i);
        return;
      }
      ghost var s0 := syms;
      MarkValid(syms, i);
      syms := syms[i := syms[i].(valid := true)];
      assert Under(g, r, i, s0, syms);
      if decls[i].ty == SymType.Unknown {
        SetField(g, r, i, s0, syms, syms[i].(curr := NO));
        syms := syms[i := syms[i].(curr := NO)];
      } else {
        SetField(g, r, i, s0, syms, syms[i].(write := false));
        syms := syms[i := syms[i].(write := false)];
        CalcVisibility(i, g, r, s0);
        SetField(g, r, i, s0, syms, syms[i].(curr := NO));
        syms := syms[i := syms[i].(curr := NO)];
        CalcNewValue(i, g, r, s0);
      }
      UnderDone(g, r, i, s0, syms);
      GrownInvalid(s0, syms);
    }

    /** sym_calc_visibility. */
    method CalcVisibility(i: nat, ghost g: Ranked, ghost r: nat, ghost s0: seq<SymState>)
      requires Valid() && Ranks(g) && i < |decls| && Under(g, r, i, s0, syms)
      modifies `syms
      ensures Valid() && Under(g, r, i, s0, syms) && Invalid(syms) <= old(Invalid(syms))
      ensures syms[i] == old(syms[i]).(visible := syms[i].visible, dirDep := syms[i].dirDep, revDep := syms[i].revDep)
      ensures Ready(g, r, {i}, s0) ==>
                && syms[i].visible == Visibility(decls[i], modules, g.All())
                && syms[i].dirDep == DirectDep(decls[i], g.All())
                && syms[i].revDep == Selected(decls[i], modules, g.All())
      decreases Invalid(syms), 6, 0
    {
      var isBool := IsBool(decls[i], modules);
      var tri := CalcPrompts(i, g, r, s0);
      tri := Lift(tri, isBool);
      SetField(g, r, i, s0, syms, syms[i].(visible := tri));
      syms := syms[i := syms[i].(visible := tri)];
      tri := CalcPart(decls[i].dirDep, And, i, g, r, s0);
      tri := Lift(tri, true);
      SetField(g, r, i, s0, syms, syms[i].(dirDep := tri));
      syms := syms[i := syms[i].(dirDep := tri)];
      tri := CalcPart(decls[i].revDep, Or, i, g, r, s0);
      tri := Lift(tri, isBool);
      SetField(g, r, i, s0, syms, syms[i].(revDep := tri));
      syms := syms[i := syms[i].(revDep := tri)];
    }

    /** The loop over the prompts. */
    method CalcPrompts(i: nat, ghost g: Ranked, ghost r: nat, ghost s0: seq<SymState>) returns (tri: Tri)
      requires Valid() && Ranks(g) && i < |decls| && Under(g, r, i, s0, syms)
      modifies `syms
      ensures Valid() && Under(g, r, i, s0, syms) && Invalid(syms) <= old(Invalid(syms))
      ensures syms[i] == old(syms[i])
      ensures Ready(g, r, {i}, s0) ==> tri == PromptsVisible(decls[i].props, g.All())
      decreases Invalid(syms), 5, 0
    {
      var props := decls[i].props;
      tri := NO;
      for k := 0 to |props|
        invariant Valid() && Under(g, r, i, s0, syms) && Invalid(syms) <= old(Invalid(syms))
        invariant syms[i] == old(syms[i])
        invariant Ready(g, r, {i}, s0) ==> tri == PromptsVisible(props[..k], g.All())
      {
        assert props[..k + 1][..k] == props[..k];
        if props[k].hasText {
          assert forall j :: j in OptIds(props[k].visible) ==> j in PropIds(props[k]) && DependsOn(decls[i], j);
          var t := CalcPart(props[k].visible, And, i, g, r, s0);
          tri := TriOr(tri, t);
        }
      }
      assert props[..|props|] == props;
    }

    /** The second half of sym_calc_value. */
    method CalcNewValue(i: nat, ghost g: Ranked, ghost r: nat, ghost s0: seq<SymState>)
      requires Valid() && Ranks(g) && i < |decls| && Under(g, r, i, s0, syms)
      requires decls[i].ty != SymType.Unknown && !syms[i].write
      requires Ready(g, r, {i}, s0) ==>
                 && syms[i].visible == Visibility(decls[i], modules, g.All())
                 && syms[i].dirDep == DirectDep(decls[i], g.All())
                 && syms[i].revDep == Selected(decls[i], modules, g.All())
      modifies `syms
      ensures Valid() && Under(g, r, i, s0, syms)
      ensures Ready(g, r, {i}, s0) ==> Holds(g, syms[i], i)
      decreases Invalid(syms), 6, 0
    {
      var newval, write := NO, false;
      if syms[i].visible != NO {
        write := true;
      }
      if syms[i].visible != NO && users[i].Value? {
        newval := TriAnd(users[i].tri, syms[i].visible);
      } else {
        if syms[i].revDep != NO {
          write := true;
        }
        var found;
        newval, found := CalcDefault(i, g, r, s0);
        if found {
          write := true;
        }
      }
      newval := Lift(TriOr(newval, syms[i].revDep), IsBool(decls[i], modules));
      SetField(g, r, i, s0, syms, syms[i].(curr := newval, write := write));
      syms := syms[i := syms[i].(curr := newval, write := write)];
      if Ready(g, r, {i}, s0) {
        g.FixedPoint(i);
      }
    }

    /** sym_get_default_prop and the value of that default. */
    method CalcDefault(i: nat, ghost g: Ranked, ghost r: nat, ghost s0: seq<SymState>)
      returns (newval: Tri, found: bool)
      requires Valid() && Ranks(g) && i < |decls| && Under(g, r, i, s0, syms)
      modifies `syms
      ensures Valid() && Under(g, r, i, s0, syms) && syms[i] == old(syms[i])
      ensures Ready(g, r, {i}, s0) ==>
                && newval == DefaultValue(decls[i].props, g.All())
                && (found <==> FirstDefault(decls[i].props, 0, g.All()) < |decls[i].props|)
      decreases Invalid(syms), 5, 0
    {
      var props, k := decls[i].props, 0;
      newval, found := NO, false;
      while k < |props|
        invariant k <= |props| && Valid() && Under(g, r, i, s0, syms) && Invalid(syms) <= old(Invalid(syms))
        invariant syms[i] == old(syms[i])
        invariant Ready(g, r, {i}, s0) ==> FirstDefault(props, 0, g.All()) == FirstDefault(props, k, g.All())
      {
        if props[k].ty == Default {
          assert forall j :: j in OptIds(props[k].visible) + OptIds(props[k].expr) ==>
                     j in PropIds(props[k]) && DependsOn(decls[i], j);
          var visible := CalcPart(props[k].visible, And, i, g, r, s0);
          if visible != NO {
            newval := CalcPart(props[k].expr, And, i, g, r, s0);
            return TriAnd(newval, visible), true;
          }
        }
        k := k + 1;
      }
    }

    /** expr_calc_value on an expression of symbol i, which is under way. */
    method CalcPart(e: OptExpr, op: Op, i: nat, ghost g: Ranked, ghost r: nat, ghost s0: seq<SymState>)
      returns (t: Tri)
      requires Valid() && Ranks(g) && i < |decls| && Under(g, r, i, s0, syms) && OptOk(decls, e)
      requires forall j :: j in OptIds(e) ==> DependsOn(decls[i], j)
      modifies `syms
      ensures Valid() && Under(g, r, i, s0, syms) && Invalid(syms) <= old(Invalid(syms))
      ensures syms[i] == old(syms[i])
      ensures Ready(g, r, {i}, s0) ==> t == OptEval(op, e, g.All())
      decreases Invalid(syms), 4, 0
    {
      if e.None? {
        return Neutral(op);
      }
      ghost var s := syms;
      UnderReady(g, r, i, s0, s, Ids(e.e));
      t := CalcExpr(e.e, g, g.rank[i]);
      UnderCall(g, r, i, s0, s, syms);
      GrownInvalid(s, syms);
    }
  }

  // ---------------------------------------------------------------- a symbol under way

  /** Symbol i was not VALID in s0 and is being evaluated; s0 has become s. */
  ghost predicate Under(g: Ranked, r: nat, i: nat, s0: seq<SymState>, s: seq<SymState>)
    requires g.Sized()
  {
    && |s0| == |s| == |g.t.decls| && i < |s| && !s0[i].valid && s[i].valid
    && (forall j {:trigger s[j]} :: 0 <= j < |s| && j != i ==> (s0[j].valid || !s[j].valid ==> s[j] == s0[j]))
    && (Ready(g, r, {i}, s0) ==>
          forall j {:trigger Holds(g, s[j], j)} :: 0 <= j < |s| && j != i && s[j].valid && !s0[j].valid ==>
            Holds(g, s[j], j))
  }

  lemma SetField(g: Ranked, r: nat, i: nat, s0: seq<SymState>, s: seq<SymState>, field: SymState)
    requires g.Sized() && Under(g, r, i, s0, s) && field.valid
    ensures Under(g, r, i, s0, s[i := field]) && Invalid(s[i := field]) == Invalid(s)
  {
    var s' := s[i := field];
    InvalidUpdate(s, i, field);
    forall j | 0 <= j < |s'| && j != i && (s0[j].valid || !s'[j].valid)
      ensures s'[j] == s0[j]
    {
      assert s'[j] == s[j];
    }
    if Ready(g, r, {i}, s0) {
      forall j | 0 <= j < |s'| && j != i && s'[j].valid && !s0[j].valid
        ensures Holds(g, s'[j], j)
      {
        assert Holds(g, s[j], j);
      }
    }
  }

  lemma {:induction false} InvalidUpdate(s: seq<SymState>, i: nat, field: SymState)
    requires i < |s| && s[i].valid && field.valid
    ensures Invalid(s[i := field]) == Invalid(s)
  {
    if i == 0 {
      assert s[i := field][1..] == s[1..];
    } else {
      assert s[i := field][1..] == s[1..][i - 1 := field];
      InvalidUpdate(s[1..], i - 1, field);
    }
  }

  /** The symbols that symbol i depends on have smaller ranks and are not under way. */
  lemma UnderReady(g: Ranked, r: nat, i: nat, s0: seq<SymState>, s: seq<SymState>, ids: set<nat>)
    requires g.Sized() && Under(g, r, i, s0, s)
    requires forall j :: j in ids ==> DependsOn(g.t.decls[i], j)
    ensures Ready(g, r, {i}, s0) ==> Ready(g, g.rank[i], ids, s)
  {
    if Ready(g, r, {i}, s0) {
      assert i in {i};
      forall j | 0 <= j < |s| && s[j].valid && g.rank[j] < g.rank[i]
        ensures Holds(g, s[j], j)
      {
        if s0[j].valid {
          assert Holds(g, s0[j], j);
          assert s[j] == s0[j];
        }
      }
    }
  }

  lemma UnderCall(g: Ranked, r: nat, i: nat, s0: seq<SymState>, s: seq<SymState>, s': seq<SymState>)
    requires g.Sized() && Under(g, r, i, s0, s) && Grown(s, s')
    requires Ready(g, r, {i}, s0) ==> Right(g, s, s')
    ensures Under(g, r, i, s0, s') && s'[i] == s[i]
  {
    assert s'[i] == s[i];
    forall j | 0 <= j < |s'| && j != i && (s0[j].valid || !s'[j].valid)
      ensures s'[j] == s0[j]
    {
      assert s[j] == s[j];
    }
    if Ready(g, r, {i}, s0) {
      forall j | 0 <= j < |s'| && j != i && s'[j].valid && !s0[j].valid
        ensures Holds(g, s'[j], j)
      {
        if s[j].valid {
          assert Holds(g, s[j], j);
          assert s'[j] == s[j];
        }
      }
    }
  }

  lemma UnderDone(g: Ranked, r: nat, i: nat, s0: seq<SymState>, s: seq<SymState>)
    requires g.Sized() && Under(g, r, i, s0, s)
    requires Ready(g, r, {i}, s0) ==> Holds(g, s[i], i)
    ensures Grown(s0, s) && (Ready(g, r, {i}, s0) ==> Right(g, s0, s))
  {
    forall j | 0 <= j < |s| && (s0[j].valid || !s[j].valid)
      ensures s[j] == s0[j]
    {}
  }

  lemma Between(g: Ranked, r: nat, ids1: set<nat>, ids2: set<nat>, s: seq<SymState>, s1: seq<SymState>)
    requires g.Sized() && |s| == |g.t.decls| && Grown(s, s1)
    ensures Ready(g, r, ids1 + ids2, s) ==> Ready(g, r, ids1, s)
    ensures Ready(g, r, ids1 + ids2, s) && Right(g, s, s1) ==> Ready(g, r, ids2, s1)
  {
    if Ready(g, r, ids1 + ids2, s) && Right(g, s, s1) {
      GoodAfter(g, r, s, s1);
    }
  }

  lemma After(g: Ranked, r: nat, ids1: set<nat>, ids2: set<nat>, s: seq<SymState>, s1: seq<SymState>,
              s2: seq<SymState>)
    requires g.Sized() && |s| == |g.t.decls| && Grown(s, s1) && Grown(s1, s2)
    ensures Grown(s, s2)
    ensures Ready(g, r, ids1 + ids2, s) && Right(g, s, s1) && Right(g, s1, s2) ==> Right(g, s, s2)
  {
    GrownTwice(s, s1, s2);
    if Right(g, s, s1) && Right(g, s1, s2) {
      RightTwice(g, s, s1, s2);
    }
  }
}
