/** expr_eliminate_dups and expr_trans_bool keep expressions in the form expr_transform gives them. */
module ExprNormal {
  import opened Tristate
  import opened Exprs
  import opened ExprEquality
  import opened ExprJoin
  import opened ExprSpine
  import opened ExprDups

  lemma JoinNormal(op: Op, e1: Expr, e2: Expr)
    requires Normal(e1) && Normal(e2) && Join(op, e1, e2).Some?
    ensures Normal(Join(op, e1, e2).e)
  {}

  lemma {:induction false} NormalAt(op: Op, e: Expr, p: Path)
    requires OnSpine(op, e, p) && Normal(e)
    ensures Normal(At(op, e, p))
  {
    if p.Down? {
      NormalAt(op, Child(e, p.right), p.rest);
    }
  }

  lemma {:induction false} NormalPut(op: Op, e: Expr, p: Path, x: Expr)
    requires OnSpine(op, e, p) && Normal(e) && Normal(x)
    ensures Normal(Put(op, e, p, x))
  {
    if p.Down? {
      NormalPut(op, Child(e, p.right), p.rest, x);
    }
  }

  lemma {:induction false} NormalYn(e: Expr)
    requires Normal(e)
    ensures Normal(EliminateYn(e))
  {
    if e.Bin? {
      NormalYn(e.left);
      NormalYn(e.right);
    }
  }

  lemma JoinOperandsNormal(op: Op, root: Expr, p: Path, q: Path, inner: Pass)
    requires IsOperand(op, root, p) && IsOperand(op, root, q) && p != q
    requires !IsBin(inner.e, op) && Normal(root) && Normal(inner.e)
    ensures Normal(JoinOperands(op, root, p, q, inner).e)
  {
    PutElsewhere(op, root, p, q, inner.e);
    PutElsewhere(op, root, p, p, inner.e);
    NormalPut(op, root, p, inner.e);
    var root1 := Put(op, root, p, inner.e);
    NormalAt(op, root1, q);
    var joined := Join(op, inner.e, At(op, root1, q));
    if joined.Some? {
      var neutral := Sym(NeutralSym(op));
      JoinNormal(op, inner.e, At(op, root1, q));
      PutElsewhere(op, root1, p, q, neutral);
      NormalPut(op, root1, p, neutral);
      NormalPut(op, Put(op, root1, p, neutral), q, joined.e);
    }
  }

  lemma {:induction false} Dups1Normal(op: Op, root: Expr, p: Path, q: Path)
    requires OnSpine(op, root, p) && OnSpine(op, root, q) && Normal(root)
    ensures Normal(Dups1(op, root, p, q).e)
    decreases Size(root), SpineNodes(op, At(op, root, p)), SpineNodes(op, At(op, root, q))
  {
    var e1, e2 := At(op, root, p), At(op, root, q);
    if IsBin(e1, op) {
      AtSnoc(op, root, p, false);
      AtSnoc(op, root, p, true);
      var x := Dups1(op, root, Snoc(p, false), q);
      SameSpineAt(op, root, x.e, Snoc(p, true));
      SameSpineAt(op, root, x.e, q);
      Dups1Normal(op, root, Snoc(p, false), q);
      Dups1Normal(op, x.e, Snoc(p, true), q);
    } else if IsBin(e2, op) {
      AtSnoc(op, root, q, false);
      AtSnoc(op, root, q, true);
      var x := Dups1(op, root, p, Snoc(q, false));
      SameSpineAt(op, root, x.e, p);
      SameSpineAt(op, root, x.e, Snoc(q, true));
      Dups1Normal(op, root, p, Snoc(q, false));
      Dups1Normal(op, x.e, p, Snoc(q, true));
    } else if p != q {
      OperandSmaller(op, root, p);
      NormalAt(op, root, p);
      var inner := if e1.Bin? then Dups1(e1.op, e1, Here, Here) else Pass(e1, 0);
      if e1.Bin? {
        Dups1Normal(e1.op, e1, Here, Here);
      }
      JoinOperandsNormal(op, root, p, q, inner);
    }
  }

  lemma CancelOperandNormal(op: Op, root: Expr, p: Path, q: Path, inner: Pass)
    requires IsOperand(op, root, p) && OnSpine(op, root, q) && IsBin(inner.e, Dual(op))
    requires Normal(root) && Normal(inner.e)
    ensures Normal(CancelOperand(op, root, p, q, inner).e)
  {
    PutOperand(op, root, p, inner.e);
    PutElsewhere(op, root, p, p, inner.e);
    NormalPut(op, root, p, inner.e);
    NormalPut(op, Put(op, root, p, inner.e), p, Sym(AbsorbSym(op)));
  }

  lemma {:induction false} Dups2Normal(op: Op, root: Expr, p: Path, q: Path)
    requires OnSpine(op, root, p) && OnSpine(op, root, q) && Normal(root)
    ensures Normal(Dups2(op, root, p, q).e)
    decreases Size(root), SpineNodes(op, At(op, root, p)), SpineNodes(op, At(op, root, q))
  {
    if IsBin(At(op, root, p), op) {
      AtSnoc(op, root, p, false);
      AtSnoc(op, root, p, true);
      var x := Dups2(op, root, Snoc(p, false), q);
      SameSpineAt(op, root, x.e, Snoc(p, true));
      SameSpineAt(op, root, x.e, q);
      Dups2Normal(op, root, Snoc(p, false), q);
      Dups2Normal(op, x.e, Snoc(p, true), q);
    } else {
      var below := if IsBin(At(op, root, q), op) then Dups2Below(op, root, p, q) else Pass(root, 0);
      if IsBin(At(op, root, q), op) {
        Dups2BelowNormal(op, root, p, q);
      }
      SameSpineRefl(op, root);
      SameSpineAt(op, root, below.e, p);
      SameSpineAt(op, root, below.e, q);
      var e1 := At(op, below.e, p);
      if p != q && e1.Bin? {
        OperandSmaller(op, below.e, p);
        NormalAt(op, below.e, p);
        Dups2Normal(e1.op, e1, Here, Here);
        CancelOperandNormal(op, below.e, p, q, Dups2(e1.op, e1, Here, Here));
      }
    }
  }

  lemma {:induction false} Dups2BelowNormal(op: Op, root: Expr, p: Path, q: Path)
    requires IsOperand(op, root, p) && OnSpine(op, root, q) && IsBin(At(op, root, q), op) && Normal(root)
    ensures Normal(Dups2Below(op, root, p, q).e)
    decreases Size(root), SpineNodes(op, At(op, root, p)), SpineNodes(op, At(op, root, q)), 0
  {
    AtSnoc(op, root, q, false);
    AtSnoc(op, root, q, true);
    var x := Dups2(op, root, p, Snoc(q, false));
    SameSpineAt(op, root, x.e, p);
    SameSpineAt(op, root, x.e, Snoc(q, true));
    Dups2Normal(op, root, p, Snoc(q, false));
    Dups2Normal(op, x.e, p, Snoc(q, true));
  }

  lemma {:induction false} EliminateDupsNormal(e: Expr)
    requires Normal(e)
    ensures Normal(EliminateDups(e))
    decreases Size(e)
  {
    if e.Bin? && Round(e).count > 0 {
      var x := Dups1(e.op, e, Here, Here);
      Dups1Normal(e.op, e, Here, Here);
      Dups2Normal(e.op, x.e, Here, Here);
      EliminateYnRemovesAll(Round(e).e);
      NormalYn(Round(e).e);
      EliminateDupsNormal(EliminateYn(Round(e).e));
    }
  }

  lemma {:induction false} TransBoolNormal(e: Expr)
    requires Normal(e)
    ensures Normal(TransBool(e))
  {
    if e.Bin? {
      TransBoolNormal(e.left);
      TransBoolNormal(e.right);
    }
  }

  // ---------------------------------------------------------------- as menu_finalize uses them

  predicate OptNormal(x: OptExpr) { x.Some? ==> Normal(x.e) }

  /** expr_alloc_and, where a missing expression stands for y. */
  function AllocAnd(x: OptExpr, y: OptExpr): OptExpr {
    if x.None? then y else if y.None? then x else Some(Bin(And, x.e, y.e))
  }

  /** A dependency that an entry or a property takes over from the entry above it. */
  function Propagated(above: OptExpr, dep: OptExpr): OptExpr {
    var both := AllocAnd(above, if dep.None? then None else Some(Transform(dep.e)));
    if both.None? then None else Some(EliminateDups(both.e))
  }

  lemma PropagatedNormal(above: OptExpr, dep: OptExpr)
    requires OptNormal(above)
    ensures OptNormal(Propagated(above, dep))
  {
    var both := AllocAnd(above, if dep.None? then None else Some(Transform(dep.e)));
    if both.Some? {
      EliminateDupsNormal(both.e);
    }
  }

  lemma PropagatedOnlyMod(above: OptExpr, dep: OptExpr, a: Assignment)
    ensures OnlyModMayChange(TriAnd(OptEval(And, above, a), OptEval(And, dep, a)),
                             OptEval(And, Propagated(above, dep), a))
  {
    if dep.Some? {
      TransformExact(dep.e, a);
    }
    var both := AllocAnd(above, if dep.None? then None else Some(Transform(dep.e)));
    if both.Some? {
      EliminateDupsOnlyMod(both.e, a);
    }
  }

  /** The visibility of a property below two dependencies, of a symbol that is no tristate. */
  function Visibility(above: OptExpr, dep: OptExpr, own: OptExpr): OptExpr {
    var v := Propagated(Propagated(above, dep), own);
    if v.None? then None else Some(TransBool(v.e))
  }

  /** Main result: it is normal again, ready to be handed down, and where the conjunction of the three is
      not m it says whether that is n. */
  lemma VisibilityKept(above: OptExpr, dep: OptExpr, own: OptExpr, a: Assignment)
    requires OptNormal(above)
    ensures OptNormal(Visibility(above, dep, own))
    ensures var all := TriAnd(TriAnd(OptEval(And, above, a), OptEval(And, dep, a)), OptEval(And, own, a));
            all != MOD ==> (OptEval(And, Visibility(above, dep, own), a) != NO <==> all != NO)
  {
    var base := Propagated(above, dep);
    PropagatedNormal(above, dep);
    PropagatedNormal(base, own);
    PropagatedOnlyMod(above, dep, a);
    PropagatedOnlyMod(base, own, a);
    var v := Propagated(base, own);
    if v.Some? {
      TransBoolNormal(v.e);
      TransBoolKeepsVisibility(v.e, a);
    }
  }
}
