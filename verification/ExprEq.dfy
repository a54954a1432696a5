/**
 Equality of expressions up to reordering (expr_eq) and the two passes that cancel the common
 operands of a pair of expressions (expr_eliminate_eq, expr_extract_eq). The first two are
 mutually recursive.
 */
module ExprEquality {
  import opened Tristate
  import opened Exprs

  // ---------------------------------------------------------------- expr_eq, expr_eliminate_eq

  function ExprEq(e1: Expr, e2: Expr): bool
    decreases Size(e1) + Size(e2), 2
  {
    match (e1, e2)
    case (Equal(l1, r1), Equal(l2, r2)) => l1 == l2 && r1 == r2
    case (Unequal(l1, r1), Unequal(l2, r2)) => l1 == l2 && r1 == r2
    case (Sym(s1), Sym(s2)) => s1 == s2
    case (Not(x1), Not(x2)) => ExprEq(x1, x2)
    case (Bin(op1, _, _), Bin(op2, _, _)) =>
      if op1 != op2 then false
      else
        var (r1, r2) := EliminateEq(e1, e2);
        r1.Sym? && r2.Sym? && r1.sym == r2.sym
    case _ => false
  }

  /** expr_eliminate_eq: cancel under the first expression's operator, then, if the node types
      differ, under the second one's. */
  function EliminateEq(e1: Expr, e2: Expr): (r: (Expr, Expr))
    ensures Size(r.0) <= Size(e1) && Size(r.1) <= Size(e2)
    decreases Size(e1) + Size(e2), 1
  {
    var (f1, f2) := if e1.Bin? then CancelEq(e1.op, e1, e2) else (e1, e2);
    var (g1, g2) := if !SameType(f1, f2) && f2.Bin? then CancelEq(f2.op, f1, f2) else (f1, f2);
    (EliminateYn(g1), EliminateYn(g2))
  }

  /** __expr_eliminate_eq: every operand of e1 against every operand of e2; an equal pair is
      replaced by two neutral constants. */
  function CancelEq(op: Op, e1: Expr, e2: Expr): (r: (Expr, Expr))
    ensures Size(r.0) <= Size(e1) && Size(r.1) <= Size(e2)
    decreases Size(e1) + Size(e2), if IsBin(e1, op) || IsBin(e2, op) then 0 else 3
  {
    if IsBin(e1, op) then
      var (l, e2') := CancelEq(op, e1.left, e2);
      var (r, e2'') := CancelEq(op, e1.right, e2');
      (Bin(op, l, r), e2'')
    else if IsBin(e2, op) then
      var (e1', l) := CancelEq(op, e1, e2.left);
      var (e1'', r) := CancelEq(op, e1', e2.right);
      (e1'', Bin(op, l, r))
    else if e1 == e2 && IsYn(e1) then (e1, e2)
    else if !ExprEq(e1, e2) then (e1, e2)
    else (Sym(NeutralSym(op)), Sym(NeutralSym(op)))
  }

  /** What CancelEq takes out of both expressions. */
  ghost function Cancelled(op: Op, e1: Expr, e2: Expr): Expr
    decreases Size(e1) + Size(e2), if IsBin(e1, op) || IsBin(e2, op) then 0 else 3
  {
    if IsBin(e1, op) then
      Bin(op, Cancelled(op, e1.left, e2), Cancelled(op, e1.right, CancelEq(op, e1.left, e2).1))
    else if IsBin(e2, op) then
      Bin(op, Cancelled(op, e1, e2.left), Cancelled(op, CancelEq(op, e1, e2.left).0, e2.right))
    else if e1 == e2 && IsYn(e1) then Sym(NeutralSym(op))
    else if !ExprEq(e1, e2) then Sym(NeutralSym(op))
    else e1
  }

  /** One expression is split into two operands l and r, the other one loses x1 to the first
      operand and then x2 to the second. */
  lemma CancelStep(op: Op, l: Tri, r: Tri, whole: Tri, x1: Tri, x2: Tri, l': Tri, r': Tri, m: Tri, n: Tri)
    requires l == Apply(op, x1, l') && whole == Apply(op, x1, m)
    requires r == Apply(op, x2, r') && m == Apply(op, x2, n)
    ensures Apply(op, l, r) == Apply(op, Apply(op, x1, x2), Apply(op, l', r'))
    ensures whole == Apply(op, Apply(op, x1, x2), n)
  {
    ApplyRegroup(op, x1, x2, l', r');
    ApplyAssoc(op, x1, x2, n);
  }

  /** Each original is the cancelled part combined with what is left of it. */
  lemma {:induction false} CancelEqSplits(op: Op, e1: Expr, e2: Expr, a: Assignment)
    ensures var r, x := CancelEq(op, e1, e2), Eval(Cancelled(op, e1, e2), a);
            && Eval(e1, a) == Apply(op, x, Eval(r.0, a))
            && Eval(e2, a) == Apply(op, x, Eval(r.1, a))
    decreases Size(e1) + Size(e2), if IsBin(e1, op) || IsBin(e2, op) then 0 else 4
  {
    if IsBin(e1, op) {
      var (l, m) := CancelEq(op, e1.left, e2);
      var (r, n) := CancelEq(op, e1.right, m);
      CancelEqSplits(op, e1.left, e2, a);
      CancelEqSplits(op, e1.right, m, a);
      CancelStep(op, Eval(e1.left, a), Eval(e1.right, a), Eval(e2, a),
                 Eval(Cancelled(op, e1.left, e2), a), Eval(Cancelled(op, e1.right, m), a),
                 Eval(l, a), Eval(r, a), Eval(m, a), Eval(n, a));
    } else if IsBin(e2, op) {
      var (m, l) := CancelEq(op, e1, e2.left);
      var (n, r) := CancelEq(op, m, e2.right);
      CancelEqSplits(op, e1, e2.left, a);
      CancelEqSplits(op, m, e2.right, a);
      CancelStep(op, Eval(e2.left, a), Eval(e2.right, a), Eval(e1, a),
                 Eval(Cancelled(op, e1, e2.left), a), Eval(Cancelled(op, m, e2.right), a),
                 Eval(l, a), Eval(r, a), Eval(m, a), Eval(n, a));
    } else {
      CancelLeafSplits(op, e1, e2, a);
    }
  }

  lemma {:induction false} CancelLeafSplits(op: Op, e1: Expr, e2: Expr, a: Assignment)
    requires !IsBin(e1, op) && !IsBin(e2, op)
    ensures var r, x := CancelEq(op, e1, e2), Eval(Cancelled(op, e1, e2), a);
            && Eval(e1, a) == Apply(op, x, Eval(r.0, a))
            && Eval(e2, a) == Apply(op, x, Eval(r.1, a))
    decreases Size(e1) + Size(e2), 3
  {
    if ExprEq(e1, e2) {
      ExprEqSound(e1, e2, a);
    }
  }

  /** Both stages of expr_eliminate_eq together: two cancelled parts, one per operator. */
  lemma {:induction false} EliminateEqSplits(e1: Expr, e2: Expr, a: Assignment)
    returns (op1: Op, x1: Tri, op2: Op, x2: Tri)
    ensures var r := EliminateEq(e1, e2);
            && Eval(e1, a) == Apply(op1, x1, Apply(op2, x2, Eval(r.0, a)))
            && Eval(e2, a) == Apply(op1, x1, Apply(op2, x2, Eval(r.1, a)))
    decreases Size(e1) + Size(e2), 1
  {
    op1, x1, op2, x2 := And, YES, And, YES;
    var (f1, f2) := if e1.Bin? then CancelEq(e1.op, e1, e2) else (e1, e2);
    if e1.Bin? {
      CancelEqSplits(e1.op, e1, e2, a);
      op1, x1 := e1.op, Eval(Cancelled(e1.op, e1, e2), a);
    }
    var (g1, g2) := if !SameType(f1, f2) && f2.Bin? then CancelEq(f2.op, f1, f2) else (f1, f2);
    if !SameType(f1, f2) && f2.Bin? {
      CancelEqSplits(f2.op, f1, f2, a);
      op2, x2 := f2.op, Eval(Cancelled(f2.op, f1, f2), a);
    }
    EliminateYnExact(g1, a);
    EliminateYnExact(g2, a);
  }

  /** expr_eq only answers 1 for expressions that have the same value whatever the symbols are. */
  lemma {:induction false} ExprEqSound(e1: Expr, e2: Expr, a: Assignment)
    requires ExprEq(e1, e2)
    ensures Eval(e1, a) == Eval(e2, a)
    decreases Size(e1) + Size(e2), 2
  {
    if e1.Not? {
      ExprEqSound(e1.arg, e2.arg, a);
    } else if e1.Bin? {
      var _, _, _, _ := EliminateEqSplits(e1, e2, a);
    }
  }

  /** If cancelling reduces the second dependency to y, the first implies it. */
  lemma EliminateEqToYes(e1: Expr, e2: Expr, a: Assignment)
    requires EliminateEq(e1, e2).1 == Sym(SYMBOL_YES)
    ensures Eval(e1, a) <= Eval(e2, a)
  {
    var op1, x1, op2, x2 := EliminateEqSplits(e1, e2, a);
    var (r1, r2) := EliminateEq(e1, e2);
    ApplyMonotone(op2, x2, Eval(r1, a), Eval(r2, a));
    ApplyMonotone(op1, x1, Apply(op2, x2, Eval(r1, a)), Apply(op2, x2, Eval(r2, a)));
  }

  // ---------------------------------------------------------------- expr_extract_eq

  datatype OptExpr = None | Some(e: Expr)

  /** A missing expression is the neutral constant of the operator that joins it. */
  function OptEval(op: Op, x: OptExpr, a: Assignment): Tri {
    match x
    case None => Neutral(op)
    case Some(e) => Eval(e, a)
  }

  datatype Extracted = Extracted(common: OptExpr, e1: Expr, e2: Expr)

  /** expr_extract_eq: as CancelEq, but the equal operands are collected. */
  function ExtractEq(op: Op, common: OptExpr, e1: Expr, e2: Expr): (r: Extracted)
    ensures Size(r.e1) <= Size(e1) && Size(r.e2) <= Size(e2)
    decreases Size(e1) + Size(e2)
  {
    if IsBin(e1, op) then
      var x := ExtractEq(op, common, e1.left, e2);
      var y := ExtractEq(op, x.common, e1.right, x.e2);
      Extracted(y.common, Bin(op, x.e1, y.e1), y.e2)
    else if IsBin(e2, op) then
      var x := ExtractEq(op, common, e1, e2.left);
      var y := ExtractEq(op, x.common, x.e1, e2.right);
      Extracted(y.common, y.e1, Bin(op, x.e2, y.e2))
    else if ExprEq(e1, e2) then
      var common' := if common.Some? then Some(Bin(op, common.e, e1)) else Some(e1);
      Extracted(common', Sym(NeutralSym(op)), Sym(NeutralSym(op)))
    else Extracted(common, e1, e2)
  }

  /** expr_extract_eq_and / expr_extract_eq_or. */
  function ExtractEqTop(op: Op, e1: Expr, e2: Expr): (r: Extracted)
    ensures Size(r.e1) <= Size(e1) && Size(r.e2) <= Size(e2)
  {
    var x := ExtractEq(op, None, e1, e2);
    if x.common.Some? then Extracted(x.common, EliminateYn(x.e1), EliminateYn(x.e2)) else x
  }

  /** Nothing is lost: the collected part gains exactly what both expressions lose. */
  lemma {:induction false} ExtractEqSplits(op: Op, common: OptExpr, e1: Expr, e2: Expr, a: Assignment)
    returns (x: Tri)
    ensures var r := ExtractEq(op, common, e1, e2);
            && Eval(e1, a) == Apply(op, x, Eval(r.e1, a))
            && Eval(e2, a) == Apply(op, x, Eval(r.e2, a))
            && OptEval(op, r.common, a) == Apply(op, OptEval(op, common, a), x)
    decreases Size(e1) + Size(e2)
  {
    x := Neutral(op);
    if IsBin(e1, op) {
      var r := ExtractEq(op, common, e1.left, e2);
      var x1 := ExtractEqSplits(op, common, e1.left, e2, a);
      var x2 := ExtractEqSplits(op, r.common, e1.right, r.e2, a);
      x := Apply(op, x1, x2);
      var r' := ExtractEq(op, r.common, e1.right, r.e2);
      CancelStep(op, Eval(e1.left, a), Eval(e1.right, a), Eval(e2, a), x1, x2,
                 Eval(r.e1, a), Eval(r'.e1, a), Eval(r.e2, a), Eval(r'.e2, a));
      ApplyAssoc(op, OptEval(op, common, a), x1, x2);
    } else if IsBin(e2, op) {
      var r := ExtractEq(op, common, e1, e2.left);
      var x1 := ExtractEqSplits(op, common, e1, e2.left, a);
      var x2 := ExtractEqSplits(op, r.common, r.e1, e2.right, a);
      x := Apply(op, x1, x2);
      var r' := ExtractEq(op, r.common, r.e1, e2.right);
      CancelStep(op, Eval(e2.left, a), Eval(e2.right, a), Eval(e1, a), x1, x2,
                 Eval(r.e2, a), Eval(r'.e2, a), Eval(r.e1, a), Eval(r'.e1, a));
      ApplyAssoc(op, OptEval(op, common, a), x1, x2);
    } else {
      x := ExtractLeafSplits(op, common, e1, e2, a);
    }
  }

  lemma ExtractLeafSplits(op: Op, common: OptExpr, e1: Expr, e2: Expr, a: Assignment) returns (x: Tri)
    requires !IsBin(e1, op) && !IsBin(e2, op)
    ensures var r := ExtractEq(op, common, e1, e2);
            && Eval(e1, a) == Apply(op, x, Eval(r.e1, a))
            && Eval(e2, a) == Apply(op, x, Eval(r.e2, a))
            && OptEval(op, r.common, a) == Apply(op, OptEval(op, common, a), x)
  {
    x := Neutral(op);
    if ExprEq(e1, e2) {
      ExprEqSound(e1, e2, a);
      x := Eval(e1, a);
    }
  }

  /** Each original is the common part combined with its remainder. */
  lemma ExtractEqTopSplits(op: Op, e1: Expr, e2: Expr, a: Assignment)
    ensures var r := ExtractEqTop(op, e1, e2);
            && Eval(e1, a) == Apply(op, OptEval(op, r.common, a), Eval(r.e1, a))
            && Eval(e2, a) == Apply(op, OptEval(op, r.common, a), Eval(r.e2, a))
  {
    var _ := ExtractEqSplits(op, None, e1, e2, a);
    var x := ExtractEq(op, None, e1, e2);
    EliminateYnExact(x.e1, a);
    EliminateYnExact(x.e2, a);
  }

  // ---------------------------------------------------------------- nothing in common is left

  /** The operands of a chain of op nodes. */
  function Operands(op: Op, e: Expr): set<Expr> {
    if IsBin(e, op) then Operands(op, e.left) + Operands(op, e.right) else {e}
  }

  lemma {:induction false} CancelShrinks(op: Op, e1: Expr, e2: Expr)
    ensures var r, neutral := CancelEq(op, e1, e2), Sym(NeutralSym(op));
            && Operands(op, r.0) <= Operands(op, e1) + {neutral}
            && Operands(op, r.1) <= Operands(op, e2) + {neutral}
    decreases Size(e1) + Size(e2)
  {
    if IsBin(e1, op) {
      var m := CancelEq(op, e1.left, e2).1;
      CancelShrinks(op, e1.left, e2);
      CancelShrinks(op, e1.right, m);
    } else if IsBin(e2, op) {
      var m := CancelEq(op, e1, e2.left).0;
      CancelShrinks(op, e1, e2.left);
      CancelShrinks(op, m, e2.right);
    }
  }

  /** No two of the operands, one from each set, are equal, apart from constants. */
  ghost predicate NothingShared(op: Op, xs: set<Expr>, ys: set<Expr>) {
    forall x, y :: x in xs && y in ys && !IsYn(x) && !IsYn(y) ==> !ExprEq(x, y)
  }

  /** __expr_eliminate_eq leaves no common operand. */
  lemma {:induction false} CancelEqComplete(op: Op, e1: Expr, e2: Expr)
    ensures var r := CancelEq(op, e1, e2);
            NothingShared(op, Operands(op, r.0), Operands(op, r.1))
    decreases Size(e1) + Size(e2)
  {
    if IsBin(e1, op) {
      var (l, m) := CancelEq(op, e1.left, e2);
      CancelEqComplete(op, e1.left, e2);
      CancelEqComplete(op, e1.right, m);
      CancelShrinks(op, e1.right, m);
      NeutralIsYn(op);
    } else if IsBin(e2, op) {
      var (m, l) := CancelEq(op, e1, e2.left);
      CancelEqComplete(op, e1, e2.left);
      CancelEqComplete(op, m, e2.right);
      CancelShrinks(op, m, e2.right);
      NeutralIsYn(op);
    }
  }

  lemma NeutralIsYn(op: Op)
    ensures IsYn(Sym(NeutralSym(op)))
  {}
}
