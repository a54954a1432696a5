/** What the second pass of expr_eliminate_dups leaves behind: no operand whose negation is contained in the
    chain around it, on any level. */
module ExprCancelFree {
  import opened Exprs
  import opened ExprEquality
  import opened ExprEqShapes
  import opened ExprSpine
  import opened ExprDups
  import opened ExprDupFree
  import opened ExprNormal

  /** The operands of the chain among them contradict the operand x. */
  ghost predicate Contradicts(op: Op, e: Expr, x: Expr) {
    Parts(op, Transform(Not(x))) <= Parts(op, e)
  }

  ghost predicate NoneContradicted(op: Op, e: Expr) {
    forall s :: IsOperand(op, e, s) && At(op, e, s).Bin? ==> !Contradicts(op, e, At(op, e, s))
  }

  /** So it is on every level. */
  ghost predicate CancelFree(e: Expr)
    decreases e, 1
  {
    e.Bin? ==> NoneContradicted(e.op, e) && OperandsCancelFree(e.op, e.left) && OperandsCancelFree(e.op, e.right)
  }

  ghost predicate OperandsCancelFree(op: Op, e: Expr)
    decreases e, 2
  {
    if IsBin(e, op) then OperandsCancelFree(op, e.left) && OperandsCancelFree(op, e.right) else CancelFree(e)
  }

  // ---------------------------------------------------------------- when the rule fires

  lemma {:induction false} NegationInPlay(x: Expr)
    requires Normal(x) && InPlay(x)
    ensures InPlay(Transform(Not(x)))
    decreases Size(x)
  {
    TransformKeepsNormal(x);
    if x.Bin? {
      NegationInPlay(x.left);
      NegationInPlay(x.right);
    }
  }

  lemma NoneLeft<T>(x: multiset<T>, y: multiset<T>)
    ensures x - y == multiset{} <==> x <= y
  {
    if x - y == multiset{} {
      forall t: T
        ensures x[t] <= y[t]
      {
        assert (x - y)[t] == 0;
      }
    }
  }

  /** The common part is taken out of the negation, and nothing is left of it exactly if the chain contains
      all of it. */
  lemma NegationTaken(op: Op, n: Expr, e: Expr)
    requires InPlay(n) && InPlay(e)
    ensures ExtractEqTop(op, n, e).e1 == Sym(NeutralSym(op)) <==> Parts(op, n) <= Parts(op, e)
  {
    AllInPlay(op, n);
    AllInPlay(op, e);
    ExtractLive(op, None, n, e);
    var x := ExtractEq(op, None, n, e);
    EliminateLive(op, x.e1);
    NoneLeft(Parts(op, n), Parts(op, e));
    if x.common.None? {
      PartsNotEmpty(op, n);
      NothingCommon(op, n, e);
    }
  }

  lemma {:induction false} NothingCommon(op: Op, n: Expr, e: Expr)
    requires InPlay(n) && InPlay(e) && ExtractEq(op, None, n, e).common.None?
    ensures Live(op, ExtractEq(op, None, n, e).e1) != multiset{}
    ensures ExtractEq(op, None, n, e).e1 != Sym(NeutralSym(op))
  {
    AllInPlay(op, n);
    AllInPlay(op, e);
    PartsNotEmpty(op, n);
    ExtractLive(op, None, n, e);
    NoOverlap(Parts(op, n), Parts(op, e));
  }

  lemma NoOverlap<T>(x: multiset<T>, y: multiset<T>)
    ensures multiset{} == multiset{} + x * y ==> x - y == x
  {
    if multiset{} == multiset{} + x * y {
      forall t: T
        ensures (x - y)[t] == x[t]
      {
        assert (multiset{} + x * y)[t] == 0;
        assert (x * y)[t] == 0;
      }
    }
  }

  // ---------------------------------------------------------------- a silent second pass

  /** It has tried every operand below its first cursor against the whole chain. */
  lemma {:induction false} NothingToFire(op: Op, root: Expr, p: Path, s: Path)
    requires OnSpine(op, root, p) && IsBin(root, op) && Dups2(op, root, p, Here).count == 0
    requires IsOperand(op, At(op, root, p), s) && At(op, At(op, root, p), s).Bin?
    ensures IsOperand(op, root, Concat(p, s)) && At(op, root, Concat(p, s)) == At(op, At(op, root, p), s)
    ensures var x := At(op, At(op, root, p), s);
            && IsBin(x, Dual(op)) && Dups2(x.op, x, Here, Here).count == 0
            && CancelOperand(op, root, Concat(p, s), Here, Pass(x, 0)).count == 0
    decreases SpineNodes(op, At(op, root, p))
  {
    var e1 := At(op, root, p);
    if IsBin(e1, op) {
      AtSnoc(op, root, p, s.right);
      ConcatSnoc(p, s.right, s.rest);
      BothUnchanged(op, root, p, s.right);
      NothingToFire(op, root, Snoc(p, s.right), s.rest);
    } else {
      ConcatSnoc(p, false, Here);
      OperandFired(op, root, p);
    }
  }

  lemma BothUnchanged(op: Op, root: Expr, p: Path, d: bool)
    requires OnSpine(op, root, p) && IsBin(At(op, root, p), op) && Dups2(op, root, p, Here).count == 0
    ensures OnSpine(op, root, Snoc(p, d)) && Dups2(op, root, Snoc(p, d), Here).count == 0
  {
    AtSnoc(op, root, p, false);
    AtSnoc(op, root, p, true);
    assert Dups2(op, root, Snoc(p, false), Here).count == 0;
  }

  lemma OperandFired(op: Op, root: Expr, p: Path)
    requires IsOperand(op, root, p) && IsBin(root, op) && At(op, root, p).Bin? && Dups2(op, root, p, Here).count == 0
    ensures var x := At(op, root, p);
            && IsBin(x, Dual(op)) && Dups2(x.op, x, Here, Here).count == 0
            && CancelOperand(op, root, p, Here, Pass(x, 0)).count == 0
  {
    var x := At(op, root, p);
    OperandSmaller(op, root, p);
    assert Dups2Below(op, root, p, Here).count == 0;
    var inner := Dups2(x.op, x, Here, Here);
    assert CancelOperand(op, root, p, Here, inner).count == 0;
  }

  /** What is tried and does not fire is not contradicted. */
  lemma NotContradicted(op: Op, root: Expr, p: Path)
    requires IsOperand(op, root, p) && IsBin(root, op) && IsBin(At(op, root, p), Dual(op))
    requires Normal(root) && InPlay(root)
    requires CancelOperand(op, root, p, Here, Pass(At(op, root, p), 0)).count == 0
    ensures !Contradicts(op, root, At(op, root, p))
  {
    var x := At(op, root, p);
    PutSame(op, root, p);
    OperandOk(op, root, p);
    NegationInPlay(x);
    NegationTaken(op, Transform(Not(x)), root);
  }

  lemma {:induction false} OperandOk(op: Op, e: Expr, p: Path)
    requires OnSpine(op, e, p) && Normal(e) && InPlay(e)
    ensures Normal(At(op, e, p)) && InPlay(At(op, e, p))
  {
    if p.Down? {
      OperandOk(op, Child(e, p.right), p.rest);
    }
  }

  lemma {:induction false} SilentCancelFree(e: Expr)
    requires Normal(e) && NoYn(e) && (e.Bin? ==> Dups2(e.op, e, Here, Here).count == 0)
    ensures CancelFree(e)
    decreases Size(e), 0
  {
    if e.Bin? {
      forall s | IsOperand(e.op, e, s) && At(e.op, e, s).Bin?
        ensures !Contradicts(e.op, e, At(e.op, e, s))
      {
        NothingToFire(e.op, e, Here, s);
        NotContradicted(e.op, e, s);
      }
      AtSnoc(e.op, e, Here, false);
      AtSnoc(e.op, e, Here, true);
      assert Snoc(Here, false) == Down(false, Here) && Snoc(Here, true) == Down(true, Here);
      SilentBelow(e.op, e, Down(false, Here));
      SilentBelow(e.op, e, Down(true, Here));
    }
  }

  lemma {:induction false} SilentBelow(op: Op, root: Expr, p: Path)
    requires IsBin(root, op) && OnSpine(op, root, p) && p.Down? && Dups2(op, root, Here, Here).count == 0
    requires Normal(root) && InPlay(root)
    ensures OperandsCancelFree(op, At(op, root, p))
    decreases Size(At(op, root, p)), 1
  {
    var x := At(op, root, p);
    if IsBin(x, op) {
      AtSnoc(op, root, p, false);
      AtSnoc(op, root, p, true);
      SilentBelow(op, root, Snoc(p, false));
      SilentBelow(op, root, Snoc(p, true));
    } else {
      OperandOk(op, root, p);
      if x.Bin? {
        NothingToFire(op, root, Here, p);
      }
      SilentCancelFree(x);
    }
  }

  // ---------------------------------------------------------------- the whole simplifier

  lemma {:induction false} NormalNoYn(e: Expr)
    requires Normal(e) && !HasYn(e)
    ensures NoYn(e)
  {
    if e.Bin? {
      NormalNoYn(e.left);
      NormalNoYn(e.right);
    }
  }

  lemma {:induction false} EliminateDupsNoYn(e: Expr)
    requires !HasYn(e)
    ensures !HasYn(EliminateDups(e))
    decreases Size(e)
  {
    if e.Bin? && Round(e).count > 0 {
      EliminateYnRemovesAll(Round(e).e);
      EliminateDupsNoYn(EliminateYn(Round(e).e));
    }
  }

  /** Main result: in what expr_eliminate_dups returns no operand is contradicted by the operands beside it. */
  lemma EliminateDupsCancelFree(e: Expr)
    requires Normal(e) && !HasYn(e)
    ensures CancelFree(EliminateDups(e))
  {
    var r := EliminateDups(e);
    EliminateDupsNormal(e);
    EliminateDupsNoYn(e);
    NormalNoYn(r);
    EliminateDupsFixpoint(e);
    if r.Bin? {
      SecondSilent(r, Here);
    }
    SilentCancelFree(r);
  }

  lemma SecondSilent(e: Expr, h: Path)
    requires e.Bin? && Round(e).count == 0 && h == Here
    ensures Dups2(e.op, e, h, h).count == 0
  {
    var x, y := PassesOf(e, h);
    NothingRewritten(e.op, e, x, y, h);
  }

  lemma PassesOf(e: Expr, h: Path) returns (x: Pass, y: Pass)
    requires e.Bin? && Round(e).count == 0 && h == Here
    ensures x == Dups1(e.op, e, h, h) && y == Dups2(e.op, x.e, h, h) && x.count + y.count == 0
  {
    x := Dups1(e.op, e, h, h);
    y := Dups2(e.op, x.e, h, h);
  }

  lemma NothingRewritten(op: Op, e: Expr, x: Pass, y: Pass, h: Path)
    requires h == Here && x == Dups1(op, e, h, h) && y == Dups2(op, x.e, h, h) && x.count + y.count == 0
    ensures x.e == e && y == Dups2(op, e, h, h)
  {}
}
