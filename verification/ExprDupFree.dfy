/** What expr_eliminate_dups leaves behind: no two operands of a chain of equal operators that could
    still be joined, on any level. */
module ExprDupFree {
  import opened Exprs
  import opened ExprEquality
  import opened ExprJoin
  import opened ExprSpine
  import opened ExprDups

  function Concat(p: Path, s: Path): Path {
    match p
    case Here => s
    case Down(d, q) => Down(d, Concat(q, s))
  }

  lemma {:induction false} ConcatSnoc(p: Path, d: bool, s: Path)
    ensures Concat(Snoc(p, d), s) == Concat(p, Down(d, s))
    ensures Concat(p, Here) == p
  {
    if p.Down? {
      ConcatSnoc(p.rest, d, s);
    }
  }

  /** No two different operands of the spine can be joined; in particular no two are equal. */
  ghost predicate OperandsApart(op: Op, e: Expr) {
    forall s, t :: IsOperand(op, e, s) && IsOperand(op, e, t) && s != t ==>
      Join(op, At(op, e, s), At(op, e, t)).None?
  }

  /** So it is on every level. */
  ghost predicate DupFree(e: Expr)
    decreases e, 1
  {
    e.Bin? ==> OperandsApart(e.op, e) && OperandsDupFree(e.op, e.left) && OperandsDupFree(e.op, e.right)
  }

  ghost predicate OperandsDupFree(op: Op, e: Expr)
    decreases e, 2
  {
    if IsBin(e, op) then OperandsDupFree(op, e.left) && OperandsDupFree(op, e.right) else DupFree(e)
  }

  /** A first pass that rewrites nothing has tried all pairs of operands under its cursors. */
  lemma {:induction false} NothingToJoin(op: Op, root: Expr, p: Path, q: Path, s: Path, t: Path)
    requires OnSpine(op, root, p) && OnSpine(op, root, q) && Dups1(op, root, p, q).count == 0
    requires IsOperand(op, At(op, root, p), s) && IsOperand(op, At(op, root, q), t)
    requires Concat(p, s) != Concat(q, t)
    ensures var x := At(op, At(op, root, p), s);
            && Join(op, x, At(op, At(op, root, q), t)).None?
            && (x.Bin? ==> Dups1(x.op, x, Here, Here).count == 0)
    decreases SpineNodes(op, At(op, root, p)), SpineNodes(op, At(op, root, q))
  {
    var e1, e2 := At(op, root, p), At(op, root, q);
    if IsBin(e1, op) {
      AtSnoc(op, root, p, s.right);
      ConcatSnoc(p, s.right, s.rest);
      FirstUnchanged(op, root, p, q, true);
      NothingToJoin(op, root, Snoc(p, s.right), q, s.rest, t);
    } else if IsBin(e2, op) {
      AtSnoc(op, root, q, t.right);
      ConcatSnoc(q, t.right, t.rest);
      FirstUnchanged(op, root, p, q, false);
      NothingToJoin(op, root, p, Snoc(q, t.right), s, t.rest);
    } else {
      ConcatSnoc(p, false, Here);
      ConcatSnoc(q, false, Here);
      OperandsTried(op, root, p, q);
    }
  }

  /** If the two halves of a pass together rewrite nothing, neither does. */
  lemma FirstUnchanged(op: Op, root: Expr, p: Path, q: Path, first: bool)
    requires OnSpine(op, root, p) && OnSpine(op, root, q) && Dups1(op, root, p, q).count == 0
    requires if first then IsBin(At(op, root, p), op)
             else !IsBin(At(op, root, p), op) && IsBin(At(op, root, q), op)
    ensures first ==> forall d ::
              OnSpine(op, root, Snoc(p, d)) && Dups1(op, root, Snoc(p, d), q).count == 0
    ensures !first ==> forall d ::
              OnSpine(op, root, Snoc(q, d)) && Dups1(op, root, p, Snoc(q, d)).count == 0
  {
    if first {
      AtSnoc(op, root, p, false);
      AtSnoc(op, root, p, true);
      assert Dups1(op, root, Snoc(p, false), q).count == 0;
    } else {
      AtSnoc(op, root, q, false);
      AtSnoc(op, root, q, true);
      assert Dups1(op, root, p, Snoc(q, false)).count == 0;
    }
  }

  lemma OperandsTried(op: Op, root: Expr, p: Path, q: Path)
    requires IsOperand(op, root, p) && IsOperand(op, root, q) && p != q && Dups1(op, root, p, q).count == 0
    ensures var x := At(op, root, p);
            Join(op, x, At(op, root, q)).None? && (x.Bin? ==> Dups1(x.op, x, Here, Here).count == 0)
  {
    OperandSmaller(op, root, p);
    var x := At(op, root, p);
    var inner := if x.Bin? then Dups1(x.op, x, Here, Here) else Pass(x, 0);
    Dups1Operands(op, root, p, q, inner);
    assert JoinOperands(op, root, p, q, inner).count == 0;
    PutSame(op, root, p);
  }

  function FirstOperand(op: Op, e: Expr): (p: Path)
    ensures IsOperand(op, e, p)
  {
    if IsBin(e, op) then Down(false, FirstOperand(op, e.left)) else Here
  }

  /** Every operand of a binary expression has another one beside it. */
  lemma OtherOperand(op: Op, e: Expr, p: Path) returns (q: Path)
    requires IsBin(e, op) && IsOperand(op, e, p)
    ensures IsOperand(op, e, q) && q != p
  {
    q := Down(!p.right, FirstOperand(op, Child(e, !p.right)));
  }

  lemma {:induction false} CleanDupFree(e: Expr)
    requires e.Bin? ==> Dups1(e.op, e, Here, Here).count == 0
    ensures DupFree(e)
    decreases Size(e), 0
  {
    if e.Bin? {
      forall s, t | IsOperand(e.op, e, s) && IsOperand(e.op, e, t) && s != t
        ensures Join(e.op, At(e.op, e, s), At(e.op, e, t)).None?
      {
        NothingToJoin(e.op, e, Here, Here, s, t);
      }
      AtSnoc(e.op, e, Here, false);
      AtSnoc(e.op, e, Here, true);
      assert Snoc(Here, false) == Down(false, Here) && Snoc(Here, true) == Down(true, Here);
      BelowDupFree(e.op, e, Down(false, Here));
      BelowDupFree(e.op, e, Down(true, Here));
    }
  }

  lemma {:induction false} BelowDupFree(op: Op, root: Expr, p: Path)
    requires IsBin(root, op) && OnSpine(op, root, p) && p.Down? && Dups1(op, root, Here, Here).count == 0
    ensures OperandsDupFree(op, At(op, root, p))
    decreases Size(At(op, root, p)), 1
  {
    var x := At(op, root, p);
    if IsBin(x, op) {
      AtSnoc(op, root, p, false);
      AtSnoc(op, root, p, true);
      BelowDupFree(op, root, Snoc(p, false));
      BelowDupFree(op, root, Snoc(p, true));
    } else {
      var q := OtherOperand(op, root, p);
      NothingToJoin(op, root, Here, Here, p, q);
      CleanDupFree(x);
    }
  }

  /** Main result: what expr_eliminate_dups returns has nothing left to join. */
  lemma EliminateDupsDupFree(e: Expr)
    ensures DupFree(EliminateDups(e))
  {
    EliminateDupsFixpoint(e);
    CleanDupFree(EliminateDups(e));
  }
}
