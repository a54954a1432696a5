/** What expr_transform computes, in one pass: negations pushed down to the leaves. */
module ExprPushes {
  import opened Exprs

  /** A leaf, negated. */
  function NegatedLeaf(e: Expr): Expr {
    match e
    case Not(x) => x
    case Equal(l, r) => Unequal(l, r)
    case Unequal(l, r) => Equal(l, r)
    case Sym(s) =>
      if s == SYMBOL_YES then Sym(SYMBOL_NO)
      else if s == SYMBOL_NO then Sym(SYMBOL_YES)
      else if s == SYMBOL_MOD then e
      else Not(e)
    case Bin(_, _, _) => e
  }

  /** The expression, negated if that is asked for: the operators change, the operands keep their order. */
  function Pushed(e: Expr, negated: bool): Expr {
    match e
    case Bin(op, l, r) => Bin(if negated then Dual(op) else op, Pushed(l, negated), Pushed(r, negated))
    case Not(x) => Pushed(x, !negated)
    case _ => if negated then NegatedLeaf(TransformLeaf(e)) else TransformLeaf(e)
  }

  function Negate(e: Expr): Expr {
    Transform(Not(e))
  }

  /** Transforming an operand first makes no difference to its negation. */
  lemma NegateTransformed(e: Expr)
    ensures Negate(Transform(e)) == Negate(e)
  {
    TransformIdempotent(e);
  }

  lemma NegateBin(op: Op, l: Expr, r: Expr)
    ensures Negate(Bin(op, l, r)) == Bin(Dual(op), Negate(l), Negate(r))
  {
    NegateTransformed(l);
    NegateTransformed(r);
    var e, n := Bin(op, l, r), Bin(Dual(op), Not(Transform(l)), Not(Transform(r)));
    assert Transform(e) == Bin(op, Transform(l), Transform(r));
    assert Transform(Not(e)) == Transform(n);
    assert Transform(n) == Bin(Dual(op), Negate(Transform(l)), Negate(Transform(r)));
  }

  lemma NegateLeaf(e: Expr)
    requires Normal(e) && !e.Bin?
    ensures Negate(e) == NegatedLeaf(e)
    ensures Normal(NegatedLeaf(e)) && !NegatedLeaf(e).Bin? && NegatedLeaf(NegatedLeaf(e)) == e
  {
    TransformKeepsNormal(e);
    if e.Not? {
      TransformKeepsNormal(e.arg);
    }
  }

  lemma {:induction false} NegateTwice(e: Expr)
    requires Normal(e)
    ensures Negate(Negate(e)) == e
  {
    if e.Bin? {
      NegateTwice(e.left);
      NegateTwice(e.right);
      NegateBin(e.op, e.left, e.right);
      NegateBin(Dual(e.op), Negate(e.left), Negate(e.right));
    } else {
      NegateLeaf(e);
      NegateLeaf(NegatedLeaf(e));
    }
  }

  /** Main result: transforming again and again after every step of De Morgan amounts to one pass. */
  lemma {:induction false} TransformPushes(e: Expr)
    ensures Transform(e) == Pushed(e, false) && Negate(e) == Pushed(e, true)
  {
    match e
    case Bin(op, l, r) =>
      TransformPushes(l);
      TransformPushes(r);
      NegateBin(op, l, r);
    case Not(x) =>
      TransformPushes(x);
      NegateTransformed(x);
      NegateTransformed(e);
      NegateTwice(Transform(x));
    case _ =>
      NegateTransformed(e);
      NegateLeaf(TransformLeaf(e));
  }
}
