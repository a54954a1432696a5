/**
 Positions inside an expression. The duplicate elimination of expr.c walks one tree with two
 cursors that may point at the same node, at a node and its ancestor, or at unrelated nodes, and
 rewrites the tree under them. A cursor is modelled as a path from the root of the chain of
 equal operators (the spine) it walks; two cursors point at the same node when their paths are
 equal.
 */
module ExprSpine {
  import opened Tristate
  import opened Exprs

  datatype Path = Here | Down(right: bool, rest: Path)

  function Snoc(p: Path, right: bool): Path {
    match p
    case Here => Down(right, Here)
    case Down(d, q) => Down(d, Snoc(q, right))
  }

  function Child(e: Expr, right: bool): Expr
    requires e.Bin?
  {
    if right then e.right else e.left
  }

  /** Every node strictly above the position p is an op node. */
  predicate OnSpine(op: Op, e: Expr, p: Path) {
    p.Down? ==> IsBin(e, op) && OnSpine(op, Child(e, p.right), p.rest)
  }

  function At(op: Op, e: Expr, p: Path): Expr
    requires OnSpine(op, e, p)
  {
    if p.Here? then e else At(op, Child(e, p.right), p.rest)
  }

  function Put(op: Op, e: Expr, p: Path, x: Expr): Expr
    requires OnSpine(op, e, p)
  {
    match p
    case Here => x
    case Down(d, q) =>
      if d then Bin(op, e.left, Put(op, e.right, q, x)) else Bin(op, Put(op, e.left, q, x), e.right)
  }

  /** An operand of the spine: a position that holds no op node. */
  predicate IsOperand(op: Op, e: Expr, p: Path) {
    OnSpine(op, e, p) && !IsBin(At(op, e, p), op)
  }

  /** The same op nodes in the same places, whatever the operands are. */
  predicate SameSpine(op: Op, x: Expr, y: Expr) {
    IsBin(x, op) == IsBin(y, op)
    && (IsBin(x, op) ==> SameSpine(op, x.left, y.left) && SameSpine(op, x.right, y.right))
  }

  function SpineNodes(op: Op, e: Expr): nat {
    if IsBin(e, op) then 1 + SpineNodes(op, e.left) + SpineNodes(op, e.right) else 0
  }

  lemma {:induction false} AtSnoc(op: Op, e: Expr, p: Path, d: bool)
    requires OnSpine(op, e, p) && IsBin(At(op, e, p), op)
    ensures OnSpine(op, e, Snoc(p, d)) && At(op, e, Snoc(p, d)) == Child(At(op, e, p), d)
  {
    if p.Down? {
      AtSnoc(op, Child(e, p.right), p.rest, d);
    }
  }

  lemma {:induction false} SameSpineRefl(op: Op, x: Expr)
    ensures SameSpine(op, x, x)
  {
    if IsBin(x, op) {
      SameSpineRefl(op, x.left);
      SameSpineRefl(op, x.right);
    }
  }

  lemma {:induction false} SameSpineTrans(op: Op, x: Expr, y: Expr, z: Expr)
    requires SameSpine(op, x, y) && SameSpine(op, y, z)
    ensures SameSpine(op, x, z)
  {
    if IsBin(x, op) {
      SameSpineTrans(op, x.left, y.left, z.left);
      SameSpineTrans(op, x.right, y.right, z.right);
    }
  }

  lemma {:induction false} SameSpineNodes(op: Op, x: Expr, y: Expr)
    requires SameSpine(op, x, y)
    ensures SpineNodes(op, x) == SpineNodes(op, y)
  {
    if IsBin(x, op) {
      SameSpineNodes(op, x.left, y.left);
      SameSpineNodes(op, x.right, y.right);
    }
  }

  /** A cursor stays on the spine while operands are rewritten. */
  lemma {:induction false} SameSpineAt(op: Op, x: Expr, y: Expr, p: Path)
    requires SameSpine(op, x, y) && OnSpine(op, x, p)
    ensures OnSpine(op, y, p)
    ensures SameSpine(op, At(op, x, p), At(op, y, p))
    ensures SpineNodes(op, At(op, x, p)) == SpineNodes(op, At(op, y, p))
  {
    if p.Down? {
      SameSpineAt(op, Child(x, p.right), Child(y, p.right), p.rest);
    } else {
      SameSpineNodes(op, x, y);
    }
  }

  /** Rewriting one operand keeps the spine and changes the size by the operand's difference. */
  lemma {:induction false} PutOperand(op: Op, e: Expr, p: Path, x: Expr)
    requires IsOperand(op, e, p) && !IsBin(x, op)
    ensures SameSpine(op, e, Put(op, e, p, x))
    ensures Size(Put(op, e, p, x)) == Size(e) - Size(At(op, e, p)) + Size(x)
  {
    match p
    case Here =>
    case Down(d, q) =>
      SameSpineRefl(op, e.left);
      SameSpineRefl(op, e.right);
      PutOperand(op, Child(e, d), q, x);
  }

  /** Rewriting one operand leaves the others alone. */
  lemma {:induction false} PutElsewhere(op: Op, e: Expr, p: Path, q: Path, x: Expr)
    requires IsOperand(op, e, p) && IsOperand(op, e, q) && !IsBin(x, op)
    ensures IsOperand(op, Put(op, e, p, x), q)
    ensures At(op, Put(op, e, p, x), q) == if p == q then x else At(op, e, q)
  {
    if p.Down? && q.Down? && p.right == q.right {
      PutElsewhere(op, Child(e, p.right), p.rest, q.rest, x);
    }
  }

  /** The value of everything on the spine except the position p. */
  function Rest(op: Op, e: Expr, p: Path, a: Assignment): Tri
    requires OnSpine(op, e, p)
  {
    match p
    case Here => Neutral(op)
    case Down(d, q) =>
      if d then Apply(op, Eval(e.left, a), Rest(op, e.right, q, a))
      else Apply(op, Rest(op, e.left, q, a), Eval(e.right, a))
  }

  lemma PutEval(op: Op, e: Expr, p: Path, x: Expr, a: Assignment)
    requires OnSpine(op, e, p)
    ensures Eval(Put(op, e, p, x), a) == Apply(op, Eval(x, a), Rest(op, e, p, a))
    ensures Eval(e, a) == Apply(op, Eval(At(op, e, p), a), Rest(op, e, p, a))
  {
    PutValue(op, e, p, x, a);
    AtValue(op, e, p, a);
  }

  lemma {:induction false} PutValue(op: Op, e: Expr, p: Path, x: Expr, a: Assignment)
    requires OnSpine(op, e, p)
    ensures Eval(Put(op, e, p, x), a) == Apply(op, Eval(x, a), Rest(op, e, p, a))
  {
    if p.Down? {
      var child, sibling := Child(e, p.right), Child(e, !p.right);
      PutValue(op, child, p.rest, x, a);
      ApplyMove(op, Eval(x, a), Rest(op, child, p.rest, a), Eval(sibling, a));
    }
  }

  lemma {:induction false} AtValue(op: Op, e: Expr, p: Path, a: Assignment)
    requires OnSpine(op, e, p)
    ensures Eval(e, a) == Apply(op, Eval(At(op, e, p), a), Rest(op, e, p, a))
  {
    if p.Down? {
      var child, sibling := Child(e, p.right), Child(e, !p.right);
      AtValue(op, child, p.rest, a);
      ApplyMove(op, Eval(At(op, child, p.rest), a), Rest(op, child, p.rest, a), Eval(sibling, a));
    }
  }

  lemma ApplyMove(op: Op, x: Tri, r: Tri, s: Tri)
    ensures Apply(op, Apply(op, x, r), s) == Apply(op, x, Apply(op, r, s))
    ensures Apply(op, s, Apply(op, x, r)) == Apply(op, x, Apply(op, s, r))
  {}

  /** Moving value from one operand to another keeps the value of the whole. */
  lemma {:induction false} PutPairEval(op: Op, e: Expr, p: Path, q: Path, x: Expr, y: Expr, a: Assignment)
    requires IsOperand(op, e, p) && IsOperand(op, e, q) && p != q
    requires !IsBin(x, op)
    requires Apply(op, Eval(x, a), Eval(y, a)) == Apply(op, Eval(At(op, e, p), a), Eval(At(op, e, q), a))
    ensures OnSpine(op, Put(op, e, p, x), q)
    ensures Eval(Put(op, Put(op, e, p, x), q, y), a) == Eval(e, a)
    decreases p
  {
    PutElsewhere(op, e, p, q, x);
    if p.right == q.right {
      PutPairEval(op, Child(e, p.right), p.rest, q.rest, x, y, a);
    } else {
      var u, v := Child(e, p.right), Child(e, q.right);
      PutEval(op, u, p.rest, x, a);
      PutEval(op, v, q.rest, y, a);
      PairRegroup(op, Eval(x, a), Eval(y, a), Eval(At(op, e, p), a), Eval(At(op, e, q), a),
                  Rest(op, u, p.rest, a), Rest(op, v, q.rest, a));
    }
  }

  lemma PairRegroup(op: Op, x: Tri, y: Tri, x0: Tri, y0: Tri, r: Tri, s: Tri)
    requires Apply(op, x, y) == Apply(op, x0, y0)
    ensures Apply(op, Apply(op, x, r), Apply(op, y, s)) == Apply(op, Apply(op, x0, r), Apply(op, y0, s))
    ensures Apply(op, Apply(op, y, s), Apply(op, x, r)) == Apply(op, Apply(op, y0, s), Apply(op, x0, r))
  {
    ApplyRegroup(op, x, y, r, s);
    ApplyRegroup(op, x0, y0, r, s);
    ApplyRegroup(op, y, x, s, r);
    ApplyRegroup(op, y0, x0, s, r);
  }

  /** A constant y or n put below the root can be removed later. */
  lemma {:induction false} PutHasYn(op: Op, e: Expr, p: Path, x: Expr)
    requires OnSpine(op, e, p) && p.Down?
    requires IsYn(x) || HasYn(x)
    ensures HasYn(Put(op, e, p, x))
  {
    if p.rest.Down? {
      PutHasYn(op, Child(e, p.right), p.rest, x);
    }
  }

  /** As does one that is there already, away from the rewritten operand. */
  lemma {:induction false} PutKeepsYn(op: Op, e: Expr, p: Path, q: Path, x: Expr)
    requires IsOperand(op, e, p) && IsOperand(op, e, q) && p != q && IsYn(At(op, e, q))
    ensures HasYn(Put(op, e, p, x))
  {
    if p.right == q.right {
      PutKeepsYn(op, Child(e, p.right), p.rest, q.rest, x);
    } else {
      OperandHasYn(op, e, q);
      var other := Child(e, q.right);
      assert IsYn(other) || HasYn(other);
    }
  }

  lemma {:induction false} OperandHasYn(op: Op, e: Expr, q: Path)
    requires OnSpine(op, e, q) && q.Down? && IsYn(At(op, e, q))
    ensures HasYn(e)
    ensures IsYn(Child(e, q.right)) || HasYn(Child(e, q.right))
  {
    var child := Child(e, q.right);
    assert At(op, e, q) == At(op, child, q.rest);
    if q.rest.Down? {
      OperandHasYn(op, child, q.rest);
    } else {
      assert IsYn(child);
    }
  }
}
