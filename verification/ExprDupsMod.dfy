/**
 When expr_eliminate_dups keeps an m: what the rule of the second pass does whenever it fires, a
 condition under which it never does, and an expression that loses its m.
 */
module ExprDupsMod {
  import opened Tristate
  import opened Exprs
  import opened ExprEquality
  import opened ExprJoin
  import opened ExprSpine
  import opened ExprDups

  // ---------------------------------------------------------------- every time the rule fires

  /** Whatever the tree and the cursors are, the rule replaces a spine that is the absorbing value or m
      by one that is the absorbing value: the value survives exactly when it was not m. */
  lemma FiringKeepsUnlessMod(op: Op, root: Expr, p: Path, q: Path, inner: Pass, a: Assignment)
    requires IsOperand(op, root, p) && OnSpine(op, root, q)
    requires IsBin(inner.e, Dual(op)) && OnlyModMayChange(Eval(At(op, root, p), a), Eval(inner.e, a))
    requires CancelOperand(op, root, p, q, inner).count == inner.count + 1
    ensures var r := CancelOperand(op, root, p, q, inner);
            && Eval(r.e, a) == SymTri(AbsorbSym(op), a)
            && (Eval(r.e, a) == Eval(root, a) <==> Eval(root, a) != MOD)
  {
    CancelOperandOnlyMod(op, root, p, q, inner, a);
    PutOperand(op, root, p, inner.e);
    PutElsewhere(op, root, p, p, inner.e);
    var root1 := Put(op, root, p, inner.e);
    PutEval(op, root1, p, Sym(AbsorbSym(op)), a);
  }

  /** An expression that is simplified to y or n keeps its value exactly where it was not m. */
  lemma ConstantUnlessMod(e: Expr, a: Assignment)
    requires IsYn(EliminateDups(e))
    ensures Eval(EliminateDups(e), a) == Eval(e, a) <==> Eval(e, a) != MOD
  {
    EliminateDupsOnlyMod(e, a);
  }

  // ---------------------------------------------------------------- when it never fires

  ghost predicate CanBe(e: Expr, t: Tri) {
    exists a: Assignment :: Eval(e, a) == t
  }

  /** Every conjunction in it can be y, and every disjunction n. */
  ghost predicate Consistent(e: Expr) {
    e.Bin? ==> CanBe(e, Neutral(e.op)) && Consistent(e.left) && Consistent(e.right)
  }

  /** A spine has the neutral value only if everything on it has. */
  lemma NeutralAt(op: Op, e: Expr, p: Path, a: Assignment)
    requires OnSpine(op, e, p) && Eval(e, a) == Neutral(op)
    ensures Eval(At(op, e, p), a) == Neutral(op) && Rest(op, e, p, a) == Neutral(op)
  {
    PutEval(op, e, p, e, a);
  }

  lemma {:induction false} ConsistentAt(op: Op, e: Expr, p: Path)
    requires OnSpine(op, e, p) && Consistent(e)
    ensures Consistent(At(op, e, p))
  {
    if p.Down? {
      ConsistentAt(op, Child(e, p.right), p.rest);
    }
  }

  lemma {:induction false} ConsistentPut(op: Op, e: Expr, p: Path, x: Expr, a: Assignment)
    requires OnSpine(op, e, p) && Consistent(e) && Consistent(x)
    requires Eval(Put(op, e, p, x), a) == Neutral(op)
    ensures Consistent(Put(op, e, p, x))
  {
    if p.Down? {
      assert CanBe(Put(op, e, p, x), Neutral(op));
      ConsistentPut(op, Child(e, p.right), p.rest, x, a);
    }
  }

  lemma {:induction false} ConsistentYn(e: Expr)
    requires Consistent(e)
    ensures Consistent(EliminateYn(e))
  {
    if e.Bin? {
      ConsistentYn(e.left);
      ConsistentYn(e.right);
      var a :| Eval(e, a) == Neutral(e.op);
      EliminateYnExact(e, a);
    }
  }

  /** The second pass finds nothing to do on a consistent expression. */
  lemma {:induction false} Dups2Silent(op: Op, root: Expr, p: Path, q: Path)
    requires OnSpine(op, root, p) && OnSpine(op, root, q) && IsBin(root, op) && Consistent(root)
    ensures Dups2(op, root, p, q) == Pass(root, 0)
    decreases Size(root), SpineNodes(op, At(op, root, p)), SpineNodes(op, At(op, root, q))
  {
    if IsBin(At(op, root, p), op) {
      AtSnoc(op, root, p, false);
      AtSnoc(op, root, p, true);
      Dups2Silent(op, root, Snoc(p, false), q);
      Dups2Silent(op, root, Snoc(p, true), q);
    } else {
      if IsBin(At(op, root, q), op) {
        Dups2BelowSilent(op, root, p, q);
      }
      var e1 := At(op, root, p);
      if p != q && e1.Bin? {
        OperandSmaller(op, root, p);
        ConsistentAt(op, root, p);
        Dups2Silent(e1.op, e1, Here, Here);
        DoesNotFire(op, root, p, q);
      }
    }
  }

  lemma {:induction false} Dups2BelowSilent(op: Op, root: Expr, p: Path, q: Path)
    requires IsOperand(op, root, p) && OnSpine(op, root, q) && IsBin(At(op, root, q), op)
    requires IsBin(root, op) && Consistent(root)
    ensures Dups2Below(op, root, p, q) == Pass(root, 0)
    decreases Size(root), SpineNodes(op, At(op, root, p)), SpineNodes(op, At(op, root, q)), 0
  {
    AtSnoc(op, root, q, false);
    AtSnoc(op, root, q, true);
    Dups2Silent(op, root, p, Snoc(q, false));
    Dups2Silent(op, root, p, Snoc(q, true));
  }

  lemma DoesNotFire(op: Op, root: Expr, p: Path, q: Path)
    requires IsOperand(op, root, p) && OnSpine(op, root, q) && IsBin(root, op) && Consistent(root)
    requires IsBin(At(op, root, p), Dual(op))
    ensures CancelOperand(op, root, p, q, Pass(At(op, root, p), 0)) == Pass(root, 0)
  {
    var e1 := At(op, root, p);
    PutSame(op, root, p);
    var negated := Transform(Not(e1));
    var rest := ExtractEqTop(op, negated, At(op, root, q));
    if rest.e1 == Sym(NeutralSym(op)) {
      var a :| Eval(root, a) == Neutral(op);
      NeutralAt(op, root, p, a);
      NeutralAt(op, root, q, a);
      TransformExact(Not(e1), a);
      ExtractEqTopSplits(op, negated, At(op, root, q), a);
      NotBothNeutral(op, OptEval(op, rest.common, a), Eval(rest.e2, a));
    }
  }

  lemma NotBothNeutral(op: Op, common: Tri, z: Tri)
    ensures Apply(op, common, Neutral(op)) == TriNot(Neutral(op)) ==> Apply(op, common, z) != Neutral(op)
  {}

  /** The first pass keeps expressions consistent. */
  lemma {:induction false} Dups1Consistent(op: Op, root: Expr, p: Path, q: Path)
    requires OnSpine(op, root, p) && OnSpine(op, root, q) && IsBin(root, op) && Consistent(root)
    ensures Consistent(Dups1(op, root, p, q).e)
    decreases Size(root), SpineNodes(op, At(op, root, p)), SpineNodes(op, At(op, root, q))
  {
    var e1, e2 := At(op, root, p), At(op, root, q);
    if IsBin(e1, op) {
      AtSnoc(op, root, p, false);
      AtSnoc(op, root, p, true);
      var x := Dups1(op, root, Snoc(p, false), q);
      SameSpineAt(op, root, x.e, Snoc(p, true));
      SameSpineAt(op, root, x.e, q);
      Dups1Consistent(op, root, Snoc(p, false), q);
      Dups1Consistent(op, x.e, Snoc(p, true), q);
    } else if IsBin(e2, op) {
      AtSnoc(op, root, q, false);
      AtSnoc(op, root, q, true);
      var x := Dups1(op, root, p, Snoc(q, false));
      SameSpineAt(op, root, x.e, p);
      SameSpineAt(op, root, x.e, Snoc(q, true));
      Dups1Consistent(op, root, p, Snoc(q, false));
      Dups1Consistent(op, x.e, p, Snoc(q, true));
    } else if p != q {
      OperandSmaller(op, root, p);
      ConsistentAt(op, root, p);
      var inner := if e1.Bin? then Dups1(e1.op, e1, Here, Here) else Pass(e1, 0);
      var a :| Eval(root, a) == Neutral(op);
      if e1.Bin? {
        Dups1Consistent(e1.op, e1, Here, Here);
        Dups1Exact(e1.op, e1, Here, Here, a);
      }
      JoinOperandsConsistent(op, root, p, q, inner, a);
    }
  }

  lemma JoinOperandsConsistent(op: Op, root: Expr, p: Path, q: Path, inner: Pass, a: Assignment)
    requires IsOperand(op, root, p) && IsOperand(op, root, q) && p != q && Consistent(root)
    requires !IsBin(inner.e, op) && Consistent(inner.e)
    requires Eval(inner.e, a) == Eval(At(op, root, p), a) && Eval(root, a) == Neutral(op)
    ensures Consistent(JoinOperands(op, root, p, q, inner).e)
  {
    NeutralAt(op, root, p, a);
    PutEval(op, root, p, inner.e, a);
    ConsistentPut(op, root, p, inner.e, a);
    PutElsewhere(op, root, p, q, inner.e);
    PutElsewhere(op, root, p, p, inner.e);
    JoinOperandsExact(op, root, p, q, inner, a);
    var root1 := Put(op, root, p, inner.e);
    var joined := Join(op, inner.e, At(op, root1, q));
    if joined.Some? {
      var neutral := Sym(NeutralSym(op));
      PutElsewhere(op, root1, p, q, neutral);
      NeutralAt(op, root1, p, a);
      PutEval(op, root1, p, neutral, a);
      ConsistentPut(op, root1, p, neutral, a);
      ConsistentPut(op, Put(op, root1, p, neutral), q, joined.e, a);
    }
  }

  /** The second pass rewrites nothing in any round. */
  lemma {:induction false} ConsistentOnlyFirstPass(e: Expr)
    requires Consistent(e)
    ensures OnlyFirstPass(e)
    decreases Size(e)
  {
    if e.Bin? {
      var x := Dups1(e.op, e, Here, Here);
      Dups1Consistent(e.op, e, Here, Here);
      Dups2Silent(e.op, x.e, Here, Here);
      if Round(e).count > 0 {
        EliminateYnRemovesAll(x.e);
        ConsistentYn(x.e);
        ConsistentOnlyFirstPass(EliminateYn(x.e));
      }
    }
  }

  /** Main result: an expression all of whose conjunctions can be y, and disjunctions n, keeps its value
      under every assignment, m included. */
  lemma ConsistentExact(e: Expr, a: Assignment)
    requires Consistent(e)
    ensures Eval(EliminateDups(e), a) == Eval(e, a)
  {
    ConsistentOnlyFirstPass(e);
    FirstPassExact(e, a);
  }

  /** In particular one without negations, comparisons and constants. */
  predicate Plain(e: Expr) {
    match e
    case Sym(s) => s.Config? && s.IsTristate()
    case Bin(_, l, r) => Plain(l) && Plain(r)
    case _ => false
  }

  lemma {:induction false} PlainUniform(e: Expr, a: Assignment, t: Tri)
    requires Plain(e) && t != MOD && forall id :: a.tri(id) == t
    ensures Eval(e, a) == t
  {
    if e.Bin? {
      PlainUniform(e.left, a, t);
      PlainUniform(e.right, a, t);
    }
  }

  lemma {:induction false} PlainConsistent(e: Expr)
    requires Plain(e)
    ensures Consistent(e)
  {
    if e.Bin? {
      PlainConsistent(e.left);
      PlainConsistent(e.right);
      PlainUniform(e, Assignment(_ => Neutral(e.op), _ => N), Neutral(e.op));
    }
  }

  // ---------------------------------------------------------------- an m that is lost

  /** References to two tristates. */
  predicate Two(x: Expr, y: Expr) {
    && x.Sym? && x.sym.Config? && x.sym.ty == SymType.Tristate
    && y.Sym? && y.sym.Config? && y.sym.ty == SymType.Tristate && x.sym.id != y.sym.id
  }

  function Either(x: Expr, y: Expr): Expr { Bin(Or, x, y) }

  function Neither(x: Expr, y: Expr): Expr { Bin(And, Not(x), Not(y)) }

  function Contradiction(x: Expr, y: Expr): Expr { Bin(And, Either(x, y), Neither(x, y)) }

  lemma ExtractNeither(x: Expr, y: Expr)
    requires Two(x, y)
    ensures var neither, yes := Bin(And, Not(x), Not(y)), Sym(SYMBOL_YES);
            ExtractEq(And, None, neither, neither) == Extracted(Some(neither), Bin(And, yes, yes), Bin(And, yes, yes))
  {
    var neither := Bin(And, Not(x), Not(y));
    assert ExprEq(x, x) && ExprEq(y, y) && !ExprEq(x, y);
    assert ExprEq(Not(x), Not(x)) && ExprEq(Not(y), Not(y)) && !ExprEq(Not(y), Sym(SYMBOL_YES));
    var yes := Sym(SYMBOL_YES);
    assert !ExprEq(Not(x), Not(y)) && !ExprEq(Not(y), yes);
    var s1 := ExtractEq(And, None, Not(x), neither);
    assert ExtractEq(And, None, Not(x), Not(x)) == Extracted(Some(Not(x)), yes, yes);
    assert ExtractEq(And, Some(Not(x)), yes, Not(y)) == Extracted(Some(Not(x)), yes, Not(y));
    assert s1 == Extracted(Some(Not(x)), yes, Bin(And, yes, Not(y)));
    assert ExtractEq(And, Some(Not(x)), Not(y), yes) == Extracted(Some(Not(x)), Not(y), yes);
    assert ExtractEq(And, Some(Not(x)), Not(y), Not(y)) == Extracted(Some(Bin(And, Not(x), Not(y))), yes, yes);
    var s2 := ExtractEq(And, Some(Not(x)), Not(y), Bin(And, yes, Not(y)));
    assert s2 == Extracted(Some(neither), yes, Bin(And, yes, yes));
    assert ExtractEq(And, None, neither, neither) == Extracted(Some(neither), Bin(And, yes, yes), Bin(And, yes, yes));
  }

  const P0 := Down(false, Here)
  const P1 := Down(true, Down(false, Here))
  const P2 := Down(true, Down(true, Here))

  /** The first pass rewrites nothing under these cursors. */
  predicate Silent(op: Op, root: Expr, p: Path, q: Path) {
    OnSpine(op, root, p) && OnSpine(op, root, q) && Dups1(op, root, p, q).count == 0
  }

  lemma PairSilent(op: Op, root: Expr, p: Path, q: Path)
    requires IsOperand(op, root, p) && IsOperand(op, root, q)
    requires p != q ==> Join(op, At(op, root, p), At(op, root, q)).None?
    requires At(op, root, p).Bin? ==> Silent(At(op, root, p).op, At(op, root, p), Here, Here)
    ensures Silent(op, root, p, q)
  {
    PutSame(op, root, p);
  }

  lemma SilentFirst(op: Op, root: Expr, p: Path, q: Path)
    requires OnSpine(op, root, p) && IsBin(At(op, root, p), op)
    requires Silent(op, root, Snoc(p, false), q) && Silent(op, root, Snoc(p, true), q)
    ensures Silent(op, root, p, q)
  {}

  lemma SilentSecond(op: Op, root: Expr, p: Path, q: Path)
    requires IsOperand(op, root, p) && OnSpine(op, root, q) && IsBin(At(op, root, q), op)
    requires Silent(op, root, p, Snoc(q, false)) && Silent(op, root, p, Snoc(q, true))
    ensures Silent(op, root, p, q)
  {}

  lemma FourPairs(op: Op, x: Expr, y: Expr)
    requires !x.Bin? && !y.Bin? && Join(op, x, y).None? && Join(op, y, x).None?
    ensures Silent(op, Bin(op, x, y), Here, Here)
  {
    var e, l, r := Bin(op, x, y), Down(false, Here), Down(true, Here);
    PairSilent(op, e, l, l);
    PairSilent(op, e, l, r);
    PairSilent(op, e, r, l);
    PairSilent(op, e, r, r);
    SilentSecond(op, e, l, Here);
    SilentSecond(op, e, r, Here);
    SilentFirst(op, e, Here, Here);
  }

  /** No two of the operands of x && (y && z) can be joined. */
  predicate NoneJoins(x: Expr, y: Expr, z: Expr) {
    && Join(And, x, y).None? && Join(And, x, z).None? && Join(And, y, x).None?
    && Join(And, y, z).None? && Join(And, z, x).None? && Join(And, z, y).None?
  }

  lemma RowSilent(x: Expr, y: Expr, z: Expr, p: Path)
    requires IsBin(x, Or) && Silent(Or, x, Here, Here) && !y.Bin? && !z.Bin? && NoneJoins(x, y, z)
    requires p == P0 || p == P1 || p == P2
    ensures Silent(And, Bin(And, x, Bin(And, y, z)), p, Here)
  {
    var e := Bin(And, x, Bin(And, y, z));
    assert At(And, e.right, Down(false, Here)) == y && At(And, e.right, Down(true, Here)) == z;
    PairSilent(And, e, p, P0);
    PairSilent(And, e, p, P1);
    PairSilent(And, e, p, P2);
    SilentSecond(And, e, p, Down(true, Here));
    SilentSecond(And, e, p, Here);
  }

  lemma NinePairs(x: Expr, y: Expr, z: Expr)
    requires IsBin(x, Or) && Silent(Or, x, Here, Here) && !y.Bin? && !z.Bin? && NoneJoins(x, y, z)
    ensures Silent(And, Bin(And, x, Bin(And, y, z)), Here, Here)
  {
    var e := Bin(And, x, Bin(And, y, z));
    RowSilent(x, y, z, P0);
    RowSilent(x, y, z, P1);
    RowSilent(x, y, z, P2);
    SilentFirst(And, e, Down(true, Here), Here);
    SilentFirst(And, e, Here, Here);
  }

  lemma TwoDiffer(x: Expr, y: Expr)
    requires Two(x, y)
    ensures Join(Or, x, y).None? && Join(Or, y, x).None? && NoneJoins(Either(x, y), Not(x), Not(y))
  {
    assert !ExprEq(x, y) && !ExprEq(y, x);
  }

  lemma FirstPassSilent(x: Expr, y: Expr)
    requires Two(x, y)
    ensures Dups1(And, Contradiction(x, y), Here, Here) == Pass(Contradiction(x, y), 0)
  {
    TwoDiffer(x, y);
    FourPairs(Or, x, y);
    NinePairs(Either(x, y), Not(x), Not(y));
  }

  lemma NotEitherIsNeither(x: Expr, y: Expr)
    requires Two(x, y)
    ensures Transform(Not(Either(x, y))) == Neither(x, y)
    ensures ExtractEqTop(And, Neither(x, y), Neither(x, y)).e1 == Sym(SYMBOL_YES)
  {
    TransformKeepsNormal(Neither(x, y));
    TransformKeepsNormal(Either(x, y));
    assert Transform(Not(Either(x, y))) == Transform(Neither(x, y));
    var yes := Sym(SYMBOL_YES);
    ExtractNeither(x, y);
    assert EliminateYn(Bin(And, yes, yes)) == yes;
  }

  /** If the rule does not fire the tree stays as it is; if it does, the absorbing value is there. */
  lemma PairStays(op: Op, root: Expr, p: Path, q: Path, a: Assignment)
    requires IsOperand(op, root, p) && IsOperand(op, root, q) && p != q
    requires At(op, root, p).Bin? && Consistent(At(op, root, p))
    ensures var e := Dups2(op, root, p, q).e; e == root || Eval(e, a) == SymTri(AbsorbSym(op), a)
  {
    var e1 := At(op, root, p);
    OperandSmaller(op, root, p);
    Dups2Silent(e1.op, e1, Here, Here);
    PutSame(op, root, p);
    var r := CancelOperand(op, root, p, q, Pass(e1, 0));
    if r.count == 1 {
      FiringKeepsUnlessMod(op, root, p, q, Pass(e1, 0), a);
    }
  }

  /** What the walk below the second cursor has made n or y, the pass leaves so. */
  lemma AfterBelow(op: Op, root: Expr, p: Path, q: Path, a: Assignment)
    requires IsOperand(op, root, p) && OnSpine(op, root, q) && IsBin(At(op, root, q), op)
    ensures OnlyModMayChange(Eval(Dups2Below(op, root, p, q).e, a), Eval(Dups2(op, root, p, q).e, a))
  {
    var below := Dups2Below(op, root, p, q);
    SameSpineAt(op, root, below.e, p);
    SameSpineAt(op, root, below.e, q);
    var e1 := At(op, below.e, p);
    if e1.Bin? {
      OperandSmaller(op, below.e, p);
      Dups2OnlyMod(e1.op, e1, Here, Here, a);
      CancelOperandOnlyMod(op, below.e, p, q, Dups2(e1.op, e1, Here, Here), a);
    }
  }

  /** x && (y && z) for a consistent disjunction x and operands y and z that are no chains. */
  ghost predicate OneAndTwo(root: Expr) {
    && IsBin(root, And) && IsBin(root.left, Or) && IsBin(root.right, And) && Consistent(root.left)
    && !root.right.left.Bin? && !root.right.right.Bin?
  }

  lemma OperandsOf(root: Expr)
    requires OneAndTwo(root)
    ensures IsOperand(And, root, P0) && At(And, root, P0) == root.left
    ensures IsOperand(And, root, P1) && IsOperand(And, root, P2)
    ensures OnSpine(And, root, Down(true, Here)) && At(And, root, Down(true, Here)) == root.right
  {
    assert At(And, root.right, Down(false, Here)) == root.right.left;
    assert At(And, root.right, Down(true, Here)) == root.right.right;
  }

  /** With the second cursor below y && z the rule fires or nothing happens. */
  lemma BelowRight(root: Expr, a: Assignment)
    requires OneAndTwo(root) && IsOperand(And, root, P0) && OnSpine(And, root, Down(true, Here))
    ensures var e := Dups2Below(And, root, P0, Down(true, Here)).e; e == root || Eval(e, a) == NO
  {
    OperandsOf(root);
    PairStays(And, root, P0, P1, a);
    var x := Dups2(And, root, P0, P1);
    SameSpineAt(And, root, x.e, P0);
    SameSpineAt(And, root, x.e, P2);
    Dups2OnlyMod(And, x.e, P0, P2, a);
    PairStays(And, root, P0, P2, a);
  }

  /** With the second cursor on y && z it fires, unless it has fired before. */
  lemma FiresOnRight(root: Expr, a: Assignment)
    requires OneAndTwo(root) && IsOperand(And, root, P0) && OnSpine(And, root, Down(true, Here))
    requires CancelOperand(And, root, P0, Down(true, Here), Pass(root.left, 0)).count == 1
    ensures Eval(Dups2(And, root, P0, Down(true, Here)).e, a) == NO
  {
    var q := Down(true, Here);
    OperandsOf(root);
    BelowRight(root, a);
    AfterBelow(And, root, P0, q, a);
    if Dups2Below(And, root, P0, q).e == root {
      Dups2Silent(Or, root.left, Here, Here);
      FiringKeepsUnlessMod(And, root, P0, q, Pass(root.left, 0), a);
    }
  }

  lemma RowFires(root: Expr, a: Assignment)
    requires OneAndTwo(root) && IsOperand(And, root, P0) && OnSpine(And, root, Down(true, Here))
    requires CancelOperand(And, root, P0, Down(true, Here), Pass(root.left, 0)).count == 1
    ensures Eval(Dups2(And, root, P0, Here).e, a) == NO
  {
    FiresOnRight(root, a);
    assert Dups2(And, root, P0, P0) == Pass(root, 0);
    assert Dups2Below(And, root, P0, Here).e == Dups2(And, root, P0, Down(true, Here)).e;
    AfterBelow(And, root, P0, Here, a);
  }

  lemma SecondPassFires(root: Expr, a: Assignment)
    requires OneAndTwo(root) && IsOperand(And, root, P0) && OnSpine(And, root, Down(true, Here))
    requires CancelOperand(And, root, P0, Down(true, Here), Pass(root.left, 0)).count == 1
    ensures Eval(Dups2(And, root, Here, Here).e, a) == NO
  {
    RowFires(root, a);
    RestOfPass(root, a);
  }

  lemma RestOfPass(root: Expr, a: Assignment)
    requires IsBin(root, And) && OnSpine(And, root, P0)
    ensures OnlyModMayChange(Eval(Dups2(And, root, P0, Here).e, a), Eval(Dups2(And, root, Here, Here).e, a))
  {
    var x := Dups2(And, root, P0, Here);
    SameSpineAt(And, root, x.e, Down(true, Here));
    Dups2OnlyMod(And, x.e, Down(true, Here), Here, a);
  }

  /** If nothing can be joined and the rule fires, the simplified form is n. */
  lemma EliminateDupsFires(root: Expr, a: Assignment)
    requires OneAndTwo(root) && IsOperand(And, root, P0) && OnSpine(And, root, Down(true, Here))
    requires Dups1(And, root, Here, Here) == Pass(root, 0)
    requires CancelOperand(And, root, P0, Down(true, Here), Pass(root.left, 0)).count == 1
    ensures Eval(EliminateDups(root), a) == NO
  {
    SecondPassFires(root, a);
    var r := Round(root);
    assert r.e == Dups2(And, root, Here, Here).e;
    EliminateYnExact(r.e, a);
    if r.count > 0 {
      EliminateYnRemovesAll(r.e);
      EliminateDupsOnlyMod(EliminateYn(r.e), a);
    }
  }

  lemma CancelFires(x: Expr, y: Expr)
    requires Two(x, y)
    ensures var e := Contradiction(x, y);
            && OneAndTwo(e) && IsOperand(And, e, P0) && OnSpine(And, e, Down(true, Here))
            && CancelOperand(And, e, P0, Down(true, Here), Pass(Either(x, y), 0)).count == 1
  {
    PlainConsistent(Either(x, y));
    NotEitherIsNeither(x, y);
    var e := Contradiction(x, y);
    OperandsOf(e);
    PutSame(And, e, P0);
  }

  /** The second pass is not exact: for any two tristates, (X || Y) && (!X && !Y) is m exactly where
      the larger one is m, and its simplified form is n everywhere. */
  lemma EliminateDupsLosesMod(x: Expr, y: Expr, a: Assignment)
    requires Two(x, y)
    ensures var e := Contradiction(x, y);
            && Eval(EliminateDups(e), a) == NO
            && Eval(e, a) == if TriOr(Eval(x, a), Eval(y, a)) == MOD then MOD else NO
  {
    FirstPassSilent(x, y);
    CancelFires(x, y);
    EliminateDupsFires(Contradiction(x, y), a);
    var v := Eval(Either(x, y), a);
    assert Eval(Neither(x, y), a) == TriNot(v);
  }
}
