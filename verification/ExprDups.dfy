/** expr_eliminate_dups: its two passes and the loop that repeats them. */
module ExprDups {
  import opened Tristate
  import opened Exprs
  import opened ExprEquality
  import opened ExprJoin
  import opened ExprSpine

  /** A rewritten tree and the number of rewrites (what the pass adds to trans_count). */
  datatype Pass = Pass(e: Expr, count: nat)

  // ---------------------------------------------------------------- expr_eliminate_dups1

  /** expr_eliminate_dups1 with cursors p and q on the op-spine of root. */
  function Dups1(op: Op, root: Expr, p: Path, q: Path): (r: Pass)
    requires OnSpine(op, root, p) && OnSpine(op, root, q)
    ensures SameSpine(op, root, r.e) && Size(r.e) <= Size(root)
    ensures r.count == 0 ==> r.e == root
    ensures r.count > 0 ==> HasYn(r.e)
    decreases Size(root), SpineNodes(op, At(op, root, p)), SpineNodes(op, At(op, root, q))
  {
    var e1, e2 := At(op, root, p), At(op, root, q);
    if IsBin(e1, op) then
      AtSnoc(op, root, p, false);
      AtSnoc(op, root, p, true);
      var x := Dups1(op, root, Snoc(p, false), q);
      SameSpineAt(op, root, x.e, Snoc(p, true));
      SameSpineAt(op, root, x.e, q);
      var y := Dups1(op, x.e, Snoc(p, true), q);
      SameSpineTrans(op, root, x.e, y.e);
      Pass(y.e, x.count + y.count)
    else if IsBin(e2, op) then
      AtSnoc(op, root, q, false);
      AtSnoc(op, root, q, true);
      var x := Dups1(op, root, p, Snoc(q, false));
      SameSpineAt(op, root, x.e, p);
      SameSpineAt(op, root, x.e, Snoc(q, true));
      var y := Dups1(op, x.e, p, Snoc(q, true));
      SameSpineTrans(op, root, x.e, y.e);
      Pass(y.e, x.count + y.count)
    else if p == q then
      SameSpineRefl(op, root);
      Pass(root, 0)
    else
      OperandSmaller(op, root, p);
      var inner := if e1.Bin? then Dups1(e1.op, e1, Here, Here) else Pass(e1, 0);
      Dups1Operands(op, root, p, q, inner);
      JoinOperands(op, root, p, q, inner)
  }

  /** The rewrite of two different operands, once the first one has been cleaned up itself. */
  function JoinOperands(op: Op, root: Expr, p: Path, q: Path, inner: Pass): Pass
    requires IsOperand(op, root, p) && IsOperand(op, root, q) && p != q
    requires !IsBin(inner.e, op)
  {
    PutElsewhere(op, root, p, q, inner.e);
    PutElsewhere(op, root, p, p, inner.e);
    var root1 := Put(op, root, p, inner.e);
    var joined := Join(op, inner.e, At(op, root1, q));
    if joined.None? then Pass(root1, inner.count)
    else
      PutElsewhere(op, root1, p, q, Sym(NeutralSym(op)));
      Pass(Put(op, Put(op, root1, p, Sym(NeutralSym(op))), q, joined.e), inner.count + 1)
  }

  /** The joined operand takes the place of the second one, the neutral constant that of the first one; the
      others stay as they are. */
  lemma JoinedInSecond(op: Op, root: Expr, p: Path, q: Path, s: Path)
    requires IsOperand(op, root, p) && IsOperand(op, root, q) && p != q && IsOperand(op, root, s)
    requires Join(op, At(op, root, p), At(op, root, q)).Some?
    ensures var r := JoinOperands(op, root, p, q, Pass(At(op, root, p), 0));
            && r.count == 1 && IsOperand(op, r.e, s)
            && At(op, r.e, s) == if s == q then Join(op, At(op, root, p), At(op, root, q)).e
                                 else if s == p then Sym(NeutralSym(op)) else At(op, root, s)
  {
    PutSame(op, root, p);
    var neutral := Sym(NeutralSym(op));
    PutElsewhere(op, root, p, q, neutral);
    PutElsewhere(op, root, p, p, neutral);
    PutElsewhere(op, root, p, s, neutral);
    PutElsewhere(op, Put(op, root, p, neutral), q, s, Join(op, At(op, root, p), At(op, root, q)).e);
  }

  lemma {:induction false} OperandSmaller(op: Op, e: Expr, p: Path)
    requires OnSpine(op, e, p) && p.Down?
    ensures Size(At(op, e, p)) < Size(e)
  {
    if p.rest.Down? {
      OperandSmaller(op, Child(e, p.right), p.rest);
    }
  }

  lemma {:induction false} PutSame(op: Op, e: Expr, p: Path)
    requires OnSpine(op, e, p)
    ensures Put(op, e, p, At(op, e, p)) == e
  {
    if p.Down? {
      PutSame(op, Child(e, p.right), p.rest);
    }
  }

  /** JoinOperands meets the contract of the pass. */
  lemma Dups1Operands(op: Op, root: Expr, p: Path, q: Path, inner: Pass)
    requires IsOperand(op, root, p) && IsOperand(op, root, q) && p != q
    requires !IsBin(inner.e, op) && Size(inner.e) <= Size(At(op, root, p))
    requires inner.count == 0 ==> inner.e == At(op, root, p)
    requires inner.count > 0 ==> HasYn(inner.e)
    ensures var r := JoinOperands(op, root, p, q, inner);
            && SameSpine(op, root, r.e) && Size(r.e) <= Size(root)
            && (r.count == 0 ==> r.e == root)
            && (r.count > 0 ==> HasYn(r.e))
  {
    PutElsewhere(op, root, p, q, inner.e);
    PutElsewhere(op, root, p, p, inner.e);
    PutOperand(op, root, p, inner.e);
    var root1 := Put(op, root, p, inner.e);
    var joined := Join(op, inner.e, At(op, root1, q));
    if joined.None? {
      PutSame(op, root, p);
      if inner.count > 0 {
        PutHasYn(op, root, p, inner.e);
      }
    } else {
      var neutral := Sym(NeutralSym(op));
      PutElsewhere(op, root1, p, q, neutral);
      PutElsewhere(op, root1, p, p, neutral);
      PutOperand(op, root1, p, neutral);
      var root2 := Put(op, root1, p, neutral);
      PutOperand(op, root2, q, joined.e);
      PutKeepsYn(op, root2, q, p, joined.e);
      var root3 := Put(op, root2, q, joined.e);
      SameSpineTrans(op, root, root1, root2);
      SameSpineTrans(op, root, root2, root3);
    }
  }

  /** The first pass never changes the value, not even an m. */
  lemma {:induction false} Dups1Exact(op: Op, root: Expr, p: Path, q: Path, a: Assignment)
    requires OnSpine(op, root, p) && OnSpine(op, root, q)
    ensures Eval(Dups1(op, root, p, q).e, a) == Eval(root, a)
    decreases Size(root), SpineNodes(op, At(op, root, p)), SpineNodes(op, At(op, root, q))
  {
    var e1, e2 := At(op, root, p), At(op, root, q);
    if IsBin(e1, op) {
      AtSnoc(op, root, p, false);
      AtSnoc(op, root, p, true);
      var x := Dups1(op, root, Snoc(p, false), q);
      SameSpineAt(op, root, x.e, Snoc(p, true));
      SameSpineAt(op, root, x.e, q);
      Dups1Exact(op, root, Snoc(p, false), q, a);
      Dups1Exact(op, x.e, Snoc(p, true), q, a);
    } else if IsBin(e2, op) {
      AtSnoc(op, root, q, false);
      AtSnoc(op, root, q, true);
      var x := Dups1(op, root, p, Snoc(q, false));
      SameSpineAt(op, root, x.e, p);
      SameSpineAt(op, root, x.e, Snoc(q, true));
      Dups1Exact(op, root, p, Snoc(q, false), a);
      Dups1Exact(op, x.e, p, Snoc(q, true), a);
    } else if p != q {
      OperandSmaller(op, root, p);
      var inner := if e1.Bin? then Dups1(e1.op, e1, Here, Here) else Pass(e1, 0);
      if e1.Bin? {
        Dups1Exact(e1.op, e1, Here, Here, a);
      }
      JoinOperandsExact(op, root, p, q, inner, a);
    }
  }

  lemma JoinOperandsExact(op: Op, root: Expr, p: Path, q: Path, inner: Pass, a: Assignment)
    requires IsOperand(op, root, p) && IsOperand(op, root, q) && p != q
    requires !IsBin(inner.e, op) && Eval(inner.e, a) == Eval(At(op, root, p), a)
    ensures Eval(JoinOperands(op, root, p, q, inner).e, a) == Eval(root, a)
  {
    PutEval(op, root, p, inner.e, a);
    PutElsewhere(op, root, p, q, inner.e);
    PutElsewhere(op, root, p, p, inner.e);
    var root1 := Put(op, root, p, inner.e);
    var joined := Join(op, inner.e, At(op, root1, q));
    if joined.Some? {
      JoinExact(op, inner.e, At(op, root1, q), a);
      PutPairEval(op, root1, p, q, Sym(NeutralSym(op)), joined.e, a);
    }
  }

  // ---------------------------------------------------------------- expr_eliminate_dups2

  /** expr_eliminate_dups2. Unlike the first pass it goes on after walking below the second
      cursor, which may then point at an ancestor of the first one. */
  function Dups2(op: Op, root: Expr, p: Path, q: Path): (r: Pass)
    requires OnSpine(op, root, p) && OnSpine(op, root, q)
    ensures SameSpine(op, root, r.e) && Size(r.e) <= Size(root)
    ensures r.count == 0 ==> r.e == root
    ensures r.count > 0 ==> HasYn(r.e)
    decreases Size(root), SpineNodes(op, At(op, root, p)), SpineNodes(op, At(op, root, q))
  {
    if IsBin(At(op, root, p), op) then
      AtSnoc(op, root, p, false);
      AtSnoc(op, root, p, true);
      var x := Dups2(op, root, Snoc(p, false), q);
      SameSpineAt(op, root, x.e, Snoc(p, true));
      SameSpineAt(op, root, x.e, q);
      var y := Dups2(op, x.e, Snoc(p, true), q);
      SameSpineTrans(op, root, x.e, y.e);
      Pass(y.e, x.count + y.count)
    else
      var below := if IsBin(At(op, root, q), op) then Dups2Below(op, root, p, q) else Pass(root, 0);
      SameSpineRefl(op, root);
      SameSpineAt(op, root, below.e, p);
      SameSpineAt(op, root, below.e, q);
      var e1 := At(op, below.e, p);
      if p == q || !e1.Bin? then below
      else
        OperandSmaller(op, below.e, p);
        var inner := Dups2(e1.op, e1, Here, Here);
        var r := CancelOperand(op, below.e, p, q, inner);
        CancelOperandShrinks(op, below.e, p, q, inner);
        SameSpineTrans(op, root, below.e, r.e);
        Pass(r.e, below.count + r.count)
  }

  /** Both operands of the node under the second cursor. */
  function Dups2Below(op: Op, root: Expr, p: Path, q: Path): (r: Pass)
    requires IsOperand(op, root, p) && OnSpine(op, root, q) && IsBin(At(op, root, q), op)
    ensures SameSpine(op, root, r.e) && Size(r.e) <= Size(root)
    ensures r.count == 0 ==> r.e == root
    ensures r.count > 0 ==> HasYn(r.e)
    decreases Size(root), SpineNodes(op, At(op, root, p)), SpineNodes(op, At(op, root, q)), 0
  {
    AtSnoc(op, root, q, false);
    AtSnoc(op, root, q, true);
    var x := Dups2(op, root, p, Snoc(q, false));
    SameSpineAt(op, root, x.e, p);
    SameSpineAt(op, root, x.e, Snoc(q, true));
    var y := Dups2(op, x.e, p, Snoc(q, true));
    SameSpineTrans(op, root, x.e, y.e);
    Pass(y.e, x.count + y.count)
  }

  /** (FOO || BAR) && (!FOO && !BAR) -> n, and the dual: the operand under p, already cleaned up,
      is replaced when its negation is contained in what the second cursor points at. */
  function CancelOperand(op: Op, root: Expr, p: Path, q: Path, inner: Pass): Pass
    requires IsOperand(op, root, p) && OnSpine(op, root, q)
    requires IsBin(inner.e, Dual(op))
  {
    PutOperand(op, root, p, inner.e);
    PutElsewhere(op, root, p, p, inner.e);
    var root1 := Put(op, root, p, inner.e);
    SameSpineAt(op, root, root1, q);
    var rest := ExtractEqTop(op, Transform(Not(inner.e)), At(op, root1, q)).e1;
    if rest == Sym(NeutralSym(op)) then
      Pass(Put(op, root1, p, Sym(AbsorbSym(op))), inner.count + 1)
    else
      Pass(root1, inner.count)
  }

  lemma CancelOperandShrinks(op: Op, root: Expr, p: Path, q: Path, inner: Pass)
    requires IsOperand(op, root, p) && OnSpine(op, root, q) && p.Down?
    requires IsBin(inner.e, Dual(op)) && Size(inner.e) <= Size(At(op, root, p))
    requires inner.count == 0 ==> inner.e == At(op, root, p)
    requires inner.count > 0 ==> HasYn(inner.e)
    ensures var r := CancelOperand(op, root, p, q, inner);
            && SameSpine(op, root, r.e) && Size(r.e) <= Size(root)
            && (r.count == 0 ==> r.e == root)
            && (r.count > 0 ==> HasYn(r.e))
  {
    PutOperand(op, root, p, inner.e);
    PutElsewhere(op, root, p, p, inner.e);
    PutSame(op, root, p);
    var root1 := Put(op, root, p, inner.e);
    SameSpineAt(op, root, root1, q);
    if inner.count > 0 {
      PutHasYn(op, root, p, inner.e);
    }
    var absorb := Sym(AbsorbSym(op));
    PutOperand(op, root1, p, absorb);
    PutHasYn(op, root1, p, absorb);
    SameSpineTrans(op, root, root1, Put(op, root1, p, absorb));
  }

  /** The second pass can only turn an m into something else. */
  lemma {:induction false} Dups2OnlyMod(op: Op, root: Expr, p: Path, q: Path, a: Assignment)
    requires OnSpine(op, root, p) && OnSpine(op, root, q)
    ensures OnlyModMayChange(Eval(root, a), Eval(Dups2(op, root, p, q).e, a))
    decreases Size(root), SpineNodes(op, At(op, root, p)), SpineNodes(op, At(op, root, q))
  {
    if IsBin(At(op, root, p), op) {
      AtSnoc(op, root, p, false);
      AtSnoc(op, root, p, true);
      var x := Dups2(op, root, Snoc(p, false), q);
      SameSpineAt(op, root, x.e, Snoc(p, true));
      SameSpineAt(op, root, x.e, q);
      Dups2OnlyMod(op, root, Snoc(p, false), q, a);
      Dups2OnlyMod(op, x.e, Snoc(p, true), q, a);
    } else {
      var below := if IsBin(At(op, root, q), op) then Dups2Below(op, root, p, q) else Pass(root, 0);
      if IsBin(At(op, root, q), op) {
        Dups2BelowOnlyMod(op, root, p, q, a);
      }
      SameSpineRefl(op, root);
      SameSpineAt(op, root, below.e, p);
      SameSpineAt(op, root, below.e, q);
      var e1 := At(op, below.e, p);
      if p != q && e1.Bin? {
        OperandSmaller(op, below.e, p);
        Dups2OnlyMod(e1.op, e1, Here, Here, a);
        CancelOperandOnlyMod(op, below.e, p, q, Dups2(e1.op, e1, Here, Here), a);
      }
    }
  }

  lemma {:induction false} Dups2BelowOnlyMod(op: Op, root: Expr, p: Path, q: Path, a: Assignment)
    requires IsOperand(op, root, p) && OnSpine(op, root, q) && IsBin(At(op, root, q), op)
    ensures OnlyModMayChange(Eval(root, a), Eval(Dups2Below(op, root, p, q).e, a))
    decreases Size(root), SpineNodes(op, At(op, root, p)), SpineNodes(op, At(op, root, q)), 0
  {
    AtSnoc(op, root, q, false);
    AtSnoc(op, root, q, true);
    var x := Dups2(op, root, p, Snoc(q, false));
    SameSpineAt(op, root, x.e, p);
    SameSpineAt(op, root, x.e, Snoc(q, true));
    Dups2OnlyMod(op, root, p, Snoc(q, false), a);
    Dups2OnlyMod(op, x.e, p, Snoc(q, true), a);
  }

  lemma CancelOperandOnlyMod(op: Op, root: Expr, p: Path, q: Path, inner: Pass, a: Assignment)
    requires IsOperand(op, root, p) && OnSpine(op, root, q)
    requires IsBin(inner.e, Dual(op))
    requires OnlyModMayChange(Eval(At(op, root, p), a), Eval(inner.e, a))
    ensures OnlyModMayChange(Eval(root, a), Eval(CancelOperand(op, root, p, q, inner).e, a))
  {
    PutEval(op, root, p, inner.e, a);
    PutOperand(op, root, p, inner.e);
    PutElsewhere(op, root, p, p, inner.e);
    var root1 := Put(op, root, p, inner.e);
    SameSpineAt(op, root, root1, q);
    assert OnlyModMayChange(Eval(root, a), Eval(root1, a));
    var negated := Transform(Not(inner.e));
    var rest := ExtractEqTop(op, negated, At(op, root1, q));
    if rest.e1 == Sym(NeutralSym(op)) {
      TransformExact(Not(inner.e), a);
      ExtractEqTopSplits(op, negated, At(op, root1, q), a);
      PutEval(op, root1, p, Sym(AbsorbSym(op)), a);
      PutEval(op, root1, q, At(op, root1, q), a);
      Contradictory(op, Eval(inner.e, a), Rest(op, root1, p, a), OptEval(op, rest.common, a),
                    Eval(rest.e2, a), Rest(op, root1, q, a));
    }
  }

  /** A conjunction of x with something below !x is n or m, whatever else it contains. */
  lemma Contradictory(op: Op, x: Tri, r: Tri, common: Tri, z: Tri, s: Tri)
    requires TriNot(x) == Apply(op, common, Neutral(op))
    requires Apply(op, x, r) == Apply(op, Apply(op, common, z), s)
    ensures Apply(op, x, r) == MOD || Apply(op, x, r) == if op == And then NO else YES
  {}

  // ---------------------------------------------------------------- expr_eliminate_dups

  /** One round of both passes. */
  function Round(e: Expr): (r: Pass)
    requires e.Bin?
    ensures Size(r.e) <= Size(e)
    ensures r.count == 0 ==> r.e == e
    ensures r.count > 0 ==> HasYn(r.e)
  {
    var x := Dups1(e.op, e, Here, Here);
    var y := Dups2(e.op, x.e, Here, Here);
    Pass(y.e, x.count + y.count)
  }

  /** Rounds are repeated until one changes nothing. Every other round ends with removing at least
      one constant, so the expression gets smaller. */
  function EliminateDups(e: Expr): (r: Expr)
    ensures Size(r) <= Size(e)
    decreases Size(e)
  {
    if !e.Bin? || Round(e).count == 0 then e
    else
      EliminateYnRemovesAll(Round(e).e);
      EliminateDups(EliminateYn(Round(e).e))
  }

  /** expr_eliminate_dups as written: a loop over the expression and the rewrite counter. */
  method ExprEliminateDups(expr: Expr) returns (e: Expr)
    ensures e == EliminateDups(expr)
  {
    e := expr;
    while true
      invariant EliminateDups(e) == EliminateDups(expr)
      decreases Size(e)
    {
      var transCount := 0;
      if e.Bin? {
        var x := Dups1(e.op, e, Here, Here);
        var y := Dups2(e.op, x.e, Here, Here);
        e, transCount := y.e, x.count + y.count;
      }
      if transCount == 0 {
        return;
      }
      EliminateYnRemovesAll(e);
      e := EliminateYn(e);
    }
  }

  lemma RoundOnlyMod(e: Expr, a: Assignment)
    requires e.Bin?
    ensures OnlyModMayChange(Eval(e, a), Eval(Round(e).e, a))
    ensures Dups2(e.op, Dups1(e.op, e, Here, Here).e, Here, Here).count == 0
            ==> Eval(Round(e).e, a) == Eval(e, a)
  {
    Dups1Exact(e.op, e, Here, Here, a);
    Dups2OnlyMod(e.op, Dups1(e.op, e, Here, Here).e, Here, Here, a);
  }

  /** Main result: where the expression is n or y its simplified form has the same value. */
  lemma {:induction false} EliminateDupsOnlyMod(e: Expr, a: Assignment)
    ensures OnlyModMayChange(Eval(e, a), Eval(EliminateDups(e), a))
    decreases Size(e)
  {
    if e.Bin? && Round(e).count > 0 {
      RoundOnlyMod(e, a);
      EliminateYnRemovesAll(Round(e).e);
      EliminateYnExact(Round(e).e, a);
      EliminateDupsOnlyMod(EliminateYn(Round(e).e), a);
    }
  }

  /** The second pass rewrites nothing in any round. */
  predicate OnlyFirstPass(e: Expr)
    decreases Size(e)
  {
    if !e.Bin? || Round(e).count == 0 then true
    else
      EliminateYnRemovesAll(Round(e).e);
      Dups2(e.op, Dups1(e.op, e, Here, Here).e, Here, Here).count == 0
      && OnlyFirstPass(EliminateYn(Round(e).e))
  }

  /** Without rewrites by the second pass the value is kept exactly, m included. */
  lemma {:induction false} FirstPassExact(e: Expr, a: Assignment)
    requires OnlyFirstPass(e)
    ensures Eval(EliminateDups(e), a) == Eval(e, a)
    decreases Size(e)
  {
    if e.Bin? && Round(e).count > 0 {
      RoundOnlyMod(e, a);
      EliminateYnRemovesAll(Round(e).e);
      EliminateYnExact(Round(e).e, a);
      FirstPassExact(EliminateYn(Round(e).e), a);
    }
  }

  /** The result is a fixed point: no rule of either pass applies to it any more. */
  lemma {:induction false} EliminateDupsFixpoint(e: Expr)
    ensures var r := EliminateDups(e);
            && (r.Bin? ==> Round(r).count == 0)
            && EliminateDups(r) == r
    decreases Size(e)
  {
    if e.Bin? && Round(e).count > 0 {
      EliminateYnRemovesAll(Round(e).e);
      EliminateDupsFixpoint(EliminateYn(Round(e).e));
    }
  }
}
