/** Which entries menu_finalize moves below a symbol. */
module ExprAbsorption {
  import opened Exprs
  import opened ExprEquality
  import opened ExprEqShapes
  import opened ExprCompare

  lemma NothingLeft<T>(x: multiset<T>, y: multiset<T>)
    ensures x - y == multiset{} <==> x <= y
  {
    if x - y == multiset{} {
      forall t
        ensures x[t] <= y[t]
      {
        assert (x - y)[t] == 0;
      }
    }
  }

  lemma OneOf<T>(x: T, y: multiset<T>)
    ensures multiset{x} <= y <==> x in y
  {}

  lemma TwoLeaveOne<T>(x: multiset<T>, y: multiset<T>, t: T)
    requires x != multiset{} && y != multiset{}
    ensures x + y - multiset{t} != multiset{}
  {
    var a, b :| a in x && b in y;
    assert a != t ==> a in x + y - multiset{t};
    assert b != t ==> b in x + y - multiset{t};
    assert a == b == t ==> t in x + y - multiset{t};
  }

  /** A chain is more than one of its operands. */
  lemma MoreThanOne(op: Op, e: Expr, t: Shape)
    requires IsBin(e, op)
    ensures Parts(op, e) - multiset{t} != multiset{}
  {
    PartsNotEmpty(op, e.left);
    PartsNotEmpty(op, e.right);
    TwoLeaveOne(Parts(op, e.left), Parts(op, e.right), t);
  }

  /** Cancelling leaves y of the second expression exactly if the first one is a conjunction that has all its
      operands. Two equal expressions that are no conjunctions are left as they are. */
  lemma CancelsToYesExactly(e1: Expr, e2: Expr)
    requires InPlay(e1) && InPlay(e2)
    ensures EliminateEq(e1, e2).1 == Sym(SYMBOL_YES) <==> IsBin(e1, And) && Parts(And, e2) <= Parts(And, e1)
  {
    if e1.Bin? && IsBin(e2, e1.op) {
      SameOperator(e1.op, e1, e2);
    } else if IsBin(e1, And) {
      FromConjunction(e1, e2);
    } else {
      FromOther(e1, e2);
    }
  }

  lemma SameOperator(op: Op, e1: Expr, e2: Expr)
    requires InPlay(e1) && InPlay(e2) && IsBin(e1, op) && IsBin(e2, op)
    ensures EliminateEq(e1, e2).1 == Sym(SYMBOL_YES) <==> op == And && Parts(op, e2) <= Parts(op, e1)
  {
    EliminateEqExact(e1, e2);
    NothingLeft(Parts(op, e2), Parts(op, e1));
  }

  lemma FromConjunction(e1: Expr, e2: Expr)
    requires InPlay(e1) && InPlay(e2) && IsBin(e1, And) && !IsBin(e2, And)
    ensures EliminateEq(e1, e2).1 == Sym(SYMBOL_YES) <==> Parts(And, e2) <= Parts(And, e1)
  {
    EliminateEqExact(e1, e2);
    OneOf(ShapeOf(e2), Parts(And, e1));
  }

  lemma FromOther(e1: Expr, e2: Expr)
    requires InPlay(e1) && InPlay(e2) && !IsBin(e1, And) && !(e1.Bin? && IsBin(e2, e1.op))
    ensures EliminateEq(e1, e2).1 != Sym(SYMBOL_YES)
  {
    EliminateEqExact(e1, e2);
    if e2.Bin? {
      MoreThanOne(e2.op, e2, ShapeOf(e1));
    }
  }

  /** Main result: an entry moves below a symbol exactly if its dependency mentions the symbol and either demands
      it or, read as a condition, has all the operands of the symbol's own visibility and more. The two
      conditions must have no constant operands. */
  lemma AbsorbsExactly(base: OptExpr, s: Symbol, dep: OptExpr)
    requires dep.Some? && InPlay(NonNo(dep)) && InPlay(NonNo(base))
    ensures Absorbs(base, s, dep)
            <==> && s in Symbols(dep.e)
                 && (|| Operands(And, dep.e) * Demands(s) != {}
                     || (IsBin(NonNo(dep), And) && Parts(And, NonNo(base)) <= Parts(And, NonNo(dep))))
  {
    ContainsSymbolExactly(dep.e, s);
    DependsSymbolExactly(dep.e, s);
    CancelsToYesExactly(NonNo(dep), NonNo(base));
  }
}
