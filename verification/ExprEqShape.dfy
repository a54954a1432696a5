/** What expr_eq decides: equality up to the order and the grouping of the operands of and and or. */
module ExprEqShapes {
  import opened Tristate
  import opened Exprs
  import opened ExprEquality
  import opened ExprSpine

  // ---------------------------------------------------------------- shapes

  /** An expression whose chains of equal operators are multisets of operands. */
  datatype Shape = Leaf(e: Expr) | Negated(x: Shape) | Chain(op: Op, parts: multiset<Shape>)

  function ShapeOf(e: Expr): Shape
    decreases e, 1
  {
    match e
    case Not(x) => Negated(ShapeOf(x))
    case Bin(op, _, _) => Chain(op, Parts(op, e))
    case _ => Leaf(e)
  }

  /** The operands of a chain of op nodes. */
  function Parts(op: Op, e: Expr): multiset<Shape>
    decreases e, if IsBin(e, op) then 0 else 2
  {
    if IsBin(e, op) then Parts(op, e.left) + Parts(op, e.right) else multiset{ShapeOf(e)}
  }

  /** No and, and no or, has a constant operand y or n, also below negations. */
  predicate NoYn(e: Expr) {
    match e
    case Not(x) => NoYn(x)
    case Bin(_, l, r) => !IsYn(l) && !IsYn(r) && NoYn(l) && NoYn(r)
    case _ => true
  }

  // ---------------------------------------------------------------- cancelling chains

  /** An operand that is in play; the others have been replaced by the neutral constant. */
  predicate InPlay(e: Expr) {
    NoYn(e) && !IsYn(e)
  }

  predicate ChainOk(op: Op, e: Expr) {
    if IsBin(e, op) then ChainOk(op, e.left) && ChainOk(op, e.right)
    else e == Sym(NeutralSym(op)) || InPlay(e)
  }

  /** The operands that are still in play. */
  function Live(op: Op, e: Expr): multiset<Shape> {
    if IsBin(e, op) then Live(op, e.left) + Live(op, e.right)
    else if e == Sym(NeutralSym(op)) then multiset{} else multiset{ShapeOf(e)}
  }

  lemma {:induction false} AllInPlay(op: Op, e: Expr)
    requires InPlay(e)
    ensures ChainOk(op, e) && Live(op, e) == Parts(op, e)
  {
    if IsBin(e, op) {
      AllInPlay(op, e.left);
      AllInPlay(op, e.right);
    }
  }

  /** Two parts x and y lose to z one after the other. */
  lemma TakeTwice<T>(x: multiset<T>, y: multiset<T>, z: multiset<T>, x': multiset<T>, m: multiset<T>,
                     y': multiset<T>, n: multiset<T>)
    requires x' == x - z && m == z - x && y' == y - m && n == m - y
    ensures x' + y' == (x + y) - z && n == z - (x + y)
  {}

  lemma TakeOne<T>(x: T, y: T)
    ensures multiset{x} - multiset{y} == if x == y then multiset{} else multiset{x}
    ensures multiset{x} - multiset{} == multiset{x} && multiset{} - multiset{x} == multiset{}
  {}

  lemma LiveBin(op: Op, l: Expr, r: Expr)
    ensures Live(op, Bin(op, l, r)) == Live(op, l) + Live(op, r)
    ensures ChainOk(op, Bin(op, l, r)) <==> ChainOk(op, l) && ChainOk(op, r)
  {}

  /** r1 and r2 are what is left of e1 and e2 without what they have in common. */
  ghost predicate Parted(op: Op, e1: Expr, e2: Expr, r1: Expr, r2: Expr) {
    && ChainOk(op, r1) && Live(op, r1) == Live(op, e1) - Live(op, e2) && IsBin(r1, op) == IsBin(e1, op)
    && ChainOk(op, r2) && Live(op, r2) == Live(op, e2) - Live(op, e1) && IsBin(r2, op) == IsBin(e2, op)
  }

  lemma PartedLeft(op: Op, e1: Expr, e2: Expr, l: Expr, m: Expr, r: Expr, n: Expr)
    requires IsBin(e1, op) && Parted(op, e1.left, e2, l, m) && Parted(op, e1.right, m, r, n)
    ensures Parted(op, e1, e2, Bin(op, l, r), n)
  {
    LiveBin(op, l, r);
    LiveBin(op, e1.left, e1.right);
    TakeTwice(Live(op, e1.left), Live(op, e1.right), Live(op, e2), Live(op, l), Live(op, m), Live(op, r), Live(op, n));
  }

  lemma PartedSwapped(op: Op, e1: Expr, e2: Expr, r1: Expr, r2: Expr)
    ensures Parted(op, e1, e2, r1, r2) <==> Parted(op, e2, e1, r2, r1)
  {}

  lemma PartedRight(op: Op, e1: Expr, e2: Expr, m: Expr, l: Expr, n: Expr, r: Expr)
    requires IsBin(e2, op) && Parted(op, e1, e2.left, m, l) && Parted(op, m, e2.right, n, r)
    ensures Parted(op, e1, e2, n, Bin(op, l, r))
  {
    PartedSwapped(op, e1, e2.left, m, l);
    PartedSwapped(op, m, e2.right, n, r);
    PartedLeft(op, e2, e1, l, m, r, n);
    PartedSwapped(op, e1, e2, n, Bin(op, l, r));
  }

  lemma LeftParted(op: Op, e1: Expr, e2: Expr, l: Expr, m: Expr, r: Expr, n: Expr)
    requires IsBin(e1, op)
    ensures Parted(op, e1.left, e2, l, m) && Parted(op, e1.right, m, r, n) ==> Parted(op, e1, e2, Bin(op, l, r), n)
  {
    if Parted(op, e1.left, e2, l, m) && Parted(op, e1.right, m, r, n) {
      PartedLeft(op, e1, e2, l, m, r, n);
    }
  }

  lemma RightParted(op: Op, e1: Expr, e2: Expr, m: Expr, l: Expr, n: Expr, r: Expr)
    requires IsBin(e2, op)
    ensures Parted(op, e1, e2.left, m, l) && Parted(op, m, e2.right, n, r) ==> Parted(op, e1, e2, n, Bin(op, l, r))
  {
    if Parted(op, e1, e2.left, m, l) && Parted(op, m, e2.right, n, r) {
      PartedRight(op, e1, e2, m, l, n, r);
    }
  }

  lemma LiveOperand(op: Op, e: Expr)
    requires !IsBin(e, op) && ChainOk(op, e)
    ensures Live(op, e) == if InPlay(e) then multiset{ShapeOf(e)} else multiset{}
    ensures InPlay(e) <==> e != Sym(NeutralSym(op))
  {}

  lemma PartedOperands(op: Op, e1: Expr, e2: Expr, same: bool)
    requires !IsBin(e1, op) && !IsBin(e2, op) && ChainOk(op, e1) && ChainOk(op, e2)
    requires same <==> InPlay(e1) && InPlay(e2) && ShapeOf(e1) == ShapeOf(e2)
    ensures if same then Parted(op, e1, e2, Sym(NeutralSym(op)), Sym(NeutralSym(op))) else Parted(op, e1, e2, e1, e2)
  {
    LiveOperand(op, e1);
    LiveOperand(op, e2);
    LiveOperand(op, Sym(NeutralSym(op)));
    TakeOne(ShapeOf(e1), ShapeOf(e2));
    TakeOne(ShapeOf(e2), ShapeOf(e1));
  }

  lemma OperandsCancelled(op: Op, e1: Expr, e2: Expr)
    requires !IsBin(e1, op) && !IsBin(e2, op)
    ensures CancelEq(op, e1, e2)
            == if ExprEq(e1, e2) && !(e1 == e2 && IsYn(e1)) then (Sym(NeutralSym(op)), Sym(NeutralSym(op)))
               else (e1, e2)
  {}

  /** A constant is equal to itself only. */
  lemma YnEqual(c: Expr, e: Expr)
    requires IsYn(c)
    ensures (ExprEq(c, e) <==> c == e) && (ExprEq(e, c) <==> c == e)
  {}

  /** What is left of e1 and e2 is parted so. */
  ghost predicate CancelOk(op: Op, e1: Expr, e2: Expr) {
    var r := CancelEq(op, e1, e2); Parted(op, e1, e2, r.0, r.1)
  }

  lemma CancelOkKeeps(op: Op, e1: Expr, e2: Expr)
    ensures var r := CancelEq(op, e1, e2);
            && Size(r.0) <= Size(e1) && Size(r.1) <= Size(e2)
            && (CancelOk(op, e1, e2) ==> ChainOk(op, r.0) && ChainOk(op, r.1))
  {}

  lemma CancelOkLeft(op: Op, e1: Expr, e2: Expr)
    requires IsBin(e1, op)
    ensures CancelOk(op, e1.left, e2) && CancelOk(op, e1.right, CancelEq(op, e1.left, e2).1) ==> CancelOk(op, e1, e2)
  {
    var (l, m) := CancelEq(op, e1.left, e2);
    var (r, n) := CancelEq(op, e1.right, m);
    LeftParted(op, e1, e2, l, m, r, n);
  }

  lemma CancelOkRight(op: Op, e1: Expr, e2: Expr)
    requires !IsBin(e1, op) && IsBin(e2, op)
    ensures CancelOk(op, e1, e2.left) && CancelOk(op, CancelEq(op, e1, e2.left).0, e2.right) ==> CancelOk(op, e1, e2)
  {
    var (m, l) := CancelEq(op, e1, e2.left);
    var (n, r) := CancelEq(op, m, e2.right);
    RightParted(op, e1, e2, m, l, n, r);
  }

  /** Main result: of two chains of one operator exactly what they have in common is cancelled. */
  lemma {:induction false} CancelLive(op: Op, e1: Expr, e2: Expr)
    requires ChainOk(op, e1) && ChainOk(op, e2)
    ensures CancelOk(op, e1, e2) == true
    decreases Size(e1) + Size(e2), if IsBin(e1, op) || IsBin(e2, op) then 0 else 4
  {
    if IsBin(e1, op) {
      CancelLive(op, e1.left, e2);
      CancelOkKeeps(op, e1.left, e2);
      CancelLive(op, e1.right, CancelEq(op, e1.left, e2).1);
      CancelOkLeft(op, e1, e2);
    } else if IsBin(e2, op) {
      CancelLive(op, e1, e2.left);
      CancelOkKeeps(op, e1, e2.left);
      CancelLive(op, CancelEq(op, e1, e2.left).0, e2.right);
      CancelOkRight(op, e1, e2);
    } else {
      OperandsLive(op, e1, e2);
    }
  }

  lemma {:induction false} OperandsLive(op: Op, e1: Expr, e2: Expr)
    requires ChainOk(op, e1) && ChainOk(op, e2) && !IsBin(e1, op) && !IsBin(e2, op)
    ensures CancelOk(op, e1, e2)
    decreases Size(e1) + Size(e2), 3, 0
  {
    OperandsCancelled(op, e1, e2);
    if InPlay(e1) && InPlay(e2) {
      ExprEqExact(e1, e2);
    } else {
      YnEqual(Sym(NeutralSym(op)), if InPlay(e1) then e1 else e2);
    }
    PartedOperands(op, e1, e2, ExprEq(e1, e2) && !(e1 == e2 && IsYn(e1)));
  }

  /** Without operands in play a chain of them and neutral constants is simplified to the constant. */
  lemma {:induction false} EliminateLive(op: Op, e: Expr)
    requires ChainOk(op, e)
    ensures var r := EliminateYn(e);
            && ChainOk(op, r) && Live(op, r) == Live(op, e)
            && (r == Sym(NeutralSym(op)) <==> Live(op, e) == multiset{})
            && r != Sym(AbsorbSym(op))
  {
    if IsBin(e, op) {
      EliminateLive(op, e.left);
      EliminateLive(op, e.right);
    } else if InPlay(e) {
      InPlayStays(e);
    }
  }

  lemma {:induction false} NoYnHere(e: Expr)
    requires NoYn(e)
    ensures !HasYn(e)
  {
    if e.Bin? {
      NoYnHere(e.left);
      NoYnHere(e.right);
    }
  }

  lemma InPlayStays(e: Expr)
    requires InPlay(e)
    ensures EliminateYn(e) == e
  {
    NoYnHere(e);
    EliminateYnRemovesAll(e);
  }

  lemma {:induction false} PartsNotEmpty(op: Op, e: Expr)
    ensures Parts(op, e) != multiset{}
  {
    if IsBin(e, op) {
      PartsNotEmpty(op, e.left);
    }
  }

  /** Main result: without constant operands, expr_eq answers 1 if and only if the expressions are equal up
      to the order and grouping of operands, on all levels. */
  lemma {:induction false} ExprEqExact(e1: Expr, e2: Expr)
    requires NoYn(e1) && NoYn(e2)
    ensures ExprEq(e1, e2) <==> ShapeOf(e1) == ShapeOf(e2)
    decreases Size(e1) + Size(e2), 2
  {
    if e1.Not? && e2.Not? {
      ExprEqExact(e1.arg, e2.arg);
    } else if e1.Bin? && e2.Bin? && e1.op == e2.op {
      ChainsExact(e1.op, e1, e2);
    }
  }

  lemma {:induction false} ChainsExact(op: Op, e1: Expr, e2: Expr)
    requires NoYn(e1) && NoYn(e2) && IsBin(e1, op) && IsBin(e2, op)
    ensures ExprEq(e1, e2) <==> Parts(op, e1) == Parts(op, e2)
    decreases Size(e1) + Size(e2), 1
  {
    AllInPlay(op, e1);
    AllInPlay(op, e2);
    CancelLive(op, e1, e2);
    ExprEqOfChains(op, e1, e2);
    var (f1, f2) := CancelEq(op, e1, e2);
    EliminateLive(op, f1);
    EliminateLive(op, f2);
    SameRest(op, EliminateYn(f1), EliminateYn(f2), Parts(op, e1), Parts(op, e2));
  }

  lemma ExprEqOfChains(op: Op, e1: Expr, e2: Expr)
    requires IsBin(e1, op) && IsBin(e2, op) && IsBin(CancelEq(op, e1, e2).1, op)
    ensures var (f1, f2) := CancelEq(op, e1, e2);
            var r1, r2 := EliminateYn(f1), EliminateYn(f2);
            ExprEq(e1, e2) <==> r1.Sym? && r2.Sym? && r1.sym == r2.sym
  {}

  /** What is left on both sides is one and the same symbol only if it is nothing. */
  lemma SameRest(op: Op, r1: Expr, r2: Expr, x: multiset<Shape>, y: multiset<Shape>)
    requires ChainOk(op, r1) && ChainOk(op, r2) && Live(op, r1) == x - y && Live(op, r2) == y - x
    requires r1 == Sym(NeutralSym(op)) <==> x - y == multiset{}
    requires r2 == Sym(NeutralSym(op)) <==> y - x == multiset{}
    ensures r1.Sym? && r2.Sym? && r1.sym == r2.sym <==> x == y
  {
    NotBoth(x, y, ShapeOf(r1));
    if x - y == multiset{} && y - x == multiset{} {
      NothingApart(x, y);
    }
  }

  lemma NotBoth<T>(x: multiset<T>, y: multiset<T>, t: T)
    ensures !(t in x - y && t in y - x)
  {}

  lemma NothingApart<T>(x: multiset<T>, y: multiset<T>)
    requires x - y == multiset{} && y - x == multiset{}
    ensures x == y
  {
    forall t: T
      ensures x[t] == y[t]
    {
      assert (x - y)[t] == 0 && (y - x)[t] == 0;
    }
  }

  /** In particular the operands may change places, and so may groups of them. */
  lemma ExprEqSwapped(op: Op, x: Expr, y: Expr)
    requires InPlay(x) && InPlay(y)
    ensures ExprEq(Bin(op, x, y), Bin(op, y, x)) == true
  {
    ExprEqExact(Bin(op, x, y), Bin(op, y, x));
  }

  lemma ExprEqRegrouped(op: Op, x: Expr, y: Expr, z: Expr, e1: Expr, e2: Expr)
    requires InPlay(x) && InPlay(y) && InPlay(z)
    requires e1 == Bin(op, Bin(op, x, y), z) && e2 == Bin(op, x, Bin(op, y, z))
    ensures ExprEq(e1, e2) == true
  {
    RegroupedShape(op, x, y, z);
    ExprEqExact(e1, e2);
  }

  lemma RegroupedShape(op: Op, x: Expr, y: Expr, z: Expr)
    ensures ShapeOf(Bin(op, Bin(op, x, y), z)) == ShapeOf(Bin(op, x, Bin(op, y, z)))
  {
    PartsBin(op, x, y);
    PartsBin(op, Bin(op, x, y), z);
    PartsBin(op, y, z);
    PartsBin(op, x, Bin(op, y, z));
    Associate(Parts(op, x), Parts(op, y), Parts(op, z));
  }

  lemma PartsBin(op: Op, l: Expr, r: Expr)
    ensures ShapeOf(Bin(op, l, r)) == Chain(op, Parts(op, l) + Parts(op, r))
    ensures Parts(op, Bin(op, l, r)) == Parts(op, l) + Parts(op, r)
  {}

  lemma Associate<T>(x: multiset<T>, y: multiset<T>, z: multiset<T>)
    ensures x + y + z == x + (y + z)
  {}

  // ---------------------------------------------------------------- both stages

  lemma LeftCancelled(op: Op, e1: Expr, e2: Expr)
    requires IsBin(e1, op)
    ensures var (l, m) := CancelEq(op, e1.left, e2);
            var (r, n) := CancelEq(op, e1.right, m);
            CancelEq(op, e1, e2) == (Bin(op, l, r), n)
  {}

  lemma RightCancelled(op: Op, e1: Expr, e2: Expr)
    requires !IsBin(e1, op) && IsBin(e2, op)
    ensures var (m, l) := CancelEq(op, e1, e2.left);
            var (n, r) := CancelEq(op, m, e2.right);
            CancelEq(op, e1, e2) == (n, Bin(op, l, r))
  {}

  /** Where nothing is common nothing changes. */
  lemma {:induction false} CancelNothing(op: Op, e1: Expr, e2: Expr)
    requires InPlay(e1) && InPlay(e2) && Parts(op, e1) !! Parts(op, e2)
    ensures CancelEq(op, e1, e2) == (e1, e2)
    decreases Size(e1) + Size(e2), 1
  {
    if IsBin(e1, op) {
      CancelNothing(op, e1.left, e2);
      CancelNothing(op, e1.right, e2);
      LeftCancelled(op, e1, e2);
    } else if IsBin(e2, op) {
      CancelNothing(op, e1, e2.left);
      CancelNothing(op, e1, e2.right);
      RightCancelled(op, e1, e2);
    } else {
      ExprEqExact(e1, e2);
      assert ShapeOf(e1) in Parts(op, e1) && ShapeOf(e2) in Parts(op, e2);
      OperandsCancelled(op, e1, e2);
    }
  }

  /** A chain without constants; it is the neutral constant exactly if nothing is left. */
  ghost predicate Reduced(op: Op, e: Expr) {
    ChainOk(op, e) && (e == Sym(NeutralSym(op)) <==> Live(op, e) == multiset{}) && e != Sym(AbsorbSym(op))
  }

  /** x is an operand of the chain e. */
  predicate IsPart(op: Op, x: Expr, e: Expr) {
    IsBin(e, op) && !IsBin(x, op) && ShapeOf(x) in Parts(op, e)
  }

  /** What expr_eliminate_eq makes of two expressions without constant operands: two chains of one operator
      lose what they have in common; an operand of the other expression is taken out of it; and otherwise
      nothing changes. */
  lemma EliminateEqExact(e1: Expr, e2: Expr)
    requires InPlay(e1) && InPlay(e2)
    ensures var (r1, r2) := EliminateEq(e1, e2);
            if e1.Bin? && IsBin(e2, e1.op) then
              var op := e1.op;
              && Live(op, r1) == Parts(op, e1) - Parts(op, e2) && Reduced(op, r1)
              && Live(op, r2) == Parts(op, e2) - Parts(op, e1) && Reduced(op, r2)
            else if e1.Bin? && IsPart(e1.op, e2, e1) then
              var op := e1.op;
              Live(op, r1) == Parts(op, e1) - multiset{ShapeOf(e2)} && Reduced(op, r1) && r2 == Sym(NeutralSym(op))
            else if e2.Bin? && IsPart(e2.op, e1, e2) then
              var op := e2.op;
              Live(op, r2) == Parts(op, e2) - multiset{ShapeOf(e1)} && Reduced(op, r2) && r1 == Sym(NeutralSym(op))
            else r1 == e1 && r2 == e2
  {
    if e1.Bin? && IsBin(e2, e1.op) {
      EliminateChains(e1.op, e1, e2);
    } else if e1.Bin? && IsPart(e1.op, e2, e1) {
      EliminatePart(e1, e2);
    } else if e2.Bin? && IsPart(e2.op, e1, e2) {
      EliminateFirst(e1, e2);
    } else {
      EliminateNothing(e1, e2);
    }
  }

  lemma EliminateChains(op: Op, e1: Expr, e2: Expr)
    requires InPlay(e1) && InPlay(e2) && IsBin(e1, op) && IsBin(e2, op)
    ensures var (r1, r2) := EliminateEq(e1, e2);
            && Live(op, r1) == Parts(op, e1) - Parts(op, e2) && Reduced(op, r1)
            && Live(op, r2) == Parts(op, e2) - Parts(op, e1) && Reduced(op, r2)
  {
    AllInPlay(op, e1);
    AllInPlay(op, e2);
    CancelLive(op, e1, e2);
    var (f1, f2) := CancelEq(op, e1, e2);
    EliminateLive(op, f1);
    EliminateLive(op, f2);
  }

  lemma EliminatePart(e1: Expr, e2: Expr)
    requires InPlay(e1) && InPlay(e2) && e1.Bin? && IsPart(e1.op, e2, e1)
    ensures var (r1, r2) := EliminateEq(e1, e2);
            && Live(e1.op, r1) == Parts(e1.op, e1) - multiset{ShapeOf(e2)} && Reduced(e1.op, r1)
            && r2 == Sym(NeutralSym(e1.op))
  {
    var op := e1.op;
    AllInPlay(op, e1);
    AllInPlay(op, e2);
    CancelLive(op, e1, e2);
    var (f1, f2) := CancelEq(op, e1, e2);
    OneTaken(Parts(op, e1), ShapeOf(e2));
    OperandGone(op, f2);
    EliminateLive(op, f1);
  }

  lemma OneTaken<T>(x: multiset<T>, t: T)
    requires t in x
    ensures multiset{t} - x == multiset{}
  {}

  lemma OperandGone(op: Op, e: Expr)
    requires ChainOk(op, e) && !IsBin(e, op) && Live(op, e) == multiset{}
    ensures e == Sym(NeutralSym(op))
  {
    LiveOperand(op, e);
    assert InPlay(e) ==> ShapeOf(e) in Live(op, e);
  }

  /** The first stage does nothing, the second one takes e1 out of e2. */
  lemma EliminateFirst(e1: Expr, e2: Expr)
    requires InPlay(e1) && InPlay(e2) && e2.Bin? && IsPart(e2.op, e1, e2)
    requires e1.Bin? ==> e1.op != e2.op && !IsPart(e1.op, e2, e1)
    ensures var (r1, r2) := EliminateEq(e1, e2);
            && Live(e2.op, r2) == Parts(e2.op, e2) - multiset{ShapeOf(e1)} && Reduced(e2.op, r2)
            && r1 == Sym(NeutralSym(e2.op))
  {
    FirstStageNothing(e1, e2);
    SecondStage(e2.op, e1, e2);
  }

  lemma SecondStage(op: Op, e1: Expr, e2: Expr)
    requires InPlay(e1) && InPlay(e2) && IsPart(op, e1, e2)
    ensures var (f1, f2) := CancelEq(op, e1, e2);
            var r2 := EliminateYn(f2);
            && Live(op, r2) == Parts(op, e2) - multiset{ShapeOf(e1)} && Reduced(op, r2) == true
            && f1 == Sym(NeutralSym(op)) == EliminateYn(f1)
  {
    AllInPlay(op, e1);
    AllInPlay(op, e2);
    CancelLive(op, e1, e2);
    var (f1, f2) := CancelEq(op, e1, e2);
    OneTaken(Parts(op, e2), ShapeOf(e1));
    OperandGone(op, f1);
    EliminateLive(op, f2);
  }

  lemma FirstStageNothing(e1: Expr, e2: Expr)
    requires InPlay(e1) && InPlay(e2) && (e1.Bin? ==> !IsBin(e2, e1.op) && !IsPart(e1.op, e2, e1))
    ensures e1.Bin? ==> CancelEq(e1.op, e1, e2) == (e1, e2)
  {
    if e1.Bin? {
      assert Parts(e1.op, e2) == multiset{ShapeOf(e2)};
      CancelNothing(e1.op, e1, e2);
    }
  }

  lemma EliminateNothing(e1: Expr, e2: Expr)
    requires InPlay(e1) && InPlay(e2) && (e1.Bin? ==> !IsBin(e2, e1.op) && !IsPart(e1.op, e2, e1))
    requires e2.Bin? ==> !IsPart(e2.op, e1, e2)
    ensures EliminateEq(e1, e2) == (e1, e2)
  {
    FirstStageNothing(e1, e2);
    if e2.Bin? {
      assert Parts(e2.op, e1) == multiset{ShapeOf(e1)};
      CancelNothing(e2.op, e1, e2);
    }
    InPlayStays(e1);
    InPlayStays(e2);
  }

  // ---------------------------------------------------------------- what is extracted

  function LiveOpt(op: Op, x: OptExpr): multiset<Shape> {
    if x.Some? then Live(op, x.e) else multiset{}
  }

  /** What the chains have in common has been taken from both and added to c. */
  ghost predicate ExtractOk(op: Op, c: OptExpr, e1: Expr, e2: Expr) {
    var x := ExtractEq(op, c, e1, e2);
    Parted(op, e1, e2, x.e1, x.e2) && LiveOpt(op, x.common) == LiveOpt(op, c) + Live(op, e1) * Live(op, e2)
  }

  lemma CommonTwice<T>(x: multiset<T>, y: multiset<T>, z: multiset<T>, c: multiset<T>, c': multiset<T>,
                       m: multiset<T>, d: multiset<T>)
    requires c' == c + x * z && m == z - x && d == c' + y * m
    ensures d == c + (x + y) * z
  {}

  lemma SwapCommon<T>(x: multiset<T>, z: multiset<T>)
    ensures x * z == z * x
  {}

  lemma ExtractOkLeft(op: Op, c: OptExpr, e1: Expr, e2: Expr)
    requires IsBin(e1, op)
    ensures var x := ExtractEq(op, c, e1.left, e2);
            ExtractOk(op, c, e1.left, e2) && ExtractOk(op, x.common, e1.right, x.e2) ==> ExtractOk(op, c, e1, e2)
  {
    var x := ExtractEq(op, c, e1.left, e2);
    var y := ExtractEq(op, x.common, e1.right, x.e2);
    LeftParted(op, e1, e2, x.e1, x.e2, y.e1, y.e2);
    LeftCommon(op, e1, e2, x.e1, x.e2, LiveOpt(op, c), LiveOpt(op, x.common), LiveOpt(op, y.common));
  }

  lemma LeftCommon(op: Op, e1: Expr, e2: Expr, l: Expr, m: Expr, c: multiset<Shape>, c': multiset<Shape>,
                   d: multiset<Shape>)
    requires IsBin(e1, op)
    ensures Parted(op, e1.left, e2, l, m) && c' == c + Live(op, e1.left) * Live(op, e2)
            && d == c' + Live(op, e1.right) * Live(op, m)
            ==> d == c + Live(op, e1) * Live(op, e2)
  {
    if Parted(op, e1.left, e2, l, m) && c' == c + Live(op, e1.left) * Live(op, e2)
       && d == c' + Live(op, e1.right) * Live(op, m) {
      LiveBin(op, e1.left, e1.right);
      CommonTwice(Live(op, e1.left), Live(op, e1.right), Live(op, e2), c, c', Live(op, m), d);
    }
  }

  lemma ExtractOkRight(op: Op, c: OptExpr, e1: Expr, e2: Expr)
    requires !IsBin(e1, op) && IsBin(e2, op)
    ensures var x := ExtractEq(op, c, e1, e2.left);
            ExtractOk(op, c, e1, e2.left) && ExtractOk(op, x.common, x.e1, e2.right) ==> ExtractOk(op, c, e1, e2)
  {
    var x := ExtractEq(op, c, e1, e2.left);
    var y := ExtractEq(op, x.common, x.e1, e2.right);
    RightParted(op, e1, e2, x.e1, x.e2, y.e1, y.e2);
    SwapCommon(Live(op, e1), Live(op, e2.left));
    SwapCommon(Live(op, x.e1), Live(op, e2.right));
    SwapCommon(Live(op, e1), Live(op, e2));
    PartedSwapped(op, e1, e2.left, x.e1, x.e2);
    LeftCommon(op, e2, e1, x.e2, x.e1, LiveOpt(op, c), LiveOpt(op, x.common), LiveOpt(op, y.common));
  }

  lemma CommonOne<T>(x: T, y: T)
    ensures multiset{x} * multiset{y} == if x == y then multiset{x} else multiset{}
    ensures multiset{x} * multiset{} == multiset{} && multiset{} * multiset{x} == multiset{}
  {}

  lemma OperandsExact(e1: Expr, e2: Expr)
    ensures InPlay(e1) && InPlay(e2) ==> (ExprEq(e1, e2) <==> ShapeOf(e1) == ShapeOf(e2))
  {
    if InPlay(e1) && InPlay(e2) {
      ExprEqExact(e1, e2);
    }
  }

  lemma OperandsExtracted(op: Op, c: OptExpr, e1: Expr, e2: Expr)
    requires !IsBin(e1, op) && !IsBin(e2, op)
    ensures var x, neutral := ExtractEq(op, c, e1, e2), Sym(NeutralSym(op));
            if ExprEq(e1, e2) then x.e1 == neutral && x.e2 == neutral && x.common == Collected(op, c, e1)
            else x == Extracted(c, e1, e2)
  {}

  function Collected(op: Op, c: OptExpr, e: Expr): OptExpr {
    Some(if c.Some? then Bin(op, c.e, e) else e)
  }

  lemma CollectedLive(op: Op, c: OptExpr, e: Expr)
    ensures LiveOpt(op, Collected(op, c, e)) == LiveOpt(op, c) + Live(op, e)
  {}

  lemma ExtractOkOperands(op: Op, c: OptExpr, e1: Expr, e2: Expr)
    requires !IsBin(e1, op) && !IsBin(e2, op) && ChainOk(op, e1) && ChainOk(op, e2)
    ensures ExtractOk(op, c, e1, e2) == true
  {
    OperandsExact(e1, e2);
    OperandsExtracted(op, c, e1, e2);
    CollectedLive(op, c, e1);
    LiveOperand(op, e1);
    LiveOperand(op, e2);
    CommonOne(ShapeOf(e1), ShapeOf(e2));
    if InPlay(e1) && InPlay(e2) {
      PartedOperands(op, e1, e2, ExprEq(e1, e2));
    } else {
      YnEqual(Sym(NeutralSym(op)), if InPlay(e1) then e1 else e2);
      PartedOperands(op, e1, e2, false);
    }
  }

  /** The same for expr_extract_eq, which collects what it takes out. */
  lemma {:induction false} ExtractLive(op: Op, c: OptExpr, e1: Expr, e2: Expr)
    requires ChainOk(op, e1) && ChainOk(op, e2)
    ensures ExtractOk(op, c, e1, e2) == true
    decreases Size(e1) + Size(e2), 1
  {
    if IsBin(e1, op) {
      ExtractLiveLeft(op, c, e1, e2);
    } else if IsBin(e2, op) {
      ExtractLiveRight(op, c, e1, e2);
    } else {
      ExtractOkOperands(op, c, e1, e2);
    }
  }

  lemma {:induction false} ExtractLiveLeft(op: Op, c: OptExpr, e1: Expr, e2: Expr)
    requires ChainOk(op, e1) && ChainOk(op, e2) && IsBin(e1, op)
    ensures ExtractOk(op, c, e1, e2) == true
    decreases Size(e1) + Size(e2), 0
  {
    var x := ExtractEq(op, c, e1.left, e2);
    ExtractLive(op, c, e1.left, e2);
    ExtractOkKeeps(op, c, e1.left, e2);
    BinSize(op, e1);
    assert Size(e1.right) + Size(x.e2) < Size(e1) + Size(e2);
    ExtractLive(op, x.common, e1.right, x.e2);
    ExtractOkLeft(op, c, e1, e2);
  }

  lemma {:induction false} ExtractLiveRight(op: Op, c: OptExpr, e1: Expr, e2: Expr)
    requires ChainOk(op, e1) && ChainOk(op, e2) && !IsBin(e1, op) && IsBin(e2, op)
    ensures ExtractOk(op, c, e1, e2) == true
    decreases Size(e1) + Size(e2), 0
  {
    var x := ExtractEq(op, c, e1, e2.left);
    ExtractLive(op, c, e1, e2.left);
    ExtractOkKeeps(op, c, e1, e2.left);
    BinSize(op, e2);
    assert Size(x.e1) + Size(e2.right) < Size(e1) + Size(e2);
    ExtractLive(op, x.common, x.e1, e2.right);
    ExtractOkRight(op, c, e1, e2);
  }

  lemma BinSize(op: Op, e: Expr)
    requires IsBin(e, op)
    ensures Size(e) == 1 + Size(e.left) + Size(e.right)
  {}

  lemma ExtractOkKeeps(op: Op, c: OptExpr, e1: Expr, e2: Expr)
    ensures var x := ExtractEq(op, c, e1, e2);
            && Size(x.e1) <= Size(e1) && Size(x.e2) <= Size(e2)
            && (ExtractOk(op, c, e1, e2) ==> ChainOk(op, x.e1) && ChainOk(op, x.e2))
  {}

  // ---------------------------------------------------------------- reflexivity

  /** Every operand is a constant. */
  predicate AllYn(op: Op, e: Expr) {
    if IsBin(e, op) then AllYn(op, e.left) && AllYn(op, e.right) else IsYn(e)
  }

  /** The chain with the operands that are no constants replaced by the neutral one. */
  function Emptied(op: Op, e: Expr): (r: Expr)
    ensures AllYn(op, r)
  {
    if IsBin(e, op) then Bin(op, Emptied(op, e.left), Emptied(op, e.right))
    else if IsYn(e) then e else Sym(NeutralSym(op))
  }

  /** All operands before the place p are constants. */
  predicate EmptyBefore(op: Op, e: Expr, p: Path)
    requires OnSpine(op, e, p)
  {
    p.Down? ==> (p.right ==> AllYn(op, e.left)) && EmptyBefore(op, Child(e, p.right), p.rest)
  }

  /** Constants cancel nothing. */
  lemma {:induction false} YnCancelsNothing(op: Op, c: Expr, e: Expr)
    requires IsYn(c)
    ensures CancelEq(op, c, e) == (c, e)
    decreases e
  {
    if IsBin(e, op) {
      YnCancelsNothing(op, c, e.left);
      YnCancelsNothing(op, c, e.right);
    }
  }

  lemma {:induction false} NothingToCancel(op: Op, x: Expr, e: Expr)
    requires AllYn(op, e) && !IsBin(x, op)
    ensures CancelEq(op, x, e) == (x, e)
    decreases e
  {
    if IsBin(e, op) {
      NothingToCancel(op, x, e.left);
      NothingToCancel(op, x, e.right);
    }
  }

  /** An operand, or a part of the chain, that is found at the place p cancels itself there. */
  lemma {:induction false} CancelSelf(op: Op, x: Expr, e: Expr, p: Path)
    requires OnSpine(op, e, p) && At(op, e, p) == x && EmptyBefore(op, e, p)
    ensures CancelEq(op, x, e) == (Emptied(op, x), Put(op, e, p, Emptied(op, x)))
    decreases Size(x), if IsBin(x, op) then 1 else 3, p
  {
    if IsBin(x, op) {
      LeftPart(op, x, e, p);
      var e' := Put(op, e, Snoc(p, false), Emptied(op, x.left));
      CancelSelf(op, x.left, e, Snoc(p, false));
      CancelSelf(op, x.right, e', Snoc(p, true));
    } else if p.Down? {
      SelfBelow(op, x, e, p);
    } else if !IsYn(x) {
      ExprEqReflexive(x);
    }
  }

  /** The part left of x is cancelled first; then everything before the part right of it is empty. */
  lemma {:induction false} LeftPart(op: Op, x: Expr, e: Expr, p: Path)
    requires OnSpine(op, e, p) && At(op, e, p) == x && EmptyBefore(op, e, p) && IsBin(x, op)
    ensures OnSpine(op, e, Snoc(p, false)) && At(op, e, Snoc(p, false)) == x.left && EmptyBefore(op, e, Snoc(p, false))
    ensures var e' := Put(op, e, Snoc(p, false), Emptied(op, x.left));
            && OnSpine(op, e', Snoc(p, true)) && At(op, e', Snoc(p, true)) == x.right
            && EmptyBefore(op, e', Snoc(p, true))
            && Put(op, e', Snoc(p, true), Emptied(op, x.right)) == Put(op, e, p, Emptied(op, x))
    decreases p
  {
    if p.Down? {
      LeftPart(op, x, Child(e, p.right), p.rest);
    }
  }

  lemma {:induction false} SelfBelow(op: Op, x: Expr, e: Expr, p: Path)
    requires OnSpine(op, e, p) && At(op, e, p) == x && EmptyBefore(op, e, p) && !IsBin(x, op) && p.Down?
    ensures CancelEq(op, x, e) == (Emptied(op, x), Put(op, e, p, Emptied(op, x)))
    decreases Size(x), 3, p, 0
  {
    CancelSelf(op, x, Child(e, p.right), p.rest);
    if p.right {
      NothingToCancel(op, x, e.left);
    } else {
      YnCancelsNothing(op, Emptied(op, x), e.right);
    }
  }

  lemma {:induction false} EmptiedIsYn(op: Op, e: Expr)
    requires AllYn(op, e)
    ensures IsYn(EliminateYn(e))
  {
    if IsBin(e, op) {
      EmptiedIsYn(op, e.left);
      EmptiedIsYn(op, e.right);
    }
  }

  /** Main result: every expression is equal to itself, constants or not. */
  lemma {:induction false} ExprEqReflexive(e: Expr)
    ensures ExprEq(e, e) == true
    decreases Size(e), 2
  {
    match e
    case Not(x) => ExprEqReflexive(x);
    case Bin(op, _, _) =>
      CancelSelf(op, e, e, Here);
      EmptiedIsYn(op, Emptied(op, e));
      ExprEqOfChains(op, e, e);
    case _ =>
  }
}
