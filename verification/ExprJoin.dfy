/** expr_join_or and expr_join_and: fuse two operands of an or, or of an and, into one. */
module ExprJoin {
  import opened Tristate
  import opened Exprs
  import opened ExprEquality

  /** The symbol an operand is about; the first operand may also be a negated comparison. */
  function JoinSymbol(e: Expr, first: bool): OptSymbol {
    match e
    case Sym(s) => SomeSymbol(s)
    case Equal(l, _) => SomeSymbol(l)
    case Unequal(l, _) => SomeSymbol(l)
    case Not(Sym(s)) => SomeSymbol(s)
    case Not(Equal(l, _)) => if first then SomeSymbol(l) else NoSymbol
    case Not(Unequal(l, _)) => if first then SomeSymbol(l) else NoSymbol
    case _ => NoSymbol
  }

  datatype OptSymbol = NoSymbol | SomeSymbol(s: Symbol)

  /** Both operands speak about one boolean or tristate symbol. */
  predicate Joinable(e1: Expr, e2: Expr) {
    var s1, s2 := JoinSymbol(e1, true), JoinSymbol(e2, false);
    s1.SomeSymbol? && s1 == s2 && s1.s.IsTristate()
  }

  /** One operand compares with c, the other with d. */
  predicate Against(e1: Expr, e2: Expr, c: Symbol, d: Symbol)
    requires (e1.Equal? || e1.Unequal?) && (e2.Equal? || e2.Unequal?)
  {
    (e1.r == c && e2.r == d) || (e1.r == d && e2.r == c)
  }

  function JoinOr(e1: Expr, e2: Expr): (r: OptExpr)
    ensures r.Some? ==> Size(r.e) <= Size(e1)
    ensures r.Some? ==> IsLeaf(r.e) || r.e == e1
  {
    if ExprEq(e1, e2) then Some(e1)
    else if !Joinable(e1, e2) then None
    else
      var s := JoinSymbol(e1, true).s;
      if s.Type() == SymType.Tristate && e1.Equal? && e2.Equal? then
        // (a='y') || (a='m') -> (a!='n'), and so on
        if Against(e1, e2, SYMBOL_YES, SYMBOL_MOD) then Some(Unequal(s, SYMBOL_NO))
        else if Against(e1, e2, SYMBOL_YES, SYMBOL_NO) then Some(Unequal(s, SYMBOL_MOD))
        else if Against(e1, e2, SYMBOL_MOD, SYMBOL_NO) then Some(Unequal(s, SYMBOL_YES))
        else None
      else if s.Type() == Boolean
              && ((e1.Not? && e1.arg.Sym? && e2.Sym?) || (e2.Not? && e2.arg.Sym? && e1.Sym?)) then
        Some(Sym(SYMBOL_YES))
      else None
  }

  function JoinAnd(e1: Expr, e2: Expr): (r: OptExpr)
    ensures r.Some? ==> Size(r.e) <= Size(e1)
    ensures r.Some? ==> IsLeaf(r.e) || r.e == e1
  {
    if ExprEq(e1, e2) then Some(e1)
    else if !Joinable(e1, e2) then None
    else
      var s := JoinSymbol(e1, true).s;
      if (e1.Sym? && e2.Equal? && e2.r == SYMBOL_YES) || (e2.Sym? && e1.Equal? && e1.r == SYMBOL_YES) then
        Some(Equal(s, SYMBOL_YES))
      else if (e1.Sym? && e2.Unequal? && e2.r == SYMBOL_NO) || (e2.Sym? && e1.Unequal? && e1.r == SYMBOL_NO) then
        Some(Sym(s))
      else if (e1.Sym? && e2.Unequal? && e2.r == SYMBOL_MOD) || (e2.Sym? && e1.Unequal? && e1.r == SYMBOL_MOD) then
        Some(Equal(s, SYMBOL_YES))
      else if s.Type() != SymType.Tristate then None
      else if e1.Equal? && e2.Unequal? && e1.r.Const? && e2.r.Const? then
        Some(if e1.r != e2.r then Equal(s, e1.r) else Sym(SYMBOL_NO))
      else if e1.Unequal? && e2.Equal? && e1.r.Const? && e2.r.Const? then
        Some(if e1.r != e2.r then Equal(s, e2.r) else Sym(SYMBOL_NO))
      else if e1.Unequal? && e2.Unequal? then
        if Against(e1, e2, SYMBOL_YES, SYMBOL_NO) then Some(Equal(s, SYMBOL_MOD))
        else if Against(e1, e2, SYMBOL_YES, SYMBOL_MOD) then Some(Equal(s, SYMBOL_NO))
        else if Against(e1, e2, SYMBOL_MOD, SYMBOL_NO) then Some(Equal(s, SYMBOL_YES))
        else None
      else None
  }

  function Join(op: Op, e1: Expr, e2: Expr): (r: OptExpr)
    ensures r.Some? ==> Size(r.e) <= Size(e1)
    ensures r.Some? ==> IsLeaf(r.e) || r.e == e1
  {
    if op == Or then JoinOr(e1, e2) else JoinAnd(e1, e2)
  }

  /** A boolean's or tristate's string names its value. */
  lemma TextNamesValue(s: Symbol, a: Assignment)
    requires s.IsTristate()
    ensures SymText(s, a) == TriText(SymTri(s, a))
    ensures s.Type() == Boolean ==> SymTri(s, a) != MOD
  {}

  lemma JoinOrExact(e1: Expr, e2: Expr, a: Assignment)
    requires JoinOr(e1, e2).Some?
    ensures Eval(JoinOr(e1, e2).e, a) == TriOr(Eval(e1, a), Eval(e2, a))
  {
    if ExprEq(e1, e2) {
      ExprEqSound(e1, e2, a);
    } else {
      TextNamesValue(JoinSymbol(e1, true).s, a);
    }
  }

  lemma JoinAndExact(e1: Expr, e2: Expr, a: Assignment)
    requires JoinAnd(e1, e2).Some?
    ensures Eval(JoinAnd(e1, e2).e, a) == TriAnd(Eval(e1, a), Eval(e2, a))
  {
    if ExprEq(e1, e2) {
      ExprEqSound(e1, e2, a);
    } else {
      TextNamesValue(JoinSymbol(e1, true).s, a);
    }
  }

  /** Every rule of both joins keeps the value, for booleans and tristates alike. */
  lemma JoinExact(op: Op, e1: Expr, e2: Expr, a: Assignment)
    requires Join(op, e1, e2).Some?
    ensures Eval(Join(op, e1, e2).e, a) == Apply(op, Eval(e1, a), Eval(e2, a))
  {
    if op == Or {
      JoinOrExact(e1, e2, a);
    } else {
      JoinAndExact(e1, e2, a);
    }
  }

  // ---------------------------------------------------------------- which pairs are joined

  /** e1 and e2 are x and y, in either order. */
  predicate Pair(x: Expr, y: Expr, e1: Expr, e2: Expr) {
    (e1 == x && e2 == y) || (e1 == y && e2 == x)
  }

  /** The same tristate compared with two of the values y, m and n. */
  ghost predicate OrPair(e1: Expr, e2: Expr, s: Symbol, c: Symbol, d: Symbol) {
    s.Type() == SymType.Tristate && IsTriConst(c) && IsTriConst(d) && c != d && e1 == Equal(s, c) && e2 == Equal(s, d)
  }

  /** A boolean and its negation. */
  ghost predicate Opposite(e1: Expr, e2: Expr, s: Symbol) {
    s.Type() == Boolean && Pair(Sym(s), Not(Sym(s)), e1, e2)
  }

  /** Exactly which operands of an or are joined. */
  lemma JoinOrPairs(e1: Expr, e2: Expr)
    ensures JoinOr(e1, e2).Some?
            <==> || ExprEq(e1, e2)
                 || (exists s: Symbol :: Opposite(e1, e2, s))
                 || (exists s: Symbol, c: Symbol, d: Symbol :: OrPair(e1, e2, s, c, d))
  {
    if JoinOr(e1, e2).Some? && !ExprEq(e1, e2) {
      var s := JoinSymbol(e1, true).s;
      if e1.Equal? && e2.Equal? {
        assert OrPair(e1, e2, s, e1.r, e2.r);
      } else {
        assert Opposite(e1, e2, s);
      }
    }
  }

  /** A symbol and a comparison of it that the symbol makes redundant or sharper. */
  ghost predicate AndWithSymbol(e1: Expr, e2: Expr, s: Symbol) {
    && s.IsTristate()
    && (|| Pair(Sym(s), Equal(s, SYMBOL_YES), e1, e2)
        || Pair(Sym(s), Unequal(s, SYMBOL_NO), e1, e2)
        || Pair(Sym(s), Unequal(s, SYMBOL_MOD), e1, e2))
  }

  /** The same tristate equal to one constant and unequal to another, or unequal to two of y, m and n. */
  ghost predicate AndPair(e1: Expr, e2: Expr, s: Symbol, c: Symbol, d: Symbol) {
    && s.Type() == SymType.Tristate && c.Const? && d.Const?
    && (|| Pair(Equal(s, c), Unequal(s, d), e1, e2)
        || (IsTriConst(c) && IsTriConst(d) && c != d && e1 == Unequal(s, c) && e2 == Unequal(s, d)))
  }

  /** Exactly which operands of an and are joined. */
  lemma JoinAndPairs(e1: Expr, e2: Expr)
    ensures JoinAnd(e1, e2).Some?
            <==> || ExprEq(e1, e2)
                 || (exists s: Symbol :: AndWithSymbol(e1, e2, s))
                 || (exists s: Symbol, c: Symbol, d: Symbol :: AndPair(e1, e2, s, c, d))
  {
    if JoinAnd(e1, e2).Some? && !ExprEq(e1, e2) {
      var s := JoinSymbol(e1, true).s;
      if e1.Sym? || e2.Sym? {
        assert AndWithSymbol(e1, e2, s);
      } else if e1.Equal? || (e1.Unequal? && e2.Unequal?) {
        assert AndPair(e1, e2, s, e1.r, e2.r);
      } else {
        assert AndPair(e1, e2, s, e2.r, e1.r);
      }
    }
  }
}
