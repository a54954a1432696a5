/**
 Comparing a dependency with n (expr_trans_compare), looking for a symbol in it
 (expr_contains_symbol, expr_depends_symbol) and the test menu_finalize builds from them to
 decide whether an entry becomes a submenu entry of the one before it.
 */
module ExprCompare {
  import opened Tristate
  import opened Exprs
  import opened ExprEquality
  import opened ExprJoin
  import opened ExprSpine
  import opened ExprDups
  import opened ExprDupsMod

  // ---------------------------------------------------------------- expr_trans_compare

  /** expr_trans_compare against one of the constants y, m, n: an expression for "e = sym", or
      for "e != sym" when equal is false. */
  function TransCompare(e: Expr, equal: bool, sym: Symbol): Expr
    requires IsTriConst(sym)
  {
    match e
    case Bin(op, l, r) =>
      var x :=
        if sym == SYMBOL_MOD then e
        else Bin(if sym == SYMBOL_YES then op else Dual(op),
                 TransCompare(l, true, sym), TransCompare(r, true, sym));
      if equal then x else Not(x)
    case Not(x) => TransCompare(x, !equal, sym)
    case Sym(s) => if equal then Equal(s, sym) else Unequal(s, sym)
    case _ =>
      if sym == SYMBOL_MOD then Sym(if equal then SYMBOL_NO else SYMBOL_YES)
      else if equal == (sym == SYMBOL_YES) then e
      else Not(e)
  }

  /** A missing expression stands for y. */
  function TransCompareOpt(x: OptExpr, equal: bool, sym: Symbol): Expr
    requires IsTriConst(sym)
  {
    match x
    case None => if equal then Sym(sym) else Not(Sym(sym))
    case Some(e) => TransCompare(e, equal, sym)
  }

  /** No negated operand is m, and every symbol used as a condition has a tristate value. */
  predicate Comparable(e: Expr, a: Assignment) {
    match e
    case Sym(s) => SymText(s, a) == TriText(SymTri(s, a))
    case Not(x) => Comparable(x, a) && Eval(x, a) != MOD
    case Bin(_, l, r) => Comparable(l, a) && Comparable(r, a)
    case _ => true
  }

  lemma {:induction false} TransCompareTwoValued(e: Expr, equal: bool, sym: Symbol, a: Assignment)
    requires sym == SYMBOL_YES || sym == SYMBOL_NO
    ensures Eval(TransCompare(e, equal, sym), a) != MOD
  {
    match e
    case Bin(op, l, r) =>
      TransCompareTwoValued(l, true, sym, a);
      TransCompareTwoValued(r, true, sym, a);
    case Not(x) => TransCompareTwoValued(x, !equal, sym, a);
    case _ =>
  }

  lemma {:induction false} TransCompareExact(e: Expr, equal: bool, sym: Symbol, a: Assignment)
    requires sym == SYMBOL_YES || sym == SYMBOL_NO
    requires Comparable(e, a)
    ensures Eval(TransCompare(e, equal, sym), a) == TriBool((Eval(e, a) == SymTri(sym, a)) == equal)
  {
    match e
    case Bin(op, l, r) =>
      TransCompareExact(l, true, sym, a);
      TransCompareExact(r, true, sym, a);
    case Not(x) => TransCompareExact(x, !equal, sym, a);
    case _ =>
  }

  /** What the comparison takes an expression for: each reference to a symbol is true or false on its
      own, "not n" for a comparison with n and "y" for one with y, and NOT negates that. */
  predicate Reads(e: Expr, sym: Symbol, a: Assignment) {
    match e
    case Sym(s) => if sym == SYMBOL_YES then SymText(s, a) == Y else SymText(s, a) != N
    case Not(x) => !Reads(x, sym, a)
    case Bin(op, l, r) =>
      if op == And then Reads(l, sym, a) && Reads(r, sym, a) else Reads(l, sym, a) || Reads(r, sym, a)
    case _ => Eval(e, a) != NO
  }

  /** Every symbol used as a condition has a tristate value. */
  predicate Conditions(e: Expr, a: Assignment) {
    match e
    case Sym(s) => SymText(s, a) == TriText(SymTri(s, a))
    case Not(x) => Conditions(x, a)
    case Bin(_, l, r) => Conditions(l, a) && Conditions(r, a)
    case _ => true
  }

  /** On every expression the comparison tells whether the reading agrees with the constant. */
  lemma {:induction false} TransCompareReads(e: Expr, equal: bool, sym: Symbol, a: Assignment)
    requires sym == SYMBOL_YES || sym == SYMBOL_NO
    ensures Eval(TransCompare(e, equal, sym), a) == TriBool((Reads(e, sym, a) == (sym == SYMBOL_YES)) == equal)
  {
    match e
    case Bin(op, l, r) =>
      TransCompareReads(l, true, sym, a);
      TransCompareReads(r, true, sym, a);
    case Not(x) => TransCompareReads(x, !equal, sym, a);
    case _ =>
  }

  /** The reading is the value wherever that is n or y. */
  lemma {:induction false} ReadsOnlyMod(e: Expr, sym: Symbol, a: Assignment)
    requires (sym == SYMBOL_YES || sym == SYMBOL_NO) && Conditions(e, a)
    ensures Reads(e, sym, a) ==> Eval(e, a) != NO
    ensures !Reads(e, sym, a) ==> Eval(e, a) != YES
  {
    match e
    case Bin(op, l, r) =>
      ReadsOnlyMod(l, sym, a);
      ReadsOnlyMod(r, sym, a);
    case Not(x) => ReadsOnlyMod(x, sym, a);
    case _ =>
  }

  /** Exactly when the comparison is wrong: the expression is m, and read as n by a comparison with n,
      or as y by a comparison with y. */
  lemma TransCompareWrong(e: Expr, equal: bool, sym: Symbol, a: Assignment)
    requires (sym == SYMBOL_YES || sym == SYMBOL_NO) && Conditions(e, a)
    ensures Eval(TransCompare(e, equal, sym), a) == TriBool((Eval(e, a) == SymTri(sym, a)) == equal)
            <==> !(Eval(e, a) == MOD && Reads(e, sym, a) == (sym == SYMBOL_YES))
  {
    TransCompareReads(e, equal, sym, a);
    ReadsOnlyMod(e, sym, a);
  }

  /** Below a negation of what can be compared, that is when the negated operand is m. */
  lemma TransCompareNotExact(x: Expr, equal: bool, sym: Symbol, a: Assignment)
    requires sym == SYMBOL_YES || sym == SYMBOL_NO
    requires Comparable(x, a)
    ensures Eval(TransCompare(Not(x), equal, sym), a)
            == TriBool((Eval(Not(x), a) == SymTri(sym, a)) == equal)
            <==> Eval(x, a) != MOD
  {
    TransCompareExact(x, !equal, sym, a);
  }

  // ---------------------------------------------------------------- occurrences of a symbol

  predicate ContainsSymbol(e: Expr, s: Symbol) {
    match e
    case Sym(t) => t == s
    case Not(x) => ContainsSymbol(x, s)
    case Equal(l, r) => l == s || r == s
    case Unequal(l, r) => l == s || r == s
    case Bin(_, l, r) => ContainsSymbol(l, s) || ContainsSymbol(r, s)
  }

  predicate DependsSymbol(e: Expr, s: Symbol) {
    match e
    case Sym(t) => t == s
    case Equal(l, r) => l == s && (r == SYMBOL_YES || r == SYMBOL_MOD)
    case Unequal(l, r) => l == s && r == SYMBOL_NO
    case Bin(op, l, r) => op == And && (DependsSymbol(l, s) || DependsSymbol(r, s))
    case Not(_) => false
  }

  /** The two assignments differ at most in the symbol s. */
  ghost predicate AgreeExcept(a: Assignment, b: Assignment, s: Symbol) {
    forall t: Symbol :: t != s ==> SymTri(t, a) == SymTri(t, b) && SymText(t, a) == SymText(t, b)
  }

  lemma {:induction false} ContainsSymbolSound(e: Expr, s: Symbol, a: Assignment, b: Assignment)
    requires !ContainsSymbol(e, s) && AgreeExcept(a, b, s)
    ensures Eval(e, a) == Eval(e, b)
  {
    match e
    case Not(x) => ContainsSymbolSound(x, s, a, b);
    case Bin(_, l, r) =>
      ContainsSymbolSound(l, s, a, b);
      ContainsSymbolSound(r, s, a, b);
    case _ =>
  }

  /** A dependency that depends on s can only hold while s is not n. */
  lemma {:induction false} DependsSymbolSound(e: Expr, s: Symbol, a: Assignment)
    requires DependsSymbol(e, s) && Eval(e, a) != NO
    ensures SymText(s, a) != N
  {
    if e.Bin? {
      if DependsSymbol(e.left, s) {
        DependsSymbolSound(e.left, s, a);
      } else {
        DependsSymbolSound(e.right, s, a);
      }
    }
  }

  /** The symbols an expression is made of. */
  function Symbols(e: Expr): set<Symbol> {
    match e
    case Sym(t) => {t}
    case Not(x) => Symbols(x)
    case Equal(l, r) => {l, r}
    case Unequal(l, r) => {l, r}
    case Bin(_, l, r) => Symbols(l) + Symbols(r)
  }

  lemma {:induction false} ContainsSymbolExactly(e: Expr, s: Symbol)
    ensures ContainsSymbol(e, s) <==> s in Symbols(e)
  {
    match e
    case Not(x) => ContainsSymbolExactly(x, s);
    case Bin(_, l, r) =>
      ContainsSymbolExactly(l, s);
      ContainsSymbolExactly(r, s);
    case _ =>
  }

  /** The operands that do not hold while s is n. */
  function Demands(s: Symbol): set<Expr> {
    {Sym(s), Equal(s, SYMBOL_YES), Equal(s, SYMBOL_MOD), Unequal(s, SYMBOL_NO)}
  }

  /** An expression depends on s exactly if one of the operands of its conjunction demands s. */
  lemma {:induction false} DependsSymbolExactly(e: Expr, s: Symbol)
    ensures DependsSymbol(e, s) <==> Operands(And, e) * Demands(s) != {}
  {
    var demands := Demands(s);
    if IsBin(e, And) {
      DependsSymbolExactly(e.left, s);
      DependsSymbolExactly(e.right, s);
      assert Operands(And, e) * demands == Operands(And, e.left) * demands + Operands(And, e.right) * demands;
    } else {
      assert Operands(And, e) * demands == if e in demands then {e} else {};
      assert e in demands <==> DependsSymbol(e, s);
    }
  }

  // ---------------------------------------------------------------- the submenu test

  /** "dep != n", brought into the form the test compares. */
  function NonNo(dep: OptExpr): Expr {
    EliminateDups(Transform(TransCompareOpt(dep, false, SYMBOL_NO)))
  }

  /** The test of menu_finalize: does an entry with dependency dep move below the symbol s whose
      own visibility is base? */
  predicate Absorbs(base: OptExpr, s: Symbol, dep: OptExpr) {
    dep.Some? && ContainsSymbol(dep.e, s)
    && (DependsSymbol(dep.e, s) || EliminateEq(NonNo(dep), NonNo(base)).1 == Sym(SYMBOL_YES))
  }

  /** Simplifying a two-valued expression is exact. */
  lemma NonNoExact(dep: OptExpr, a: Assignment)
    ensures Eval(NonNo(dep), a) == Eval(TransCompareOpt(dep, false, SYMBOL_NO), a)
  {
    var c := TransCompareOpt(dep, false, SYMBOL_NO);
    if dep.Some? {
      TransCompareTwoValued(dep.e, false, SYMBOL_NO, a);
    }
    TransformExact(c, a);
    EliminateDupsOnlyMod(Transform(c), a);
  }

  /** A missing expression is y. */
  predicate OptReads(x: OptExpr, a: Assignment) {
    x.Some? ==> Reads(x.e, SYMBOL_NO, a)
  }

  /** Whatever the symbols are, cancelling NonNo(base) down to y means that base is read as true where
      dep is. */
  lemma CancelledTestImplies(base: OptExpr, dep: OptExpr, a: Assignment)
    requires EliminateEq(NonNo(dep), NonNo(base)).1 == Sym(SYMBOL_YES)
    ensures OptReads(dep, a) ==> OptReads(base, a)
  {
    EliminateEqToYes(NonNo(dep), NonNo(base), a);
    NonNoExact(dep, a);
    NonNoExact(base, a);
    OptCompareReads(dep, a);
    OptCompareReads(base, a);
  }

  lemma OptCompareReads(x: OptExpr, a: Assignment)
    ensures Eval(TransCompareOpt(x, false, SYMBOL_NO), a) == TriBool(OptReads(x, a))
  {
    if x.Some? {
      TransCompareReads(x.e, false, SYMBOL_NO, a);
    }
  }

  /** An entry that needs neither the symbol it is moved below nor that symbol's visibility. */
  predicate Detached(base: OptExpr, s: Symbol, dep: Expr, a: Assignment) {
    Eval(dep, a) != NO && OptEval(And, base, a) == NO && SymText(s, a) == N
  }

  /** What licenses the move. For every accepted entry that is visible, the symbol it moves below is
      visible too or not n, unless the dependency is m and read as n. */
  lemma AbsorbedEntryNeedsParent(base: OptExpr, s: Symbol, dep: OptExpr, a: Assignment)
    requires Absorbs(base, s, dep)
    requires Conditions(dep.e, a) && (base.Some? ==> Conditions(base.e, a))
    ensures Detached(base, s, dep.e, a) ==> Eval(dep.e, a) == MOD && !Reads(dep.e, SYMBOL_NO, a)
    ensures Detached(base, s, dep.e, a) ==> !DependsSymbol(dep.e, s)
  {
    if DependsSymbol(dep.e, s) && Eval(dep.e, a) != NO {
      DependsSymbolSound(dep.e, s, a);
    }
    ReadsOnlyMod(dep.e, SYMBOL_NO, a);
    if !DependsSymbol(dep.e, s) {
      CancelledTestImplies(base, dep, a);
      if base.Some? {
        ReadsOnlyMod(base.e, SYMBOL_NO, a);
      }
    }
  }

  /** Without an m below a NOT that leaves nothing. */
  lemma ComparableNotDetached(base: OptExpr, s: Symbol, dep: OptExpr, a: Assignment)
    requires Absorbs(base, s, dep)
    requires Comparable(dep.e, a) && (base.Some? ==> Conditions(base.e, a))
    ensures !Detached(base, s, dep.e, a)
  {
    ComparableConditions(dep.e, a);
    AbsorbedEntryNeedsParent(base, s, dep, a);
    TransCompareExact(dep.e, false, SYMBOL_NO, a);
    TransCompareReads(dep.e, false, SYMBOL_NO, a);
  }

  lemma {:induction false} ComparableConditions(e: Expr, a: Assignment)
    requires Comparable(e, a)
    ensures Conditions(e, a)
  {
    match e
    case Bin(_, l, r) =>
      ComparableConditions(l, a);
      ComparableConditions(r, a);
    case Not(x) => ComparableConditions(x, a);
    case _ =>
  }

  // ---------------------------------------------------------------- an entry that is detached

  predicate TwoTristates(t: Symbol, s: Symbol) {
    t.Config? && t.ty == SymType.Tristate && s.Config? && s.ty == SymType.Tristate && t.id != s.id
  }

  /** T=n && S=n is left alone by the simplifier. */
  lemma BothNo(t: Symbol, s: Symbol)
    requires TwoTristates(t, s)
    ensures var e := Bin(And, Equal(t, SYMBOL_NO), Equal(s, SYMBOL_NO)); EliminateDups(e) == e
  {
    var x, y := Equal(t, SYMBOL_NO), Equal(s, SYMBOL_NO);
    var e := Bin(And, x, y);
    FourPairs(And, x, y);
    var a := Assignment(_ => NO, _ => N);
    assert Eval(x, a) == YES && Eval(y, a) == YES;
    assert Eval(e, a) == YES;
    assert CanBe(e, YES);
    Dups2Silent(And, e, Here, Here);
    assert Round(e).count == 0;
  }

  /** The test accepts an entry with the dependency !T && S=n below a symbol S that is visible while T=n. */
  lemma AcceptedEntry(t: Symbol, s: Symbol)
    requires TwoTristates(t, s)
    ensures Absorbs(Some(Equal(t, SYMBOL_NO)), s, Some(Bin(And, Not(Sym(t)), Equal(s, SYMBOL_NO))))
  {
    var x, y := Equal(t, SYMBOL_NO), Equal(s, SYMBOL_NO);
    var base, dep := Some(x), Bin(And, Not(Sym(t)), y);
    ComparedForms(t, s);
    BothNo(t, s);
    assert NonNo(base) == x;
    assert NonNo(Some(dep)) == Bin(And, x, y);
    CancelsToYes(x, y);
  }

  /** How that dependency and that visibility are evaluated with T=m and S=n. */
  lemma EntryValues(t: Symbol, s: Symbol, a: Assignment)
    requires TwoTristates(t, s) && a.tri(t.id) == MOD && a.tri(s.id) == NO
    ensures SymTri(t, a) == MOD && SymText(t, a) == M && SymText(s, a) == N
    ensures Eval(Not(Sym(t)), a) == MOD && Eval(Equal(s, SYMBOL_NO), a) == YES && Eval(Equal(t, SYMBOL_NO), a) == NO
  {}

  /** Moving that entry: the test accepts it, and with T=m and S=n the entry is visible although S is
      neither visible nor set. */
  lemma DetachedEntry(t: Symbol, s: Symbol, a: Assignment)
    requires TwoTristates(t, s) && a.tri(t.id) == MOD && a.tri(s.id) == NO
    ensures var base, dep := Some(Equal(t, SYMBOL_NO)), Bin(And, Not(Sym(t)), Equal(s, SYMBOL_NO));
            Absorbs(base, s, Some(dep)) && Conditions(dep, a) && Detached(base, s, dep, a)
  {
    AcceptedEntry(t, s);
    EntryValues(t, s, a);
  }

  lemma ComparedForms(t: Symbol, s: Symbol)
    requires TwoTristates(t, s)
    ensures var x, y := Equal(t, SYMBOL_NO), Equal(s, SYMBOL_NO);
            && Transform(TransCompare(Bin(And, Not(Sym(t)), y), false, SYMBOL_NO)) == Bin(And, x, y)
            && Transform(TransCompare(x, false, SYMBOL_NO)) == x
  {
    var x, y := Equal(t, SYMBOL_NO), Equal(s, SYMBOL_NO);
    var u, v := Unequal(t, SYMBOL_NO), Not(y);
    assert TransCompare(Not(Sym(t)), true, SYMBOL_NO) == u && TransCompare(y, true, SYMBOL_NO) == v;
    assert TransCompare(Bin(And, Not(Sym(t)), y), false, SYMBOL_NO) == Not(Bin(Or, u, v));
    assert Transform(y) == y && Transform(v) == Unequal(s, SYMBOL_NO) && Transform(u) == u;
    assert Transform(Not(u)) == x && Transform(Not(Unequal(s, SYMBOL_NO))) == y;
  }

  lemma CancelsToYes(x: Expr, y: Expr)
    requires x.Equal? && y.Equal?
    ensures EliminateEq(Bin(And, x, y), x).1 == Sym(SYMBOL_YES)
  {
    var yes := Sym(SYMBOL_YES);
    assert ExprEq(x, x) && !ExprEq(y, yes);
    assert CancelEq(And, x, x) == (yes, yes) && CancelEq(And, y, yes) == (y, yes);
  }
}
