/**
 Configuration symbols: what their declarations define their values to be (symbol.c). The
 definition is recursive over the symbols a declaration depends on; it needs no cache. Symbols are
 numbered; a choice, and int, hex and string symbols, are not part of this model.
 */
module SymbolTable {
  import opened Tristate
  import opened Exprs
  import opened ExprEquality

  datatype PropType = Prompt | Comment | Menu | Default | Select | Choice | Range | Env | Declared

  /** A property of a symbol; it has a prompt if hasText. */
  datatype Prop = Prop(ty: PropType, hasText: bool, visible: OptExpr, expr: OptExpr)

  datatype Decl = Decl(ty: SymType, name: Text, props: seq<Prop>, dirDep: OptExpr, revDep: OptExpr)

  /** The declarations, the user's values, and the value of the modules symbol. */
  datatype Table = Table(decls: seq<Decl>, users: seq<OptTri>, modules: Tri)

  datatype OptTri = NoValue | Value(tri: Tri)

  // ---------------------------------------------------------------- which symbols are mentioned

  function SymIds(s: Symbol): set<nat> {
    if s.Config? then {s.id} else {}
  }

  function Ids(e: Expr): set<nat> {
    match e
    case Sym(s) => SymIds(s)
    case Not(x) => Ids(x)
    case Equal(l, r) => SymIds(l) + SymIds(r)
    case Unequal(l, r) => SymIds(l) + SymIds(r)
    case Bin(_, l, r) => Ids(l) + Ids(r)
  }

  function OptIds(e: OptExpr): set<nat> {
    if e.Some? then Ids(e.e) else {}
  }

  /** The symbols that evaluating a property may look at. */
  function PropIds(p: Prop): set<nat> {
    (if p.hasText || p.ty == Default then OptIds(p.visible) else {})
    + (if p.ty == Default then OptIds(p.expr) else {})
  }

  ghost predicate DependsOn(d: Decl, j: nat) {
    j in OptIds(d.dirDep) || j in OptIds(d.revDep) || exists k :: 0 <= k < |d.props| && j in PropIds(d.props[k])
  }

  // ---------------------------------------------------------------- references are to declared symbols

  predicate SymOk(decls: seq<Decl>, s: Symbol) {
    s.Config? ==> s.id < |decls| && decls[s.id].ty == s.ty
  }

  predicate ExprOk(decls: seq<Decl>, e: Expr) {
    match e
    case Sym(s) => SymOk(decls, s)
    case Not(x) => ExprOk(decls, x)
    case Equal(l, r) => SymOk(decls, l) && SymOk(decls, r)
    case Unequal(l, r) => SymOk(decls, l) && SymOk(decls, r)
    case Bin(_, l, r) => ExprOk(decls, l) && ExprOk(decls, r)
  }

  predicate OptOk(decls: seq<Decl>, e: OptExpr) {
    e.Some? ==> ExprOk(decls, e.e)
  }

  predicate PropOk(decls: seq<Decl>, p: Prop) {
    OptOk(decls, p.visible) && OptOk(decls, p.expr)
  }

  predicate DeclOk(decls: seq<Decl>, d: Decl) {
    && d.ty in {SymType.Unknown, SymType.Boolean, SymType.Tristate}
    && OptOk(decls, d.dirDep) && OptOk(decls, d.revDep)
    && forall k :: 0 <= k < |d.props| ==> PropOk(decls, d.props[k])
  }

  predicate DeclsOk(decls: seq<Decl>) {
    forall i {:trigger decls[i]} :: 0 <= i < |decls| ==> DeclOk(decls, decls[i])
  }

  // ---------------------------------------------------------------- one declaration

  /** sym_get_type: without modules a tristate is a boolean. */
  function EffectiveType(ty: SymType, modules: Tri): SymType {
    if ty == SymType.Tristate && modules == NO then Boolean else ty
  }

  function Lift(t: Tri, isBoolean: bool): Tri {
    if t == MOD && isBoolean then YES else t
  }

  /** The best visibility among the prompts. */
  function PromptsVisible(props: seq<Prop>, a: Assignment): Tri {
    if props == [] then NO
    else
      var n := |props| - 1;
      var rest := PromptsVisible(props[..n], a);
      if props[n].hasText then TriOr(rest, OptEval(And, props[n].visible, a)) else rest
  }

  /** The first default from k on that is not invisible, or the number of properties. */
  function FirstDefault(props: seq<Prop>, k: nat, a: Assignment): (r: nat)
    requires k <= |props|
    ensures k <= r <= |props|
    decreases |props| - k
  {
    if k == |props| || (props[k].ty == Default && OptEval(And, props[k].visible, a) != NO) then k
    else FirstDefault(props, k + 1, a)
  }

  function DefaultValue(props: seq<Prop>, a: Assignment): Tri {
    var k := FirstDefault(props, 0, a);
    if k == |props| then NO
    else TriAnd(OptEval(And, props[k].expr, a), OptEval(And, props[k].visible, a))
  }

  function IsBool(d: Decl, modules: Tri): bool {
    EffectiveType(d.ty, modules) == Boolean
  }

  function Visibility(d: Decl, modules: Tri, a: Assignment): Tri {
    Lift(PromptsVisible(d.props, a), IsBool(d, modules))
  }

  function Selected(d: Decl, modules: Tri, a: Assignment): Tri {
    Lift(OptEval(Or, d.revDep, a), IsBool(d, modules))
  }

  function DirectDep(d: Decl, a: Assignment): Tri {
    Lift(OptEval(And, d.dirDep, a), true)
  }

  /** The user's value within the visibility, or the default; raised to what other symbols select. */
  function TriOf(d: Decl, user: OptTri, modules: Tri, a: Assignment): Tri {
    var visible := Visibility(d, modules, a);
    var own := if visible != NO && user.Value? then TriAnd(user.tri, visible) else DefaultValue(d.props, a);
    Lift(TriOr(own, Selected(d, modules, a)), IsBool(d, modules))
  }

  /** Whether the symbol is written to the configuration. */
  predicate Written(d: Decl, user: OptTri, modules: Tri, a: Assignment) {
    || Visibility(d, modules, a) != NO
    || Selected(d, modules, a) != NO
    || FirstDefault(d.props, 0, a) < |d.props|
  }

  // ---------------------------------------------------------------- locality

  ghost predicate Agree(a: Assignment, b: Assignment, ids: set<nat>) {
    forall j :: j in ids ==> a.tri(j) == b.tri(j) && a.text(j) == b.text(j)
  }

  lemma {:induction false} EvalLocal(e: Expr, a: Assignment, b: Assignment)
    requires Agree(a, b, Ids(e))
    ensures Eval(e, a) == Eval(e, b)
  {
    match e
    case Not(x) => EvalLocal(x, a, b);
    case Bin(_, l, r) =>
      EvalLocal(l, a, b);
      EvalLocal(r, a, b);
    case Sym(s) => SymLocal(s, a, b);
    case Equal(l, r) =>
      SymLocal(l, a, b);
      SymLocal(r, a, b);
    case Unequal(l, r) =>
      SymLocal(l, a, b);
      SymLocal(r, a, b);
  }

  lemma SymLocal(s: Symbol, a: Assignment, b: Assignment)
    requires Agree(a, b, SymIds(s))
    ensures SymTri(s, a) == SymTri(s, b) && SymText(s, a) == SymText(s, b)
  {
    if s.Config? {
      assert s.id in SymIds(s);
    }
  }

  lemma OptLocal(op: Op, e: OptExpr, a: Assignment, b: Assignment)
    requires Agree(a, b, OptIds(e))
    ensures OptEval(op, e, a) == OptEval(op, e, b)
  {
    if e.Some? {
      EvalLocal(e.e, a, b);
    }
  }

  ghost predicate AgreeOnProps(a: Assignment, b: Assignment, props: seq<Prop>) {
    forall k {:trigger PropIds(props[k])} :: 0 <= k < |props| ==> Agree(a, b, PropIds(props[k]))
  }

  lemma {:induction false} PromptsLocal(props: seq<Prop>, a: Assignment, b: Assignment)
    requires AgreeOnProps(a, b, props)
    ensures PromptsVisible(props, a) == PromptsVisible(props, b)
  {
    if props != [] {
      var n := |props| - 1;
      forall k | 0 <= k < n
        ensures Agree(a, b, PropIds(props[..n][k]))
      {
        assert Agree(a, b, PropIds(props[k]));
      }
      PromptsLocal(props[..n], a, b);
      assert Agree(a, b, PropIds(props[n]));
      if props[n].hasText {
        OptLocal(And, props[n].visible, a, b);
      }
    }
  }

  lemma {:induction false} DefaultsLocal(props: seq<Prop>, k: nat, a: Assignment, b: Assignment)
    requires AgreeOnProps(a, b, props) && k <= |props|
    ensures FirstDefault(props, k, a) == FirstDefault(props, k, b)
    decreases |props| - k
  {
    if k < |props| {
      assert Agree(a, b, PropIds(props[k]));
      if props[k].ty == Default {
        OptLocal(And, props[k].visible, a, b);
      }
      DefaultsLocal(props, k + 1, a, b);
    }
  }

  ghost predicate SameOutcome(d: Decl, user: OptTri, modules: Tri, a: Assignment, b: Assignment) {
    && Visibility(d, modules, a) == Visibility(d, modules, b)
    && Selected(d, modules, a) == Selected(d, modules, b)
    && DirectDep(d, a) == DirectDep(d, b)
    && TriOf(d, user, modules, a) == TriOf(d, user, modules, b)
    && Written(d, user, modules, a) == Written(d, user, modules, b)
  }

  /** A symbol's value is settled by the symbols it depends on. */
  lemma DeclLocal(d: Decl, user: OptTri, modules: Tri, a: Assignment, b: Assignment)
    requires forall j :: DependsOn(d, j) ==> a.tri(j) == b.tri(j) && a.text(j) == b.text(j)
    ensures SameOutcome(d, user, modules, a, b)
  {
    forall k | 0 <= k < |d.props|
      ensures Agree(a, b, PropIds(d.props[k]))
    {
      forall j | j in PropIds(d.props[k])
        ensures a.tri(j) == b.tri(j) && a.text(j) == b.text(j)
      {
        assert DependsOn(d, j);
      }
    }
    PromptsLocal(d.props, a, b);
    DefaultsLocal(d.props, 0, a, b);
    var k := FirstDefault(d.props, 0, a);
    if k < |d.props| {
      FirstDefaultIsDefault(d.props, 0, a);
      assert Agree(a, b, PropIds(d.props[k]));
      OptLocal(And, d.props[k].visible, a, b);
      OptLocal(And, d.props[k].expr, a, b);
    }
    assert Agree(a, b, OptIds(d.dirDep)) && Agree(a, b, OptIds(d.revDep));
    OptLocal(And, d.dirDep, a, b);
    OptLocal(Or, d.revDep, a, b);
  }

  lemma {:induction false} FirstDefaultIsDefault(props: seq<Prop>, k: nat, a: Assignment)
    requires k <= |props|
    ensures var r := FirstDefault(props, k, a);
            r < |props| ==> props[r].ty == Default && OptEval(And, props[r].visible, a) != NO
    decreases |props| - k
  {
    if k < |props| {
      FirstDefaultIsDefault(props, k + 1, a);
    }
  }

  // ---------------------------------------------------------------- the recursive definition

  /** A table without cyclic dependencies, and ranks that show it. */
  datatype Ranked = Ranked(t: Table, rank: seq<nat>) {
    predicate Sized() {
      |rank| == |t.decls| == |t.users| && DeclsOk(t.decls)
    }

    ghost predicate Valid() {
      && Sized()
      && forall i, j: nat {:trigger DependsOn(t.decls[i], j)} ::
           0 <= i < |t.decls| && DependsOn(t.decls[i], j) ==> j < |t.decls| && rank[j] < rank[i]
    }

    /** The value of symbol i: no cache and no flags. */
    ghost function TriAt(i: nat): (v: Tri)
      requires Sized() && i < |t.decls|
      decreases rank[i]
    {
      var d := t.decls[i];
      if d.ty == SymType.Unknown then NO else TriOf(d, t.users[i], t.modules, Below(rank[i]))
    }

    /** The values of the symbols of smaller rank. */
    ghost function Below(r: nat): Assignment
      requires Sized()
      decreases r, 0
    {
      Assignment((j: nat) => if j < |t.decls| && rank[j] < r then TriAt(j) else NO, (j: nat) => TextAt(j))
    }

    function TextAt(j: nat): Text {
      if j < |t.decls| then t.decls[j].name else N
    }

    /** The values of all symbols. */
    ghost function All(): Assignment
      requires Sized()
    {
      Assignment((j: nat) => if j < |t.decls| then TriAt(j) else NO, (j: nat) => TextAt(j))
    }

    /** The definition really is a fixed point: every symbol has the value its declaration gives it
        when all symbols have theirs. */
    lemma FixedPoint(i: nat)
      requires Valid() && i < |t.decls| && t.decls[i].ty != SymType.Unknown
      ensures TriAt(i) == TriOf(t.decls[i], t.users[i], t.modules, All())
    {
      DeclLocal(t.decls[i], t.users[i], t.modules, Below(rank[i]), All());
    }

    /** It is the only one. */
    lemma {:induction false} FixedPointUnique(f: nat -> Tri, i: nat)
      requires Valid() && i < |t.decls|
      requires var a := Assignment(f, (j: nat) => TextAt(j));
               forall k {:trigger f(k)} :: 0 <= k < |t.decls| ==>
                 f(k) == if t.decls[k].ty == SymType.Unknown then NO
                         else TriOf(t.decls[k], t.users[k], t.modules, a)
      ensures f(i) == TriAt(i)
      decreases rank[i]
    {
      var a := Assignment(f, (j: nat) => TextAt(j));
      forall j | DependsOn(t.decls[i], j)
        ensures f(j) == All().tri(j)
      {
        FixedPointUnique(f, j);
      }
      DeclLocal(t.decls[i], t.users[i], t.modules, a, All());
      if t.decls[i].ty != SymType.Unknown {
        FixedPoint(i);
      }
    }

    /** A boolean is never m, nor is a tristate without modules. */
    lemma NeverMod(i: nat)
      requires Sized() && i < |t.decls| && IsBool(t.decls[i], t.modules)
      ensures TriAt(i) != MOD
    {}
  }
}
