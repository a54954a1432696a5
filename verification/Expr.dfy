/**
 Kconfig expressions, their value under an assignment of the symbols, and the two
 rewrites that look at one expression only: removing constant operands
 (expr_eliminate_yn) and pushing negations to the leaves (expr_transform).
 */
module Exprs {
  import opened Tristate

  /** A symbol's string value. The three one-letter names are singled out; Other stands for any
      other string. */
  datatype Text = N | M | Y | Other(s: string)

  datatype SymType = Unknown | Boolean | Tristate | Int | Hex | String

  /** Symbols are compared by identity in the source. A constant is identified by its name, a
      configuration symbol by its number. */
  datatype Symbol = Const(name: Text) | Config(id: nat, ty: SymType) {
    function Type(): SymType {
      if Const? then Unknown else ty
    }

    /** The symbols whose value is a tristate rather than a string. */
    predicate IsTristate() {
      Type() == Boolean || Type() == Tristate
    }
  }

  const SYMBOL_YES := Const(Y)
  const SYMBOL_MOD := Const(M)
  const SYMBOL_NO := Const(N)

  datatype Op = And | Or

  datatype Expr =
    | Sym(sym: Symbol)
    | Not(arg: Expr)
    | Equal(l: Symbol, r: Symbol)
    | Unequal(l: Symbol, r: Symbol)
    | Bin(op: Op, left: Expr, right: Expr)

  // ---------------------------------------------------------------- values

  /** Arbitrary contents of every configuration symbol. */
  datatype Assignment = Assignment(tri: nat -> Tri, text: nat -> Text)

  function TriText(t: Tri): Text {
    if t == NO then N else if t == MOD then M else Y
  }

  /** curr.tri of a symbol: a boolean is never m, only booleans and tristates are ever nonzero
      apart from the constants y and m. */
  function SymTri(s: Symbol, a: Assignment): Tri {
    match s
    case Const(t) => if t == Y then YES else if t == M then MOD else NO
    case Config(id, ty) =>
      if ty == Boolean then TriBool(a.tri(id) != NO)
      else if ty == SymType.Tristate then a.tri(id)
      else NO
  }

  /** sym_get_string_value. */
  function SymText(s: Symbol, a: Assignment): Text {
    match s
    case Const(t) => t
    case Config(id, ty) => if s.IsTristate() then TriText(SymTri(s, a)) else a.text(id)
  }

  function Apply(op: Op, x: Tri, y: Tri): Tri {
    if op == And then TriAnd(x, y) else TriOr(x, y)
  }

  /** expr_calc_value, once every symbol has its value. */
  function Eval(e: Expr, a: Assignment): Tri {
    match e
    case Sym(s) => SymTri(s, a)
    case Not(x) => TriNot(Eval(x, a))
    case Equal(l, r) => TriBool(SymText(l, a) == SymText(r, a))
    case Unequal(l, r) => TriBool(SymText(l, a) != SymText(r, a))
    case Bin(op, l, r) => Apply(op, Eval(l, a), Eval(r, a))
  }

  function NeutralSym(op: Op): Symbol {
    if op == And then SYMBOL_YES else SYMBOL_NO
  }

  function AbsorbSym(op: Op): Symbol {
    if op == And then SYMBOL_NO else SYMBOL_YES
  }

  function Neutral(op: Op): Tri { if op == And then YES else NO }

  lemma ApplyRegroup(op: Op, x: Tri, y: Tri, u: Tri, v: Tri)
    ensures Apply(op, Apply(op, x, u), Apply(op, y, v)) == Apply(op, Apply(op, x, y), Apply(op, u, v))
  {}

  lemma ApplyAssoc(op: Op, x: Tri, y: Tri, z: Tri)
    ensures Apply(op, x, Apply(op, y, z)) == Apply(op, Apply(op, x, y), z)
  {}

  lemma ApplyMonotone(op: Op, x: Tri, u: Tri, v: Tri)
    requires u <= v
    ensures Apply(op, x, u) <= Apply(op, x, v)
  {}

  predicate IsBin(e: Expr, op: Op) {
    e.Bin? && e.op == op
  }

  /** Both expressions carry the same node type. */
  predicate SameType(x: Expr, y: Expr) {
    match (x, y)
    case (Sym(_), Sym(_)) => true
    case (Not(_), Not(_)) => true
    case (Equal(_, _), Equal(_, _)) => true
    case (Unequal(_, _), Unequal(_, _)) => true
    case (Bin(o, _, _), Bin(o', _, _)) => o == o'
    case _ => false
  }

  /** A comparison of, or a reference to, one symbol. */
  predicate IsLeaf(e: Expr) {
    e.Sym? || e.Equal? || e.Unequal?
  }

  function Size(e: Expr): (n: nat)
    ensures n >= 1
  {
    match e
    case Not(x) => 1 + Size(x)
    case Bin(_, l, r) => 1 + Size(l) + Size(r)
    case _ => 1
  }

  // ---------------------------------------------------------------- expr_eliminate_yn

  function EliminateYn(e: Expr): (r: Expr)
    ensures Size(r) <= Size(e)
  {
    match e
    case Bin(op, l, r) =>
      var l', r' := EliminateYn(l), EliminateYn(r);
      if l' == Sym(AbsorbSym(op)) then Sym(AbsorbSym(op))
      else if l' == Sym(NeutralSym(op)) then r'
      else if r' == Sym(AbsorbSym(op)) then Sym(AbsorbSym(op))
      else if r' == Sym(NeutralSym(op)) then l'
      else Bin(op, l', r')
    case _ => e
  }

  /** Some and/or node, reachable through and/or nodes only, has a constant y or n operand. */
  predicate HasYn(e: Expr) {
    e.Bin? && (IsYn(e.left) || IsYn(e.right) || HasYn(e.left) || HasYn(e.right))
  }

  predicate IsYn(e: Expr) {
    e == Sym(SYMBOL_YES) || e == Sym(SYMBOL_NO)
  }

  lemma {:induction false} EliminateYnExact(e: Expr, a: Assignment)
    ensures Eval(EliminateYn(e), a) == Eval(e, a)
  {
    if e.Bin? {
      EliminateYnExact(e.left, a);
      EliminateYnExact(e.right, a);
    }
  }

  /** Constant operands are all gone afterwards, and removing one makes the expression smaller. */
  lemma {:induction false} EliminateYnRemovesAll(e: Expr)
    ensures !HasYn(EliminateYn(e))
    ensures HasYn(e) <==> Size(EliminateYn(e)) < Size(e)
    ensures !HasYn(e) ==> EliminateYn(e) == e
  {
    if e.Bin? {
      EliminateYnRemovesAll(e.left);
      EliminateYnRemovesAll(e.right);
    }
  }

  // ---------------------------------------------------------------- expr_transform

  function Leaves(e: Expr): (n: nat)
    ensures n >= 1
  {
    match e
    case Not(x) => Leaves(x)
    case Bin(_, l, r) => Leaves(l) + Leaves(r)
    case _ => 1
  }

  function LeadingNots(e: Expr): nat {
    if e.Not? then 1 + LeadingNots(e.arg) else 0
  }

  predicate IsTriConst(s: Symbol) {
    s == SYMBOL_YES || s == SYMBOL_MOD || s == SYMBOL_NO
  }

  function Dual(op: Op): Op { if op == And then Or else And }

  /** The leaf cases of expr_transform: a boolean compared with y, m or n. */
  function TransformLeaf(e: Expr): (r: Expr)
    requires IsLeaf(e)
    ensures Normal(r) && Leaves(r) == 1
  {
    match e
    case Equal(l, r) =>
      if l.Type() != Boolean then e
      else if r == SYMBOL_NO then Not(Sym(l))
      else if r == SYMBOL_MOD then Sym(SYMBOL_NO)
      else if r == SYMBOL_YES then Sym(l)
      else e
    case Unequal(l, r) =>
      if l.Type() != Boolean then e
      else if r == SYMBOL_NO then Sym(l)
      else if r == SYMBOL_MOD then Sym(SYMBOL_YES)
      else if r == SYMBOL_YES then Not(Sym(l))
      else e
    case _ => e
  }

  lemma DeMorganLeaves(op: Op, l: Expr, r: Expr)
    ensures Leaves(Bin(Dual(op), Not(l), Not(r))) == Leaves(Bin(op, l, r))
  {
    assert Leaves(Not(l)) == Leaves(l) && Leaves(Not(r)) == Leaves(r);
  }

  /** expr_transform. The operands are transformed first, then the node itself; a De Morgan step
      makes a larger tree and transforms that again. */
  function Transform(e: Expr): (r: Expr)
    ensures Normal(r) && Leaves(r) == Leaves(e)
    decreases Leaves(e), LeadingNots(e)
  {
    match e
    case Bin(op, l, r) => Bin(op, Transform(l), Transform(r))
    case Not(x) =>
      var x' := Transform(x);
      (match x'
       case Not(y) => Transform(y)
       case Equal(l, r) => Unequal(l, r)
       case Unequal(l, r) => Equal(l, r)
       case Bin(op, l, r) =>
         DeMorganLeaves(op, l, r);
         Transform(Bin(Dual(op), Not(l), Not(r)))
       case Sym(s) =>
         if s == SYMBOL_YES then Sym(SYMBOL_NO)
         else if s == SYMBOL_MOD then Sym(SYMBOL_MOD)
         else if s == SYMBOL_NO then Sym(SYMBOL_YES)
         else Not(x'))
    case _ => TransformLeaf(e)
  }

  /** Negation stands only directly above symbols other than y, m and n, and no boolean is
      compared with one of those. */
  predicate Normal(e: Expr) {
    match e
    case Sym(_) => true
    case Not(x) => x.Sym? && !IsTriConst(x.sym)
    case Equal(l, r) => !(l.Type() == Boolean && IsTriConst(r))
    case Unequal(l, r) => !(l.Type() == Boolean && IsTriConst(r))
    case Bin(_, l, r) => Normal(l) && Normal(r)
  }

  lemma {:induction false} TransformExact(e: Expr, a: Assignment)
    ensures Eval(Transform(e), a) == Eval(e, a)
    decreases Leaves(e), LeadingNots(e)
  {
    match e
    case Bin(op, l, r) =>
      TransformExact(l, a);
      TransformExact(r, a);
    case Not(x) =>
      TransformExact(x, a);
      var x' := Transform(x);
      match x' {
        case Not(y) => TransformExact(y, a);
        case Bin(op, l, r) =>
          DeMorganLeaves(op, l, r);
          TransformExact(Bin(Dual(op), Not(l), Not(r)), a);
        case _ =>
      }
    case _ =>
  }

  lemma {:induction false} TransformKeepsNormal(e: Expr)
    requires Normal(e)
    ensures Transform(e) == e
  {
    if e.Bin? {
      TransformKeepsNormal(e.left);
      TransformKeepsNormal(e.right);
    }
  }

  lemma TransformIdempotent(e: Expr)
    ensures Transform(Transform(e)) == Transform(e)
  {
    TransformKeepsNormal(Transform(e));
  }

  // ---------------------------------------------------------------- expr_trans_bool

  /** expr_trans_bool: FOO!=n becomes FOO for a tristate FOO. */
  function TransBool(e: Expr): Expr {
    match e
    case Bin(op, l, r) => Bin(op, TransBool(l), TransBool(r))
    case Not(x) => Not(TransBool(x))
    case Unequal(l, r) => if l.Type() == SymType.Tristate && r == SYMBOL_NO then Sym(l) else e
    case _ => e
  }

  /** On the transformed dependencies it is applied to, it keeps whether the value is n. */
  lemma {:induction false} TransBoolKeepsVisibility(e: Expr, a: Assignment)
    requires Normal(e)
    ensures Eval(TransBool(e), a) != NO <==> Eval(e, a) != NO
  {
    if e.Bin? {
      TransBoolKeepsVisibility(e.left, a);
      TransBoolKeepsVisibility(e.right, a);
    }
  }

  /** No tristate is compared with n any more. */
  predicate NoTriCompare(e: Expr) {
    match e
    case Unequal(l, r) => !(l.Type() == SymType.Tristate && r == SYMBOL_NO)
    case Not(x) => NoTriCompare(x)
    case Bin(_, l, r) => NoTriCompare(l) && NoTriCompare(r)
    case _ => true
  }

  lemma {:induction false} TransBoolReplacesAll(e: Expr)
    ensures NoTriCompare(TransBool(e))
    ensures NoTriCompare(e) ==> TransBool(e) == e
  {
    match e
    case Bin(_, l, r) =>
      TransBoolReplacesAll(l);
      TransBoolReplacesAll(r);
    case Not(x) => TransBoolReplacesAll(x);
    case _ =>
  }
}
