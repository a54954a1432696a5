/** sym_check_deps of symbol.c: a depth-first search for recursive dependencies. */
module SymbolCheck {
  import opened Tristate
  import opened Exprs
  import opened ExprEquality
  import opened SymbolTable

  datatype OptSym = NoSym | TheSym(id: nat)

  // ---------------------------------------------------------------- the graph that is walked

  predicate Skipped(p: Prop) {
    p.ty == PropType.Choice || p.ty == Select
  }

  function WalkIds(p: Prop): set<nat> {
    if Skipped(p) then {}
    else OptIds(p.visible) + if p.ty == Default then OptIds(p.expr) else {}
  }

  /** The search goes from a symbol to what can select it, to what its properties depend on and to its
      defaults; not to its direct dependencies. */
  ghost predicate Walks(d: Decl, j: nat) {
    j in OptIds(d.revDep) || exists k :: 0 <= k < |d.props| && j in WalkIds(d.props[k])
  }

  ghost predicate Edge(decls: seq<Decl>, p: seq<nat>, k: nat)
    requires k + 1 < |p| && p[k] < |decls|
  {
    Walks(decls[p[k]], p[k + 1])
  }

  ghost predicate IsWalk(decls: seq<Decl>, p: seq<nat>) {
    && (forall k :: 0 <= k < |p| ==> p[k] < |decls|)
    && (forall k {:trigger Edge(decls, p, k)} :: 0 <= k < |p| - 1 ==> Edge(decls, p, k))
  }

  /** A recursive dependency. */
  ghost predicate IsCycle(decls: seq<Decl>, c: seq<nat>) {
    c != [] && IsWalk(decls, c) && Walks(decls[c[|c| - 1]], c[0])
  }

  lemma WalkSuffix(decls: seq<Decl>, p: seq<nat>, k: nat)
    requires IsWalk(decls, p) && k <= |p|
    ensures IsWalk(decls, p[k..])
  {
    forall n | 0 <= n < |p| - k - 1
      ensures Edge(decls, p[k..], n)
    {
      assert Edge(decls, p, k + n);
    }
  }

  lemma WalkExtend(decls: seq<Decl>, p: seq<nat>, s: nat)
    requires IsWalk(decls, p) && s < |decls| && (p != [] ==> Walks(decls[p[|p| - 1]], s))
    ensures IsWalk(decls, p + [s])
  {
    forall n | 0 <= n < |p|
      ensures Edge(decls, p + [s], n)
    {
      if n < |p| - 1 {
        assert Edge(decls, p, n);
      }
    }
  }

  // ---------------------------------------------------------------- finished symbols

  /** Everything a finished symbol leads to was finished before it. */
  ghost predicate PostOrder(decls: seq<Decl>, done: seq<nat>) {
    && (forall p :: 0 <= p < |done| ==> done[p] < |decls|)
    && (forall p, j {:trigger Walks(decls[done[p]], j)} :: 0 <= p < |done| && Walks(decls[done[p]], j) ==>
          j in done[..p])
  }

  lemma PostOrderAppend(decls: seq<Decl>, done: seq<nat>, s: nat)
    requires PostOrder(decls, done) && s < |decls| && forall j :: Walks(decls[s], j) ==> j in done
    ensures PostOrder(decls, done + [s])
  {
    var done' := done + [s];
    forall p, j | 0 <= p < |done'| && Walks(decls[done'[p]], j)
      ensures j in done'[..p]
    {
      assert done'[..p] == done[..p];
      if p == |done| {
        assert done[..p] == done;
      }
    }
  }

  lemma {:induction false} NoCycleThrough(decls: seq<Decl>, done: seq<nat>, c: seq<nat>, k: nat, p: nat)
    requires PostOrder(decls, done) && IsCycle(decls, c)
    requires k < |c| && p < |done| && done[p] == c[k]
    ensures false
    decreases p
  {
    var next := if k + 1 < |c| then k + 1 else 0;
    if k + 1 < |c| {
      assert Edge(decls, c, k);
    }
    assert Walks(decls[done[p]], c[next]);
    var q :| 0 <= q < p && done[..p][q] == c[next];
    NoCycleThrough(decls, done, c, next, q);
  }

  function Unchecked(checked: seq<bool>): nat {
    if checked == [] then 0 else (if checked[0] then 0 else 1) + Unchecked(checked[1..])
  }

  predicate NoneCleared(before: seq<bool>, after: seq<bool>) {
    |after| == |before| && forall i :: 0 <= i < |before| && before[i] ==> after[i]
  }

  lemma {:induction false} UncheckedFalls(before: seq<bool>, after: seq<bool>)
    requires NoneCleared(before, after)
    ensures Unchecked(after) <= Unchecked(before)
    ensures (exists i :: 0 <= i < |before| && after[i] && !before[i]) ==> Unchecked(after) < Unchecked(before)
  {
    if before != [] {
      UncheckedFalls(before[1..], after[1..]);
      if i :| 0 <= i < |before| && after[i] && !before[i] {
        if i > 0 {
          assert after[1..][i - 1] && !before[1..][i - 1];
        }
      }
    }
  }

  // ---------------------------------------------------------------- the search

  /** path are the symbols being searched. As long as nothing was reported, every symbol that was
      searched is finished. */
  ghost predicate SearchOk(decls: seq<Decl>, path: seq<nat>, check: seq<bool>, checked: seq<bool>,
                           reports: seq<seq<nat>>, done: seq<nat>) {
    && |check| == |checked| == |decls| && IsWalk(decls, path)
    && (forall i :: 0 <= i < |decls| ==> (check[i] <==> i in path))
    && (forall i :: 0 <= i < |decls| && check[i] ==> checked[i])
    && (forall c :: c in reports ==> IsCycle(decls, c))
    && (reports == [] ==> PostOrder(decls, done) && AllDone(check, checked, done))
  }

  ghost predicate AllDone(check: seq<bool>, checked: seq<bool>, done: seq<nat>)
    requires |check| == |checked|
  {
    forall i :: 0 <= i < |check| ==> (i in done <==> checked[i] && !check[i])
  }

  lemma Enter(decls: seq<Decl>, path: seq<nat>, check: seq<bool>, checked: seq<bool>,
              reports: seq<seq<nat>>, done: seq<nat>, s: nat)
    requires SearchOk(decls, path, check, checked, reports, done)
    requires s < |decls| && !check[s] && !checked[s] && (path != [] ==> Walks(decls[path[|path| - 1]], s))
    ensures SearchOk(decls, path + [s], check[s := true], checked[s := true], reports, done)
    ensures NoneCleared(checked, checked[s := true]) && Unchecked(checked[s := true]) < Unchecked(checked)
  {
    WalkExtend(decls, path, s);
    assert checked[s := true][s] && !checked[s];
    UncheckedFalls(checked, checked[s := true]);
  }

  lemma Leave(decls: seq<Decl>, path: seq<nat>, check: seq<bool>, checked: seq<bool>,
              reports: seq<seq<nat>>, done: seq<nat>, s: nat)
    requires SearchOk(decls, path + [s], check, checked, reports, done) && IsWalk(decls, path)
    requires s < |decls| && s !in path && checked[s]
    requires reports == [] ==> forall j :: Walks(decls[s], j) ==> j in done
    ensures SearchOk(decls, path, check[s := false], checked, reports, if reports == [] then done + [s] else done)
  {
    if reports == [] {
      PostOrderAppend(decls, done, s);
    }
  }

  /** The part of the stack from a symbol on that the top leads back to is a cycle. */
  lemma ReportSuffix(decls: seq<Decl>, path: seq<nat>, check: seq<bool>, checked: seq<bool>,
                     reports: seq<seq<nat>>, done: seq<nat>, k: nat)
    requires SearchOk(decls, path, check, checked, reports, done)
    requires k < |path| && Walks(decls[path[|path| - 1]], path[k])
    ensures SearchOk(decls, path, check, checked, reports + [path[k..]], done)
  {
    WalkSuffix(decls, path, k);
    var reports' := reports + [path[k..]];
    forall c | c in reports'
      ensures IsCycle(decls, c)
    {
      assert c in reports || c == path[k..];
    }
  }

  lemma PrefixIn(before: seq<nat>, after: seq<nat>)
    requires before <= after
    ensures forall j :: j in before ==> j in after
  {
    forall j | j in before
      ensures j in after
    {
      var k :| 0 <= k < |before| && before[k] == j;
      assert after[k] == j;
    }
  }

  class DepChecker {
    const decls: seq<Decl>
    var check: seq<bool>          // SYMBOL_CHECK
    var checked: seq<bool>        // SYMBOL_CHECKED
    var stack: seq<nat>           // the list that ends in check_top
    var reports: seq<seq<nat>>    // the cycles printed
    ghost var done: seq<nat>      // symbols searched completely, in the order of completion

    ghost predicate Inv(path: seq<nat>)
      reads this
    {
      DeclsOk(decls) && SearchOk(decls, path, check, checked, reports, done)
    }

    constructor (decls: seq<Decl>)
      requires DeclsOk(decls)
      ensures this.decls == decls && Inv([]) && stack == [] && reports == [] && Unchecked(checked) <= |decls|
    {
      this.decls := decls;
      check, checked := seq(|decls|, _ => false), seq(|decls|, _ => false);
      stack, reports, done := [], [], [];
      new;
      UncheckedAtMost(checked);
    }

    /** What no step of the search undoes. */
    twostate predicate Later()
      reads this
    {
      && stack == old(stack) && check == old(check)
      && NoneCleared(old(checked), checked)
      && old(reports) <= reports && old(done) <= done
    }

    /** sym_check_print_recursive: the part of the stack from the symbol on, searched from the top; a
        symbol that is not on the stack is an error of its own. */
    method PrintRecursive(lastSym: nat) returns (found: bool)
      modifies `reports
      ensures found <==> lastSym in stack
      ensures !found ==> reports == old(reports)
      ensures found ==> exists k :: 0 <= k < |stack| && stack[k] == lastSym && lastSym !in stack[k + 1..]
                                    && reports == old(reports) + [stack[k..]]
      ensures old(Inv(stack)) && (found ==> Walks(decls[stack[|stack| - 1]], lastSym)) ==> Inv(stack)
    {
      var k := |stack|;
      while k > 0 && stack[k - 1] != lastSym
        invariant 0 <= k <= |stack| && lastSym !in stack[k..]
      {
        assert stack[k - 1..] == [stack[k - 1]] + stack[k..];
        k := k - 1;
      }
      if k == 0 {
        return false;
      }
      if Inv(stack) && Walks(decls[stack[|stack| - 1]], lastSym) {
        ReportSuffix(decls, stack, check, checked, reports, done, k - 1);
      }
      reports := reports + [stack[k - 1..]];
      found := true;
    }

    /** sym_check_deps. */
    method CheckDeps(s: nat) returns (r: OptSym)
      requires Inv(stack) && s < |decls| && (stack != [] ==> Walks(decls[stack[|stack| - 1]], s))
      modifies this
      ensures Inv(stack) && Later() && checked[s]
      ensures r.TheSym? ==> r.id in stack && reports != []
      ensures reports == [] ==> s in done
      decreases Unchecked(checked), 0, 0
    {
      if check[s] {
        var found := PrintRecursive(s);
        assert found;
        return TheSym(s);
      }
      if checked[s] {
        return NoSym;
      }
      Enter(decls, stack, check, checked, reports, done, s);
      check, checked := check[s := true], checked[s := true];
      r := CheckSymDeps(s);
      Leave(decls, stack, check, checked, reports, done, s);
      check := check[s := false];
      assert check == old(check);
      if reports == [] {
        done := done + [s];
      }
      if r == TheSym(s) {
        r := NoSym;
      }
    }

    /** sym_check_sym_deps. */
    method CheckSymDeps(s: nat) returns (r: OptSym)
      requires Inv(stack + [s]) && s < |decls|
      modifies this
      ensures Inv(stack + [s]) && Later()
      ensures r.TheSym? ==> r.id in stack + [s] && reports != []
      ensures reports == [] ==> forall j :: Walks(decls[s], j) ==> j in done
      decreases Unchecked(checked), 7, 0
    {
      stack := stack + [s];
      r := CheckOptDeps(decls[s].revDep, s);
      if r == NoSym {
        UncheckedFalls(old(checked), checked);
        r := CheckPropDeps(s);
      }
      stack := stack[..|stack| - 1];
    }

    /** The loop over the properties. */
    method CheckPropDeps(s: nat) returns (r: OptSym)
      requires stack != [] && Inv(stack) && s == stack[|stack| - 1]
      modifies this
      ensures Inv(stack) && Later()
      ensures r.TheSym? ==> r.id in stack && reports != []
      ensures reports == [] ==>
                forall k, j :: 0 <= k < |decls[s].props| && j in WalkIds(decls[s].props[k]) ==> j in done
      decreases Unchecked(checked), 6, 0
    {
      r := NoSym;
      var props, k := decls[s].props, 0;
      while k < |props|
        invariant k <= |props| && Inv(stack) && Later() && r == NoSym
        invariant reports == [] ==> forall n, j :: 0 <= n < k && j in WalkIds(props[n]) ==> j in done
      {
        UncheckedFalls(old(checked), checked);
        assert forall j :: j in WalkIds(props[k]) ==> Walks(decls[s], j);
        ghost var before := done;
        r := CheckProp(props[k], s);
        if r != NoSym {
          return;
        }
        PrefixIn(before, done);
        k := k + 1;
      }
    }

    method CheckProp(p: Prop, ghost s: nat) returns (r: OptSym)
      requires stack != [] && Inv(stack) && s == stack[|stack| - 1] && PropOk(decls, p)
      requires forall j :: j in WalkIds(p) ==> Walks(decls[s], j)
      modifies this
      ensures Inv(stack) && Later()
      ensures r.TheSym? ==> r.id in stack && reports != []
      ensures reports == [] ==> forall j :: j in WalkIds(p) ==> j in done
      decreases Unchecked(checked), 5, 0
    {
      r := NoSym;
      if Skipped(p) {
        return;
      }
      r := CheckOptDeps(p.visible, s);
      if r == NoSym && p.ty == Default {
        UncheckedFalls(old(checked), checked);
        r := CheckOptDeps(p.expr, s);
      }
    }

    method CheckOptDeps(e: OptExpr, ghost s: nat) returns (r: OptSym)
      requires stack != [] && Inv(stack) && s == stack[|stack| - 1] && OptOk(decls, e)
      requires forall j :: j in OptIds(e) ==> Walks(decls[s], j)
      modifies this
      ensures Inv(stack) && Later()
      ensures r.TheSym? ==> r.id in stack && reports != []
      ensures reports == [] ==> forall j :: j in OptIds(e) ==> j in done
      decreases Unchecked(checked), 4, 0
    {
      if e.None? {
        return NoSym;
      }
      r := CheckExprDeps(e.e, s);
    }

    /** sym_check_expr_deps. */
    method CheckExprDeps(e: Expr, ghost s: nat) returns (r: OptSym)
      requires stack != [] && Inv(stack) && s == stack[|stack| - 1] && ExprOk(decls, e)
      requires forall j :: j in Ids(e) ==> Walks(decls[s], j)
      modifies this
      ensures Inv(stack) && Later()
      ensures r.TheSym? ==> r.id in stack && reports != []
      ensures reports == [] ==> forall j :: j in Ids(e) ==> j in done
      decreases Unchecked(checked), 3, e
    {
      match e
      case Bin(_, x, y) =>
        r := CheckExprDeps(x, s);
        if r == NoSym {
          UncheckedFalls(old(checked), checked);
          r := CheckExprDeps(y, s);
        }
      case Not(x) =>
        r := CheckExprDeps(x, s);
      case Equal(x, y) =>
        r := CheckPair(x, y, s);
      case Unequal(x, y) =>
        r := CheckPair(x, y, s);
      case Sym(x) =>
        r := CheckSymbol(x, s);
    }

    method CheckPair(x: Symbol, y: Symbol, ghost s: nat) returns (r: OptSym)
      requires stack != [] && Inv(stack) && s == stack[|stack| - 1] && SymOk(decls, x) && SymOk(decls, y)
      requires forall j :: j in SymIds(x) + SymIds(y) ==> Walks(decls[s], j)
      modifies this
      ensures Inv(stack) && Later()
      ensures r.TheSym? ==> r.id in stack && reports != []
      ensures reports == [] ==> forall j :: j in SymIds(x) + SymIds(y) ==> j in done
      decreases Unchecked(checked), 2, 0
    {
      r := CheckSymbol(x, s);
      if r == NoSym {
        UncheckedFalls(old(checked), checked);
        r := CheckSymbol(y, s);
      }
    }

    /** A constant leads nowhere. */
    method CheckSymbol(x: Symbol, ghost s: nat) returns (r: OptSym)
      requires stack != [] && Inv(stack) && s == stack[|stack| - 1] && SymOk(decls, x)
      requires forall j :: j in SymIds(x) ==> Walks(decls[s], j)
      modifies this
      ensures Inv(stack) && Later()
      ensures r.TheSym? ==> r.id in stack && reports != []
      ensures reports == [] ==> forall j :: j in SymIds(x) ==> j in done
      decreases Unchecked(checked), 1, 0
    {
      if x.Const? {
        return NoSym;
      }
      assert x.id in SymIds(x);
      r := CheckDeps(x.id);
    }
  }

  lemma {:induction false} UncheckedAtMost(checked: seq<bool>)
    ensures Unchecked(checked) <= |checked|
  {
    if checked != [] {
      UncheckedAtMost(checked[1..]);
    }
  }

  /** The sweep over all symbols at the end of parsing. Main result: a recursive dependency is reported
      if and only if there is one, and each report is one. Yet the sweep counts no error: what
      sym_check_deps returns is the symbol where the cycle starts, and at that symbol it is reset. */
  method Sweep(decls: seq<Decl>) returns (reports: seq<seq<nat>>, errors: int, ghost done: seq<nat>)
    requires DeclsOk(decls)
    ensures reports != [] <==> exists c :: IsCycle(decls, c)
    ensures forall c :: c in reports ==> IsCycle(decls, c)
    ensures errors == 0
    ensures reports == [] ==> PostOrder(decls, done) && forall i :: 0 <= i < |decls| ==> i in done
  {
    var t := new DepChecker(decls);
    errors := 0;
    var i := 0;
    while i < |decls|
      invariant i <= |decls| == |t.decls| && t.decls == decls && fresh(t)
      invariant t.stack == [] && t.Inv([]) && errors == 0
      invariant forall j :: 0 <= j < i ==> t.checked[j]
    {
      var r := t.CheckDeps(i);
      if r.TheSym? {
        errors := errors + 1;
      }
      i := i + 1;
    }
    reports, done := t.reports, t.done;
    if reports != [] {
      assert reports[0] in reports;
    } else if c :| IsCycle(decls, c) {
      assert c[0] in done;
      var p :| 0 <= p < |done| && done[p] == c[0];
      NoCycleThrough(decls, done, c, 0, p);
    }
  }

  // ---------------------------------------------------------------- what a silent sweep is good for

  /** The search sees every dependency of the evaluation. */
  ghost predicate Covered(d: Decl) {
    forall j :: DependsOn(d, j) ==> Walks(d, j)
  }

  /** What the evaluation looks at and the search does not: direct dependencies, and the conditions of the
      prompts of choices and selects. What the search follows and the evaluation does not: the conditions of
      properties that are neither prompts nor defaults. */
  lemma WalkedExactly(d: Decl, j: nat)
    ensures DependsOn(d, j) && !Walks(d, j)
            ==> j in OptIds(d.dirDep)
                || exists k :: 0 <= k < |d.props| && Skipped(d.props[k]) && j in PropIds(d.props[k])
    ensures Walks(d, j) && !DependsOn(d, j)
            ==> exists k :: && 0 <= k < |d.props| && !d.props[k].hasText && d.props[k].ty != Default
                            && j in WalkIds(d.props[k])
  {}

  /** Where j comes in done. */
  function Place(done: seq<nat>, j: nat): (p: nat)
    requires j in done
    ensures p < |done| && done[p] == j
    ensures forall q :: 0 <= q < p ==> done[q] != j
  {
    if done[0] == j then 0 else 1 + Place(done[1..], j)
  }

  function Places(done: seq<nat>, n: nat): (rank: seq<nat>)
    requires forall i :: 0 <= i < n ==> i in done
    ensures |rank| == n && forall i :: 0 <= i < n ==> rank[i] == Place(done, i)
  {
    seq(n, i requires 0 <= i < n => Place(done, i))
  }

  /** A table on which the sweep is silent can be evaluated: the order of completion ranks it. */
  lemma SilentSweepRanks(t: Table, done: seq<nat>)
    requires |t.decls| == |t.users| && DeclsOk(t.decls) && PostOrder(t.decls, done)
    requires forall i :: 0 <= i < |t.decls| ==> i in done && Covered(t.decls[i])
    ensures Ranked(t, Places(done, |t.decls|)).Valid()
  {
    var g := Ranked(t, Places(done, |t.decls|));
    forall i, j: nat | 0 <= i < |t.decls| && DependsOn(t.decls[i], j)
      ensures j < |t.decls| && g.rank[j] < g.rank[i]
    {
      var p := Place(done, i);
      assert Walks(t.decls[done[p]], j);
      var q :| 0 <= q < p && done[..p][q] == j;
      assert done[q] == j;
    }
  }

  /** The search does not follow direct dependencies, although the evaluation does. */
  lemma DirectDepNotWalked(self: Symbol, d: Decl)
    requires self == Config(0, Boolean) && d == Decl(Boolean, N, [], Some(Sym(self)), None)
    ensures DeclsOk([d]) && DependsOn(d, 0) && !exists c :: IsCycle([d], c)
    ensures !exists rank :: Ranked(Table([d], [NoValue], YES), rank).Valid()
  {
    assert 0 in SymIds(self);
    assert forall j {:trigger Walks(d, j)} :: !Walks(d, j);
    forall rank | Ranked(Table([d], [NoValue], YES), rank).Valid()
      ensures false
    {
      assert DependsOn([d][0], 0);
    }
  }
}
