/** What the value of a symbol is in terms of its prompts and defaults, one by one. */
module SymbolValues {
  import opened Tristate
  import opened Exprs
  import opened ExprEquality
  import opened SymbolTable

  /** A condition is met to the degree t; a missing condition always is. */
  predicate Admits(x: OptExpr, a: Assignment, t: Tri) {
    x.Some? ==> Eval(x.e, a) >= t
  }

  /** Other symbols select to the degree t; nothing selects where no symbol is mentioned. */
  predicate Selects(x: OptExpr, a: Assignment, t: Tri) {
    x.Some? && Eval(x.e, a) >= t
  }

  // ---------------------------------------------------------------- prompts

  predicate IsPrompt(props: seq<Prop>, k: nat, a: Assignment, t: Tri) {
    k < |props| && props[k].hasText && Admits(props[k].visible, a, t)
  }

  /** Some prompt is visible to that degree. */
  ghost predicate PromptSeen(props: seq<Prop>, a: Assignment, t: Tri) {
    exists k: nat :: IsPrompt(props, k, a, t)
  }

  /** The visibility of the prompts is the least upper bound of what each of them has. */
  lemma {:induction false} PromptsLeast(props: seq<Prop>, a: Assignment)
    ensures forall k :: 0 <= k < |props| && props[k].hasText ==>
              OptEval(And, props[k].visible, a) <= PromptsVisible(props, a)
    ensures PromptsVisible(props, a) == NO || PromptSeen(props, a, PromptsVisible(props, a))
  {
    if props != [] {
      var n := |props| - 1;
      var rest := PromptsVisible(props[..n], a);
      PromptsLeast(props[..n], a);
      forall k | 0 <= k < |props| && props[k].hasText
        ensures OptEval(And, props[k].visible, a) <= PromptsVisible(props, a)
      {
        assert k < n ==> props[..n][k] == props[k];
      }
      if k: nat :| IsPrompt(props[..n], k, a, rest) {
        assert IsPrompt(props, k, a, rest);
      }
      if props[n].hasText {
        assert IsPrompt(props, n, a, OptEval(And, props[n].visible, a));
      }
    }
  }

  lemma SeenExactly(props: seq<Prop>, a: Assignment, t: Tri)
    requires t != NO
    ensures PromptsVisible(props, a) >= t <==> PromptSeen(props, a, t)
  {
    PromptsLeast(props, a);
    if PromptsVisible(props, a) >= t {
      var k: nat :| IsPrompt(props, k, a, PromptsVisible(props, a));
      assert IsPrompt(props, k, a, t);
    }
  }

  // ---------------------------------------------------------------- defaults

  predicate DefaultSeen(props: seq<Prop>, k: nat, a: Assignment) {
    k < |props| && props[k].ty == Default && Admits(props[k].visible, a, MOD)
  }

  /** The first of the defaults that is visible. */
  ghost predicate IsDefault(props: seq<Prop>, k: nat, a: Assignment) {
    DefaultSeen(props, k, a) && forall j: nat :: j < k ==> !DefaultSeen(props, j, a)
  }

  /** The search finds the first visible default, and only that. */
  lemma {:induction false} FirstDefaultExactly(props: seq<Prop>, i: nat, a: Assignment, k: nat)
    requires i <= |props| && k < |props| && forall j: nat :: j < i ==> !DefaultSeen(props, j, a)
    ensures FirstDefault(props, i, a) == k <==> IsDefault(props, k, a)
    decreases |props| - i
  {
    if i < |props| {
      if DefaultSeen(props, i, a) {
        assert IsDefault(props, k, a) ==> k == i;
      } else {
        FirstDefaultExactly(props, i + 1, a, k);
      }
    }
  }

  /** The default is worth what both its value and its visibility reach. */
  lemma DefaultExactly(props: seq<Prop>, a: Assignment, t: Tri)
    requires t != NO
    ensures DefaultValue(props, a) >= t
            <==> exists k: nat ::
                   IsDefault(props, k, a) && Admits(props[k].expr, a, t) && Admits(props[k].visible, a, t)
  {
    var r := FirstDefault(props, 0, a);
    forall k: nat | k < |props|
      ensures r == k <==> IsDefault(props, k, a)
    {
      FirstDefaultExactly(props, 0, a, k);
    }
    assert r < |props| ==> IsDefault(props, r, a);
  }

  // ---------------------------------------------------------------- the value

  /** The user's value counts: there is one, and a prompt is visible. */
  ghost predicate UserCounts(d: Decl, user: OptTri, a: Assignment) {
    user.Value? && PromptSeen(d.props, a, MOD)
  }

  /** What makes the symbol at least t: what selects it, the user's value at a visible prompt, or, if that
      does not count, the first visible default. */
  ghost predicate Reaches(d: Decl, user: OptTri, a: Assignment, t: Tri) {
    || Selects(d.revDep, a, t)
    || (UserCounts(d, user, a) && user.tri >= t && PromptSeen(d.props, a, t))
    || (!UserCounts(d, user, a)
        && exists k: nat ::
             IsDefault(d.props, k, a) && Admits(d.props[k].expr, a, t) && Admits(d.props[k].visible, a, t))
  }

  /** Main result: a tristate is at least t exactly if something makes it so; a boolean is y exactly if
      something makes it m, and n otherwise. */
  lemma ValueExactly(d: Decl, user: OptTri, modules: Tri, a: Assignment, t: Tri)
    requires t != NO
    ensures !IsBool(d, modules) ==> (TriOf(d, user, modules, a) >= t <==> Reaches(d, user, a, t))
    ensures IsBool(d, modules) ==> TriOf(d, user, modules, a) == TriBool(Reaches(d, user, a, MOD))
  {
    SeenExactly(d.props, a, MOD);
    SeenExactly(d.props, a, t);
    DefaultExactly(d.props, a, MOD);
    DefaultExactly(d.props, a, t);
  }

  /** A symbol is visible to the degree that one of its prompts is; a boolean is visible or not. */
  lemma VisibilityExactly(d: Decl, modules: Tri, a: Assignment, t: Tri)
    requires t != NO
    ensures !IsBool(d, modules) ==> (Visibility(d, modules, a) >= t <==> PromptSeen(d.props, a, t))
    ensures IsBool(d, modules) ==> Visibility(d, modules, a) == TriBool(PromptSeen(d.props, a, MOD))
  {
    SeenExactly(d.props, a, MOD);
    SeenExactly(d.props, a, t);
  }

  /** Direct dependencies and what selects a symbol; a boolean is selected or not. */
  lemma SelectedExactly(d: Decl, modules: Tri, a: Assignment, t: Tri)
    requires t != NO
    ensures !IsBool(d, modules) ==> (Selected(d, modules, a) >= t <==> Selects(d.revDep, a, t))
    ensures IsBool(d, modules) ==> Selected(d, modules, a) == TriBool(Selects(d.revDep, a, MOD))
    ensures DirectDep(d, a) == TriBool(Admits(d.dirDep, a, MOD))
  {}

  /** A symbol that is not written has no visible prompt or default and is selected by nothing. */
  lemma WrittenExactly(d: Decl, user: OptTri, modules: Tri, a: Assignment)
    ensures !Written(d, user, modules, a)
            <==> !PromptSeen(d.props, a, MOD) && !Selects(d.revDep, a, MOD)
                 && forall k: nat :: !DefaultSeen(d.props, k, a)
  {
    SeenExactly(d.props, a, MOD);
    var r := FirstDefault(d.props, 0, a);
    if r < |d.props| {
      FirstDefaultExactly(d.props, 0, a, r);
    }
    if k: nat :| DefaultSeen(d.props, k, a) {
      NoneBefore(d.props, 0, a, k);
    }
  }

  lemma {:induction false} NoneBefore(props: seq<Prop>, i: nat, a: Assignment, k: nat)
    requires i <= k < |props| && DefaultSeen(props, k, a)
    ensures FirstDefault(props, i, a) <= k
    decreases k - i
  {
    if i < k && !DefaultSeen(props, i, a) {
      NoneBefore(props, i + 1, a, k);
    }
  }
}
