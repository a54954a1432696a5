/**
 The menu tree of menu.c and confdata.c. Entries are numbered, and their pointer fields are kept by
 number. menu_finalize moves entries below the symbol they depend on and takes the entries below a
 promptless one out again; conf_write walks the tree without a stack.
 */
module Menus {

  datatype Ptr = Null | To(id: nat)

  /** The pointer fields of all entries. */
  datatype Links = Links(next: seq<Ptr>, list: seq<Ptr>, parent: seq<Ptr>) {
    predicate Has(id: nat) {
      id < |next| == |list| == |parent|
    }
  }

  function SetNext(l: Links, id: nat, p: Ptr): Links
    requires l.Has(id)
  {
    l.(next := l.next[id := p])
  }

  function SetList(l: Links, id: nat, p: Ptr): Links
    requires l.Has(id)
  {
    l.(list := l.list[id := p])
  }

  function SetParent(l: Links, id: nat, p: Ptr): Links
    requires l.Has(id)
  {
    l.(parent := l.parent[id := p])
  }

  // ---------------------------------------------------------------- the tree in the pointers

  /** An entry, the entries below it, and the entries after it. */
  datatype Forest = Nil | Cons(id: nat, kids: Forest, rest: Forest)

  function Preorder(f: Forest): seq<nat> {
    match f
    case Nil => []
    case Cons(id, kids, rest) => [id] + Preorder(kids) + Preorder(rest)
  }

  /** The entries from p up to q are f, and up owns the list they are in. */
  ghost predicate Seg(l: Links, p: Ptr, up: Ptr, f: Forest, q: Ptr)
    decreases f
  {
    match f
    case Nil => p == q
    case Cons(id, kids, rest) =>
      && p == To(id) && l.Has(id) && l.parent[id] == up
      && Seg(l, l.list[id], To(id), kids, Null)
      && Seg(l, l.next[id], up, rest, q)
  }

  function Ids(f: Forest): set<nat> {
    match f
    case Nil => {}
    case Cons(id, kids, rest) => {id} + Ids(kids) + Ids(rest)
  }

  /** No entry occurs twice. */
  predicate Distinct(f: Forest) {
    f.Cons? ==>
      && f.id !in Ids(f.kids) && f.id !in Ids(f.rest) && Ids(f.kids) !! Ids(f.rest)
      && Distinct(f.kids) && Distinct(f.rest)
  }

  /** g is what is left of f after some entries of the list itself. */
  predicate Tail(g: Forest, f: Forest)
    decreases f
  {
    g == f || (f.Cons? && Tail(g, f.rest))
  }

  lemma {:induction false} TailTwice(h: Forest, g: Forest, f: Forest)
    requires Tail(h, g) && Tail(g, f)
    ensures Tail(h, f)
    decreases f
  {
    if g != f {
      TailTwice(h, g, f.rest);
    }
  }

  function Size(f: Forest): nat {
    if f.Nil? then 0 else 1 + Size(f.kids) + Size(f.rest)
  }

  /** Only entries in ids have changed. */
  ghost predicate Only(ids: set<nat>, l: Links, l': Links) {
    && |l'.next| == |l.next| && |l'.list| == |l.list| && |l'.parent| == |l.parent|
    && (forall i {:trigger l'.next[i]} :: 0 <= i < |l.next| && i !in ids ==> l'.next[i] == l.next[i])
    && (forall i {:trigger l'.list[i]} :: 0 <= i < |l.list| && i !in ids ==> l'.list[i] == l.list[i])
    && (forall i {:trigger l'.parent[i]} :: 0 <= i < |l.parent| && i !in ids ==> l'.parent[i] == l.parent[i])
  }

  function App(f: Forest, g: Forest): Forest {
    match f
    case Nil => g
    case Cons(id, kids, rest) => Cons(id, kids, App(rest, g))
  }

  /** The last entry of the list itself. */
  function LastId(f: Forest): nat
    requires f.Cons?
  {
    if f.rest.Nil? then f.id else LastId(f.rest)
  }

  lemma {:induction false} PreorderApp(f: Forest, g: Forest)
    ensures Preorder(App(f, g)) == Preorder(f) + Preorder(g)
  {
    if f.Cons? {
      PreorderApp(f.rest, g);
    }
  }

  lemma {:induction false} LastApp(f: Forest, id: nat, k: Forest)
    ensures App(f, Cons(id, k, Nil)).Cons? && LastId(App(f, Cons(id, k, Nil))) == id
  {
    if f.Cons? {
      LastApp(f.rest, id, k);
    }
  }

  lemma {:induction false} PreorderIds(f: Forest, x: nat)
    ensures x in Preorder(f) <==> x in Ids(f)
  {
    if f.Cons? {
      PreorderIds(f.kids, x);
      PreorderIds(f.rest, x);
    }
  }

  predicate NoDup(s: seq<nat>) {
    forall i, j :: 0 <= i < j < |s| ==> s[i] != s[j]
  }

  predicate Apart(s: seq<nat>, t: seq<nat>) {
    forall i, j :: 0 <= i < |s| && 0 <= j < |t| ==> s[i] != t[j]
  }

  lemma NoDupConcat(s: seq<nat>, t: seq<nat>)
    ensures NoDup(s + t) <==> NoDup(s) && NoDup(t) && Apart(s, t)
  {
    if NoDup(s + t) {
      forall i, j | 0 <= i < j < |s|
        ensures s[i] != s[j]
      {
        assert (s + t)[i] == s[i] && (s + t)[j] == s[j];
      }
      forall i, j | 0 <= i < j < |t|
        ensures t[i] != t[j]
      {
        assert (s + t)[|s| + i] == t[i] && (s + t)[|s| + j] == t[j];
      }
      forall i, j | 0 <= i < |s| && 0 <= j < |t|
        ensures s[i] != t[j]
      {
        assert (s + t)[i] == s[i] && (s + t)[|s| + j] == t[j];
      }
    }
  }

  lemma ApartIds(f: Forest, g: Forest)
    ensures Apart(Preorder(f), Preorder(g)) <==> Ids(f) !! Ids(g)
  {
    forall x | x in Ids(f) || x in Ids(g)
      ensures (x in Ids(f) <==> x in Preorder(f)) && (x in Ids(g) <==> x in Preorder(g))
    {
      PreorderIds(f, x);
      PreorderIds(g, x);
    }
    if Ids(f) !! Ids(g) {
      forall i, j | 0 <= i < |Preorder(f)| && 0 <= j < |Preorder(g)|
        ensures Preorder(f)[i] != Preorder(g)[j]
      {
        PreorderIds(f, Preorder(f)[i]);
        PreorderIds(g, Preorder(g)[j]);
      }
    } else {
      var x :| x in Ids(f) && x in Ids(g);
      assert x in Preorder(f) && x in Preorder(g);
    }
  }

  /** Whether entries are distinct can be read off their order. */
  lemma {:induction false} DistinctNoDup(f: Forest)
    ensures Distinct(f) <==> NoDup(Preorder(f))
  {
    if f.Cons? {
      var single := Cons(f.id, Nil, Nil);
      DistinctNoDup(f.kids);
      DistinctNoDup(f.rest);
      NoDupConcat([f.id] + Preorder(f.kids), Preorder(f.rest));
      NoDupConcat([f.id], Preorder(f.kids));
      assert Preorder(single) == [f.id];
      ApartIds(single, f.kids);
      ApartIds(Cons(f.id, f.kids, Nil), f.rest);
      assert Preorder(Cons(f.id, f.kids, Nil)) == [f.id] + Preorder(f.kids);
    }
  }

  /** The list f, taken apart in two without changing the order. */
  ghost predicate Parts(f: Forest, g: Forest, h: Forest) {
    && Preorder(g) + Preorder(h) == Preorder(f)
    && Distinct(g) && Distinct(h) && Ids(g) !! Ids(h) && Ids(g) + Ids(h) == Ids(f)
    && Size(g) + Size(h) == Size(f)
  }

  lemma PartsOf(f: Forest, g: Forest, h: Forest)
    requires Distinct(f) && Preorder(g) + Preorder(h) == Preorder(f)
    ensures Parts(f, g, h)
  {
    DistinctNoDup(f);
    DistinctNoDup(g);
    DistinctNoDup(h);
    NoDupConcat(Preorder(g), Preorder(h));
    ApartIds(g, h);
    SizePreorder(f);
    SizePreorder(g);
    SizePreorder(h);
    forall x
      ensures x in Ids(f) <==> x in Ids(g) + Ids(h)
    {
      PreorderIds(f, x);
      PreorderIds(g, x);
      PreorderIds(h, x);
    }
  }

  /** The same entries in the same order, with another first list. */
  lemma Rearranged(p: nat, kids: Forest, rest: Forest, kids': Forest, rest': Forest)
    requires Distinct(Cons(p, kids, rest)) && Preorder(kids') + Preorder(rest') == Preorder(kids) + Preorder(rest)
    ensures Distinct(Cons(p, kids', rest')) && Ids(Cons(p, kids', rest')) == Ids(Cons(p, kids, rest))
    ensures Ids(kids') + Ids(rest') == Ids(kids) + Ids(rest)
    ensures Preorder(Cons(p, kids', rest')) == Preorder(Cons(p, kids, rest))
  {
    RearrangedOrder(p, kids, rest, kids', rest');
    SameOrder(Cons(p, kids, rest), Cons(p, kids', rest'));
    WithoutFirst(p, Ids(kids) + Ids(rest), Ids(kids') + Ids(rest'));
  }

  lemma WithoutFirst(p: nat, s: set<nat>, t: set<nat>)
    ensures p !in s && p !in t && {p} + s == {p} + t ==> s == t
  {
    if p !in s && p !in t && {p} + s == {p} + t {
      assert s == ({p} + s) - {p};
      assert t == ({p} + t) - {p};
    }
  }

  lemma RearrangedOrder(p: nat, kids: Forest, rest: Forest, kids': Forest, rest': Forest)
    requires Preorder(kids') + Preorder(rest') == Preorder(kids) + Preorder(rest)
    ensures Preorder(Cons(p, kids', rest')) == Preorder(Cons(p, kids, rest))
  {
    Assoc([p], Preorder(kids), Preorder(rest));
    Assoc([p], Preorder(kids'), Preorder(rest'));
  }

  lemma Assoc(s: seq<nat>, t: seq<nat>, u: seq<nat>)
    ensures s + t + u == s + (t + u)
  {}

  lemma {:induction false} SizePreorder(f: Forest)
    ensures |Preorder(f)| == Size(f)
  {
    if f.Cons? {
      SizePreorder(f.kids);
      SizePreorder(f.rest);
    }
  }

  lemma SameOrder(f: Forest, g: Forest)
    requires Preorder(f) == Preorder(g) && Distinct(f)
    ensures Distinct(g) && Ids(f) == Ids(g)
  {
    DistinctNoDup(f);
    DistinctNoDup(g);
    SameIds(f, g);
  }

  lemma SameIds(f: Forest, g: Forest)
    requires Preorder(f) == Preorder(g)
    ensures Ids(f) == Ids(g)
  {
    forall x
      ensures x in Ids(f) <==> x in Ids(g)
    {
      PreorderIds(f, x);
      PreorderIds(g, x);
    }
  }

  // ---------------------------------------------------------------- changing the pointers

  lemma {:induction false} SegApp(l: Links, p: Ptr, up: Ptr, f: Forest, m: Ptr, g: Forest, q: Ptr)
    requires Seg(l, p, up, f, m) && Seg(l, m, up, g, q)
    ensures Seg(l, p, up, App(f, g), q)
    decreases f
  {
    if f.Cons? {
      SegApp(l, l.next[f.id], up, f.rest, m, g, q);
    }
  }

  lemma {:induction false} SegFrame(l: Links, l': Links, ids: set<nat>, p: Ptr, up: Ptr, f: Forest, q: Ptr)
    requires Seg(l, p, up, f, q) && Only(ids, l, l') && Ids(f) !! ids
    ensures Seg(l', p, up, f, q)
    decreases f
  {
    if f.Cons? {
      SegFrame(l, l', ids, l.list[f.id], To(f.id), f.kids, Null);
      SegFrame(l, l', ids, l.next[f.id], up, f.rest, q);
    }
  }

  lemma OnlyTwice(ids: set<nat>, more: set<nat>, l: Links, l': Links, l'': Links)
    requires Only(ids, l, l') && Only(more, l', l'') && more <= ids
    ensures Only(ids, l, l'')
  {}

  /** Another end for a list. */
  lemma {:induction false} SegRelink(l: Links, p: Ptr, up: Ptr, f: Forest, q: Ptr, q': Ptr)
    requires Seg(l, p, up, f, q) && f.Cons? && Distinct(f)
    ensures l.Has(LastId(f)) && LastId(f) in Ids(f) && l.next[LastId(f)] == q
    ensures Seg(SetNext(l, LastId(f), q'), p, up, f, q')
    decreases f
  {
    if f.rest.Nil? {
      SegFrame(l, SetNext(l, f.id, q'), {f.id}, l.list[f.id], To(f.id), f.kids, Null);
    } else {
      SegRelink(l, l.next[f.id], up, f.rest, q, q');
      SegFrame(l, SetNext(l, LastId(f), q'), {LastId(f)}, l.list[f.id], To(f.id), f.kids, Null);
    }
  }

  /** One more entry of the list f is dealt with: done grows by the first entry of todo, which now has
      the entries k below it and r after it. */
  lemma Advance(l: Links, l0: Links, l1: Links, f: Forest, first: Ptr, up: Ptr, done: Forest, todo: Forest,
                k: Forest, r: Forest)
    requires Parts(f, done, todo) && todo.Cons? && Only(Ids(f), l, l0) && Only(Ids(todo), l0, l1)
    requires Seg(l0, first, up, done, To(todo.id)) && Seg(l1, To(todo.id), up, Cons(todo.id, k, r), Null)
    requires Preorder(k) + Preorder(r) == Preorder(todo.kids) + Preorder(todo.rest)
    ensures var done' := App(done, Cons(todo.id, k, Nil));
            && Parts(f, done', r) && Only(Ids(f), l, l1) && l1.Has(todo.id)
            && Seg(l1, first, up, done', l1.next[todo.id]) && Seg(l1, l1.next[todo.id], up, r, Null)
            && Preorder(done') == Preorder(done) + [todo.id] + Preorder(k) && Size(r) < Size(todo)
  {
    OnlyTwice(Ids(f), Ids(todo), l, l0, l1);
    SegFrame(l0, l1, Ids(todo), first, up, done, To(todo.id));
    SegApp(l1, first, up, done, To(todo.id), Cons(todo.id, k, Nil), l1.next[todo.id]);
    AdvanceParts(f, done, todo, k, r);
  }

  lemma AdvanceParts(f: Forest, done: Forest, todo: Forest, k: Forest, r: Forest)
    requires Parts(f, done, todo) && todo.Cons?
    requires Preorder(k) + Preorder(r) == Preorder(todo.kids) + Preorder(todo.rest)
    ensures var done' := App(done, Cons(todo.id, k, Nil));
            Parts(f, done', r) && Preorder(done') == Preorder(done) + [todo.id] + Preorder(k) && Size(r) < Size(todo)
  {
    AdvanceOrder(done, todo, k, r);
    PartsDistinct(f, done, todo);
    SizesOf(todo, k, r);
    PartsOf(f, App(done, Cons(todo.id, k, Nil)), r);
  }

  lemma LogStep(log: seq<nat>, done: seq<nat>, id: nat, k: seq<nat>)
    ensures log + done + [id] + k == log + (done + [id] + k)
  {}

  lemma SizesOf(todo: Forest, k: Forest, r: Forest)
    requires todo.Cons? && Preorder(k) + Preorder(r) == Preorder(todo.kids) + Preorder(todo.rest)
    ensures Size(k) + Size(r) < Size(todo)
  {
    SizePreorder(k);
    SizePreorder(r);
    SizePreorder(todo.kids);
    SizePreorder(todo.rest);
    assert |Preorder(k) + Preorder(r)| == |Preorder(todo.kids) + Preorder(todo.rest)|;
  }

  lemma PartsDistinct(f: Forest, g: Forest, h: Forest)
    requires Parts(f, g, h)
    ensures Distinct(f)
  {
    DistinctNoDup(f);
    DistinctNoDup(g);
    DistinctNoDup(h);
    NoDupConcat(Preorder(g), Preorder(h));
    ApartIds(g, h);
  }

  /** The same for an entry that moves to the list of p. */
  lemma AdvanceTo(l: Links, l0: Links, l1: Links, l2: Links, f: Forest, first: Ptr, p: nat, up: Ptr,
                  done: Forest, todo: Forest, k: Forest, r: Forest)
    requires Parts(f, done, todo) && todo.Cons? && Only(Ids(f), l, l0) && Only(Ids(todo), l0, l1)
    requires l1.Has(todo.id) && l2 == SetParent(l1, todo.id, To(p))
    requires Seg(l0, first, To(p), done, To(todo.id)) && Seg(l1, To(todo.id), up, Cons(todo.id, k, r), Null)
    requires Preorder(k) + Preorder(r) == Preorder(todo.kids) + Preorder(todo.rest)
    ensures var done' := App(done, Cons(todo.id, k, Nil));
            && Parts(f, done', r) && Only(Ids(f), l, l2) && done'.Cons? && LastId(done') == todo.id
            && Seg(l2, first, To(p), done', l2.next[todo.id]) && Seg(l2, l2.next[todo.id], up, r, Null)
            && Preorder(done') == Preorder(done) + [todo.id] + Preorder(k) && Size(r) < Size(todo)
  {
    Rearranged(todo.id, todo.kids, todo.rest, k, r);
    LastApp(done, todo.id, k);
    AdvanceParts(f, done, todo, k, r);
    MoveOne(l0, l1, l2, first, p, up, done, todo, k, r);
    OnlyTwice(Ids(f), Ids(todo), l, l0, l2);
  }

  lemma MoveOne(l0: Links, l1: Links, l: Links, first: Ptr, p: nat, up: Ptr, done: Forest, todo: Forest,
                k: Forest, r: Forest)
    requires todo.Cons? && Only(Ids(todo), l0, l1) && l1.Has(todo.id) && l == SetParent(l1, todo.id, To(p))
    requires Seg(l0, first, To(p), done, To(todo.id)) && Ids(done) !! Ids(todo)
    requires Seg(l1, To(todo.id), up, Cons(todo.id, k, r), Null) && Distinct(Cons(todo.id, k, r))
    ensures Only(Ids(todo), l0, l)
    ensures Seg(l, first, To(p), App(done, Cons(todo.id, k, Nil)), l.next[todo.id])
    ensures Seg(l, l.next[todo.id], up, r, Null)
  {
    SegFrame(l1, l, {todo.id}, l1.list[todo.id], To(todo.id), k, Null);
    SegFrame(l1, l, {todo.id}, l1.next[todo.id], up, r, Null);
    SegFrame(l0, l, Ids(todo), first, To(p), done, To(todo.id));
    SegApp(l, first, To(p), done, To(todo.id), Cons(todo.id, k, Nil), l.next[todo.id]);
  }

  lemma AdvanceOrder(done: Forest, todo: Forest, k: Forest, r: Forest)
    requires todo.Cons? && Preorder(k) + Preorder(r) == Preorder(todo.kids) + Preorder(todo.rest)
    ensures var done' := App(done, Cons(todo.id, k, Nil));
            && Preorder(done') == Preorder(done) + [todo.id] + Preorder(k)
            && Preorder(done') + Preorder(r) == Preorder(done) + Preorder(todo)
  {
    PreorderApp(done, Cons(todo.id, k, Nil));
    PreorderSingle(todo.id, k);
    Regroup(Preorder(done), [todo.id], Preorder(k), Preorder(r), Preorder(todo.kids), Preorder(todo.rest));
  }

  lemma PreorderSingle(id: nat, k: Forest)
    ensures Preorder(Cons(id, k, Nil)) == [id] + Preorder(k)
  {}

  lemma Regroup(s: seq<nat>, x: seq<nat>, k: seq<nat>, r: seq<nat>, k': seq<nat>, r': seq<nat>)
    requires k + r == k' + r'
    ensures s + (x + k) == s + x + k && s + x + k + r == s + (x + k' + r')
  {
    assert s + x + k + r == s + (x + (k + r));
    assert s + (x + k' + r') == s + (x + (k' + r'));
  }

  // ---------------------------------------------------------------- menu_finalize

  /** The list after the second half of menu_finalize: the entries below one without a prompt follow
      it. */
  function Hoisted(f: Forest, prompted: nat -> bool): Forest
    decreases Size(f)
  {
    match f
    case Nil => Nil
    case Cons(id, kids, rest) =>
      if kids.Cons? && !prompted(id) then
        SizeApp(kids, rest);
        Cons(id, Nil, Hoisted(App(kids, rest), prompted))
      else Cons(id, kids, Hoisted(rest, prompted))
  }

  lemma {:induction false} SizeApp(f: Forest, g: Forest)
    ensures Size(App(f, g)) == Size(f) + Size(g)
  {
    if f.Cons? {
      SizeApp(f.rest, g);
    }
  }

  /** The entries of a list with their own lists. */
  function Entries(f: Forest): seq<(nat, Forest)> {
    match f
    case Nil => []
    case Cons(id, kids, rest) => [(id, kids)] + Entries(rest)
  }

  /** The entries that have no entry with a prompt above them, in order. Those with a prompt have their
      lists, the others have none. */
  function OpenEntries(f: Forest, prompted: nat -> bool): seq<(nat, Forest)> {
    match f
    case Nil => []
    case Cons(id, kids, rest) =>
      [(id, if prompted(id) then kids else Nil)]
      + (if prompted(id) then [] else OpenEntries(kids, prompted)) + OpenEntries(rest, prompted)
  }

  lemma {:induction false} OpenApp(f: Forest, g: Forest, prompted: nat -> bool)
    ensures OpenEntries(App(f, g), prompted) == OpenEntries(f, prompted) + OpenEntries(g, prompted)
  {
    if f.Cons? {
      OpenApp(f.rest, g, prompted);
    }
  }

  /** Exactly those entries make up the list afterwards, so lists of entries with a prompt stay. */
  lemma {:induction false} HoistedExactly(f: Forest, prompted: nat -> bool)
    ensures Entries(Hoisted(f, prompted)) == OpenEntries(f, prompted)
    decreases Size(f)
  {
    if f.Cons? {
      if f.kids.Cons? && !prompted(f.id) {
        SizeApp(f.kids, f.rest);
        HoistedExactly(App(f.kids, f.rest), prompted);
        OpenApp(f.kids, f.rest, prompted);
      } else {
        HoistedExactly(f.rest, prompted);
      }
    }
  }

  /** No entry of a list that could be seen is lost below one that cannot. */
  lemma {:induction false} HoistedKeeps(f: Forest, prompted: nat -> bool)
    ensures Preorder(Hoisted(f, prompted)) == Preorder(f)
    ensures NothingHidden(Hoisted(f, prompted), prompted)
    decreases Size(f)
  {
    if f.Cons? {
      if f.kids.Cons? && !prompted(f.id) {
        SizeApp(f.kids, f.rest);
        HoistedKeeps(App(f.kids, f.rest), prompted);
        PreorderApp(f.kids, f.rest);
        Assoc([f.id], Preorder(f.kids), Preorder(f.rest));
      } else {
        HoistedKeeps(f.rest, prompted);
      }
    }
  }

  predicate NothingHidden(f: Forest, prompted: nat -> bool) {
    f.Cons? ==> (f.kids.Cons? ==> prompted(f.id)) && NothingHidden(f.rest, prompted)
  }

  lemma {:induction false} AppAssoc(f: Forest, g: Forest, h: Forest)
    ensures App(App(f, g), h) == App(f, App(g, h))
    ensures App(f, Nil) == f
  {
    if f.Cons? {
      AppAssoc(f.rest, g, h);
    }
  }

  /** The entries done have been given to p; todo are those still to be looked at, from menu on. */
  ghost predicate Found(l0: Links, l: Links, p: nat, up: Ptr, rest: Forest, done: Forest, todo: Forest, menu: Ptr) {
    && l0.Has(p) && Parts(rest, done, todo) && Tail(todo, rest) && Only(Ids(rest), l0, l)
    && Seg(l, l0.next[p], To(p), done, menu) && Seg(l, menu, up, todo, Null)
  }

  lemma FoundNext(l0: Links, l: Links, l1: Links, l2: Links, p: nat, up: Ptr, rest: Forest, done: Forest,
                  todo: Forest, k: Forest, r: Forest)
    requires todo.Cons? && Found(l0, l, p, up, rest, done, todo, To(todo.id)) && Only(Ids(todo), l, l1)
    requires l1.Has(todo.id) && l2 == SetParent(l1, todo.id, To(p))
    requires Seg(l1, To(todo.id), up, Cons(todo.id, k, r), Null)
    requires Preorder(k) + Preorder(r) == Preorder(todo.kids) + Preorder(todo.rest) && Tail(r, todo.rest)
    ensures var done' := App(done, Cons(todo.id, k, Nil));
            && l2.Has(todo.id) && Found(l0, l2, p, up, rest, done', r, l2.next[todo.id])
            && done'.Cons? && LastId(done') == todo.id && Size(r) < Size(todo)
            && Preorder(done') == Preorder(done) + [todo.id] + Preorder(k)
  {
    AdvanceTo(l0, l, l1, l2, rest, l0.next[p], p, up, done, todo, k, r);
    TailTwice(r, todo, rest);
  }

  /** The entry failed a test. */
  ghost predicate Refused(id: nat, p: nat, absorbs: (nat, nat, nat) -> bool, lo: nat, hi: nat) {
    exists n :: lo < n <= hi && !absorbs(p, id, n)
  }

  /** Every entry of the list itself passed a test, one of those with numbers from lo to hi. */
  ghost predicate Passed(f: Forest, p: nat, absorbs: (nat, nat, nat) -> bool, lo: nat, hi: nat) {
    f.Cons? ==> (exists n :: lo < n <= hi && absorbs(p, f.id, n)) && Passed(f.rest, p, absorbs, lo, hi)
  }

  lemma {:induction false} PassedLater(f: Forest, p: nat, absorbs: (nat, nat, nat) -> bool, lo: nat, hi: nat, hi': nat)
    requires Passed(f, p, absorbs, lo, hi) && hi <= hi'
    ensures Passed(f, p, absorbs, lo, hi')
  {
    if f.Cons? {
      PassedLater(f.rest, p, absorbs, lo, hi, hi');
    }
  }

  lemma {:induction false} PassedNext(f: Forest, id: nat, k: Forest, p: nat, absorbs: (nat, nat, nat) -> bool,
                                      lo: nat, test: nat, hi: nat)
    requires lo < test <= hi && Passed(f, p, absorbs, lo, test - 1) && absorbs(p, id, test)
    ensures Passed(App(f, Cons(id, k, Nil)), p, absorbs, lo, hi)
  {
    if f.Cons? {
      PassedNext(f.rest, id, k, p, absorbs, lo, test, hi);
    }
  }

  class MenuTree {
    const hasSym: nat -> bool               // the entry belongs to a symbol
    const prompted: nat -> bool             // the entry has a prompt with a text
    const absorbs: (nat, nat, nat) -> bool  // the outcomes of the dependency tests, by their number
    var links: Links
    var tests: nat                          // dependency tests made
    var finalized: seq<nat>                 // the entries menu_finalize was called for

    constructor (links: Links, hasSym: nat -> bool, prompted: nat -> bool, absorbs: (nat, nat, nat) -> bool)
      ensures this.links == links && finalized == [] && tests == 0
      ensures this.hasSym == hasSym && this.prompted == prompted && this.absorbs == absorbs
    {
      this.links, this.hasSym, this.prompted, this.absorbs := links, hasSym, prompted, absorbs;
      tests, finalized := 0, [];
    }

    /** menu_finalize: the entries below p and after it keep their order, and exactly those that end up
        below p have been finalized, in that order. */
    method Finalize(p: nat, ghost up: Ptr, ghost kids: Forest, ghost rest: Forest)
      returns (ghost kids': Forest, ghost rest': Forest)
      requires Seg(links, To(p), up, Cons(p, kids, rest), Null) && Distinct(Cons(p, kids, rest))
      modifies this
      ensures Seg(links, To(p), up, Cons(p, kids', rest'), Null)
      ensures Preorder(kids') + Preorder(rest') == Preorder(kids) + Preorder(rest)
      ensures Tail(rest', rest) && (kids.Cons? ==> rest' == rest)
      ensures finalized == old(finalized) + [p] + Preorder(kids')
      ensures NothingHidden(kids', prompted) && tests >= old(tests)
      ensures kids.Nil? && !hasSym(p) ==> kids'.Nil? && rest' == rest
      ensures kids.Nil? && hasSym(p) && rest'.Cons? ==> Refused(rest'.id, p, absorbs, old(tests), tests)
      ensures Only(Ids(Cons(p, kids, rest)), old(links), links)
      decreases Size(kids) + Size(rest), 4
    {
      finalized := finalized + [p];
      kids', rest' := FirstHalf(p, up, kids, rest);
      ghost var l1 := links;
      Rearranged(p, kids, rest, kids', rest');
      kids' := Hoist(p, up, kids', rest');
      OnlyTwice(Ids(Cons(p, kids, rest)), Ids(kids'), old(links), l1, links);
    }

    /** The first half: the list of p is finalized, or found among the entries after p. */
    method FirstHalf(p: nat, ghost up: Ptr, ghost kids: Forest, ghost rest: Forest)
      returns (ghost kids': Forest, ghost rest': Forest)
      requires Seg(links, To(p), up, Cons(p, kids, rest), Null) && Distinct(Cons(p, kids, rest))
      modifies this
      ensures Seg(links, To(p), up, Cons(p, kids', rest'), Null)
      ensures Preorder(kids') + Preorder(rest') == Preorder(kids) + Preorder(rest)
      ensures Tail(rest', rest) && (kids.Cons? ==> rest' == rest)
      ensures finalized == old(finalized) + Preorder(kids') && tests >= old(tests)
      ensures kids.Nil? && !hasSym(p) ==> kids'.Nil? && rest' == rest
      ensures kids.Nil? && hasSym(p) && rest'.Cons? ==> Refused(rest'.id, p, absorbs, old(tests), tests)
      ensures Only(Ids(Cons(p, kids, rest)), old(links), links)
      decreases Size(kids) + Size(rest), 3
    {
      kids', rest' := kids, rest;
      if links.list[p] != Null {
        kids' := FinalizeList(p, up, kids, rest);
      } else if hasSym(p) {
        kids', rest' := Absorb(p, up, rest);
      }
    }

    /** The first half for an entry that has a list. */
    method FinalizeList(p: nat, ghost up: Ptr, ghost kids: Forest, ghost rest: Forest) returns (ghost kids': Forest)
      requires Seg(links, To(p), up, Cons(p, kids, rest), Null) && Distinct(Cons(p, kids, rest))
      modifies this
      ensures Seg(links, To(p), up, Cons(p, kids', rest), Null)
      ensures Preorder(kids') == Preorder(kids)
      ensures finalized == old(finalized) + Preorder(kids') && tests >= old(tests)
      ensures Only(Ids(kids), old(links), links)
      decreases Size(kids) + Size(rest), 1
    {
      var menu := links.list[p];
      ghost var todo, l := kids, links;
      kids' := Nil;
      while menu != Null
        invariant Parts(kids, kids', todo) && Only(Ids(kids), l, links)
        invariant Seg(links, l.list[p], To(p), kids', menu) && Seg(links, menu, To(p), todo, Null)
        invariant finalized == old(finalized) + Preorder(kids') && tests >= old(tests)
        decreases Size(todo)
      {
        ghost var l1, done := links, kids';
        ghost var k, r := Finalize(menu.id, To(p), todo.kids, todo.rest);
        Advance(l, l1, links, kids, l.list[p], To(p), kids', todo, k, r);
        LogStep(old(finalized), Preorder(kids'), menu.id, Preorder(k));
        kids', todo := App(kids', Cons(menu.id, k, Nil)), r;
        menu := links.next[menu.id];
      }
      SegFrame(l, links, Ids(kids), l.next[p], up, rest, Null);
    }

    /** The first half for a symbol without a list: entries after it that depend on it become its list. */
    method Absorb(p: nat, ghost up: Ptr, ghost rest: Forest) returns (ghost kids': Forest, ghost rest': Forest)
      requires Seg(links, To(p), up, Cons(p, Nil, rest), Null) && Distinct(Cons(p, Nil, rest))
      modifies this
      ensures Seg(links, To(p), up, Cons(p, kids', rest'), Null)
      ensures Preorder(kids') + Preorder(rest') == Preorder(rest) && Tail(rest', rest)
      ensures finalized == old(finalized) + Preorder(kids')
      ensures tests >= old(tests) && Passed(kids', p, absorbs, old(tests), tests)
      ensures rest'.Cons? ==> tests > old(tests) && !absorbs(p, rest'.id, tests)
      ensures Only(Ids(Cons(p, Nil, rest)), old(links), links)
      decreases Size(rest), 2
    {
      ghost var l, menu := links, Null;
      var last;
      last, menu, kids', rest' := FindAbsorbed(p, up, rest);
      if last != Null {
        ghost var l1 := links;
        TakeBelow(p, last.id, up, kids', menu, rest');
        OnlyTwice(Ids(Cons(p, Nil, rest)), {p} + Ids(kids'), l, l1, links);
      }
    }

    /** The entries after p up to last become its list. */
    method TakeBelow(p: nat, last: nat, ghost up: Ptr, ghost kids: Forest, ghost menu: Ptr, ghost rest: Forest)
      requires links.Has(p) && links.parent[p] == up && kids.Cons? && last == LastId(kids)
      requires Seg(links, links.next[p], To(p), kids, menu) && Seg(links, menu, up, rest, Null)
      requires Distinct(kids) && Ids(kids) !! Ids(rest) && p !in Ids(kids) && p !in Ids(rest)
      modifies `links
      ensures Seg(links, To(p), up, Cons(p, kids, rest), Null) && Only({p} + Ids(kids), old(links), links)
    {
      ghost var l := links;
      SegLast(links, links.next[p], To(p), kids, menu);
      links := SetList(links, p, links.next[p]);
      links := SetNext(links, p, links.next[last]);
      links := SetNext(links, last, Null);
      AbsorbedAll(l, links, p, up, kids, menu, rest);
    }

    /** The state of that search: done have been given to p, menu starts the rest. */
    ghost predicate Searching(l: Links, p: nat, up: Ptr, rest: Forest, done: Forest, todo: Forest, menu: Ptr,
                              log: seq<nat>, lo: nat)
      reads this
    {
      && Found(l, links, p, up, rest, done, todo, menu) && finalized == log + Preorder(done)
      && lo <= tests && Passed(done, p, absorbs, lo, tests)
    }

    /** The search for the entries that depend on p: kids' have been given to p, menu starts the rest. */
    method FindAbsorbed(p: nat, ghost up: Ptr, ghost rest: Forest)
      returns (last: Ptr, ghost end: Ptr, ghost kids': Forest, ghost rest': Forest)
      requires Seg(links, To(p), up, Cons(p, Nil, rest), Null) && Distinct(Cons(p, Nil, rest))
      modifies this
      ensures Parts(rest, kids', rest') && Tail(rest', rest) && Only(Ids(rest), old(links), links)
      ensures Seg(links, old(links).next[p], To(p), kids', end) && Seg(links, end, up, rest', Null)
      ensures finalized == old(finalized) + Preorder(kids')
      ensures tests >= old(tests) && Passed(kids', p, absorbs, old(tests), tests)
      ensures rest'.Cons? ==> tests > old(tests) && !absorbs(p, rest'.id, tests)
      ensures last == if kids'.Nil? then Null else To(LastId(kids'))
      decreases Size(rest), 1
    {
      var menu := links.next[p];
      ghost var l := links;
      last, kids', rest' := Null, Nil, rest;
      while menu != Null
        invariant Searching(l, p, up, rest, kids', rest', menu, old(finalized), old(tests))
        invariant last == if kids'.Nil? then Null else To(LastId(kids'))
        decreases Size(rest')
      {
        tests := tests + 1;
        if !absorbs(p, menu.id, tests) {
          PassedLater(kids', p, absorbs, old(tests), tests - 1, tests);
          end := menu;
          return;
        }
        kids', rest' := AbsorbNext(menu.id, p, up, l, rest, kids', rest', old(finalized), old(tests));
        last := menu;
        menu := links.next[menu.id];
      }
      end := Null;
    }

    /** One turn of the search, for an entry that passed its test. */
    method AbsorbNext(id: nat, p: nat, ghost up: Ptr, ghost l: Links, ghost rest: Forest, ghost done: Forest,
                      ghost todo: Forest, ghost log: seq<nat>, ghost lo: nat)
      returns (ghost done': Forest, ghost todo': Forest)
      requires todo.Cons? && todo.id == id && Found(l, links, p, up, rest, done, todo, To(id))
      requires lo < tests && absorbs(p, id, tests) && Passed(done, p, absorbs, lo, tests - 1)
      requires finalized == log + Preorder(done)
      modifies this
      ensures links.Has(id) && Searching(l, p, up, rest, done', todo', links.next[id], log, lo)
      ensures done'.Cons? && LastId(done') == id && Size(todo') < Size(todo)
      decreases Size(todo), 0
    {
      ghost var l1 := links;
      ghost var l2, k;
      l2, k, todo' := FinalizeInto(id, p, up, todo.kids, todo.rest);
      done' := App(done, Cons(id, k, Nil));
      FoundNext(l, l1, l2, links, p, up, rest, done, todo, k, todo');
      LogStep(log, Preorder(done), id, Preorder(k));
      PassedNext(done, id, k, p, absorbs, lo, old(tests), tests);
    }

    /** One entry that depends on p. */
    method FinalizeInto(id: nat, p: nat, ghost up: Ptr, ghost kids: Forest, ghost rest: Forest)
      returns (ghost l: Links, ghost k: Forest, ghost r: Forest)
      requires Seg(links, To(id), up, Cons(id, kids, rest), Null) && Distinct(Cons(id, kids, rest))
      modifies this
      ensures l.Has(id) && links == SetParent(l, id, To(p)) && Only(Ids(Cons(id, kids, rest)), old(links), l)
      ensures Seg(l, To(id), up, Cons(id, k, r), Null)
      ensures Preorder(k) + Preorder(r) == Preorder(kids) + Preorder(rest) && Tail(r, rest)
      ensures finalized == old(finalized) + [id] + Preorder(k) && tests >= old(tests)
      decreases Size(kids) + Size(rest), 5
    {
      k, r := Finalize(id, up, kids, rest);
      l := links;
      links := SetParent(links, id, To(p));
    }

    /** The second half: the lists of entries without a prompt move up one level. */
    method Hoist(p: nat, ghost up: Ptr, ghost kids: Forest, ghost rest: Forest) returns (ghost kids': Forest)
      requires Seg(links, To(p), up, Cons(p, kids, rest), Null) && Distinct(Cons(p, kids, rest))
      modifies `links
      ensures Seg(links, To(p), up, Cons(p, kids', rest), Null)
      ensures kids' == Hoisted(kids, prompted) && NothingHidden(kids', prompted)
      ensures Preorder(kids') == Preorder(kids) && Ids(kids') == Ids(kids)
      ensures Only(Ids(kids), old(links), links)
    {
      var menu := links.list[p];
      ghost var todo, l := kids, links;
      kids' := Nil;
      while menu != Null
        invariant Parts(kids, kids', todo) && Only(Ids(kids), l, links)
        invariant App(kids', Hoisted(todo, prompted)) == Hoisted(kids, prompted)
        invariant Seg(links, l.list[p], To(p), kids', menu) && Seg(links, menu, To(p), todo, Null)
        decreases Size(todo)
      {
        ghost var l1 := links;
        ghost var k, r := HoistOne(menu.id, p, todo.kids, todo.rest);
        Advance(l, l1, links, kids, l.list[p], To(p), kids', todo, k, r);
        AppAssoc(kids', Cons(menu.id, k, Nil), Hoisted(r, prompted));
        kids', todo := App(kids', Cons(menu.id, k, Nil)), r;
        menu := links.next[menu.id];
      }
      AppAssoc(kids', Nil, Nil);
      HoistedKeeps(kids, prompted);
      SegFrame(l, links, Ids(kids), l.next[p], up, rest, Null);
    }

    /** One turn of that loop. */
    method HoistOne(id: nat, p: nat, ghost kids: Forest, ghost rest: Forest) returns (ghost k: Forest, ghost r: Forest)
      requires Seg(links, To(id), To(p), Cons(id, kids, rest), Null) && Distinct(Cons(id, kids, rest))
      modifies `links
      ensures Seg(links, To(id), To(p), Cons(id, k, r), Null)
      ensures k == if kids.Cons? && !prompted(id) then Nil else kids
      ensures r == if kids.Cons? && !prompted(id) then App(kids, rest) else rest
      ensures Preorder(k) + Preorder(r) == Preorder(kids) + Preorder(rest)
      ensures Only(Ids(Cons(id, kids, rest)), old(links), links)
    {
      k, r := kids, rest;
      if links.list[id] != Null && !prompted(id) {
        ghost var l := links;
        var last := MoveUp(id, p, kids);
        ghost var l1 := links;
        SegFrame(l, l1, Ids(kids), l.next[id], To(p), rest, Null);
        PutBehind(id, last, p, kids, rest);
        OnlyTwice(Ids(Cons(id, kids, rest)), {id} + Ids(kids), l, l1, links);
        HoistOrder(kids, rest);
        k, r := Nil, App(kids, rest);
      }
    }

    /** The list of id, which ends in last, goes between id and the next entry. */
    method PutBehind(id: nat, last: nat, ghost p: nat, ghost moved: Forest, ghost rest: Forest)
      requires links.Has(id) && links.parent[id] == To(p) && moved.Cons? && last == LastId(moved)
      requires Seg(links, links.list[id], To(p), moved, Null) && Seg(links, links.next[id], To(p), rest, Null)
      requires Distinct(moved) && Ids(moved) !! Ids(rest) && id !in Ids(moved) && id !in Ids(rest)
      modifies `links
      ensures Seg(links, To(id), To(p), Cons(id, Nil, App(moved, rest)), Null)
      ensures Only({id} + Ids(moved), old(links), links)
    {
      SegLast(links, links.list[id], To(p), moved, Null);
      links := SetNext(links, last, links.next[id]);
      links := SetNext(links, id, links.list[id]);
      links := SetList(links, id, Null);
      MovedUp(old(links), links, id, p, moved, rest);
    }

    /** All entries in the list of id are given to p; last is the last one. */
    method MoveUp(id: nat, p: nat, ghost kids: Forest) returns (last: nat)
      requires links.Has(id) && Seg(links, links.list[id], To(id), kids, Null) && Distinct(kids) && id !in Ids(kids)
      requires links.list[id] != Null
      modifies `links
      ensures kids.Cons? && last == LastId(kids) && Only(Ids(kids), old(links), links)
      ensures Seg(links, links.list[id], To(p), kids, Null)
    {
      ghost var l, moved, todo := links, Cons(kids.id, kids.kids, Nil), kids.rest;
      last := links.list[id].id;
      links := SetParent(links, last, To(p));
      AdvanceTo(l, l, l, links, kids, l.list[id], p, To(id), Nil, kids, kids.kids, kids.rest);
      while links.next[last] != Null
        invariant Parts(kids, moved, todo) && Only(Ids(kids), l, links) && links.Has(last)
        invariant moved.Cons? && last == LastId(moved) && App(moved, todo) == kids
        invariant Seg(links, l.list[id], To(p), moved, links.next[last])
        invariant Seg(links, links.next[last], To(id), todo, Null)
        decreases Size(todo)
      {
        ghost var l1 := links;
        last := links.next[last].id;
        links := SetParent(links, last, To(p));
        AdvanceTo(l, l1, l1, links, kids, l.list[id], p, To(id), moved, todo, todo.kids, todo.rest);
        AppAssoc(moved, Cons(last, todo.kids, Nil), todo.rest);
        moved, todo := App(moved, Cons(last, todo.kids, Nil)), todo.rest;
      }
      AppAssoc(moved, Nil, Nil);
    }
  }

  lemma HoistOrder(kids: Forest, rest: Forest)
    ensures Preorder(Nil) + Preorder(App(kids, rest)) == Preorder(kids) + Preorder(rest)
  {
    PreorderApp(kids, rest);
    assert Preorder(Nil) == [];
  }

  lemma SegLast(l: Links, p: Ptr, up: Ptr, f: Forest, q: Ptr)
    requires Seg(l, p, up, f, q) && f.Cons? && Distinct(f)
    ensures l.Has(LastId(f)) && LastId(f) in Ids(f) && l.next[LastId(f)] == q
  {
    SegRelink(l, p, up, f, q, q);
  }

  /** The absorbed entries become the list of p. */
  lemma AbsorbedAll(l: Links, l': Links, p: nat, up: Ptr, kids: Forest, menu: Ptr, rest: Forest)
    requires l.Has(p) && l.parent[p] == up && kids.Cons?
    requires Seg(l, l.next[p], To(p), kids, menu) && Seg(l, menu, up, rest, Null)
    requires Distinct(kids) && Ids(kids) !! Ids(rest) && p !in Ids(kids) && p !in Ids(rest)
    requires l.Has(LastId(kids))
    requires l' == SetNext(SetNext(SetList(l, p, l.next[p]), p, l.next[LastId(kids)]), LastId(kids), Null)
    ensures Seg(l', To(p), up, Cons(p, kids, rest), Null) && Only({p} + Ids(kids), l, l')
  {
    SegRelink(l, l.next[p], To(p), kids, menu, Null);
    var l1 := SetNext(l, LastId(kids), Null);
    SegFrame(l1, l', {p}, l.next[p], To(p), kids, Null);
    SegFrame(l, l', {p} + Ids(kids), menu, up, rest, Null);
  }

  lemma MovedUp(l: Links, l': Links, id: nat, p: nat, moved: Forest, rest: Forest)
    requires l.Has(id) && l.parent[id] == To(p) && moved.Cons? && l.Has(LastId(moved))
    requires Seg(l, l.list[id], To(p), moved, Null) && Seg(l, l.next[id], To(p), rest, Null)
    requires Distinct(moved) && Ids(moved) !! Ids(rest) && id !in Ids(moved) && id !in Ids(rest)
    requires l' == SetList(SetNext(SetNext(l, LastId(moved), l.next[id]), id, l.list[id]), id, Null)
    ensures Seg(l', To(id), To(p), Cons(id, Nil, App(moved, rest)), Null) && Only({id} + Ids(moved), l, l')
  {
    SegRelink(l, l.list[id], To(p), moved, Null, l.next[id]);
    var l1 := SetNext(l, LastId(moved), l.next[id]);
    SegFrame(l1, l', {id}, l.list[id], To(p), moved, l.next[id]);
    SegFrame(l, l', {id} + Ids(moved), l.next[id], To(p), rest, Null);
    SegApp(l', l.list[id], To(p), moved, l.next[id], rest, Null);
  }
}
