/** The loop of conf_write in confdata.c over the menu tree: list, next and parent, and no stack. */
module MenuWalk {
  import opened Menus

  /** Where a walk still has to go when the list it is in is finished: below root, or to the entries
      after parent and then on from there. */
  datatype Context = Below(root: nat) | In(parent: nat, rest: Forest, up: Context) {
    function Owner(): Ptr {
      To(if Below? then root else parent)
    }

    ghost predicate Valid(l: Links) {
      match this
      case Below(root) => l.Has(root) && l.next[root] == Null && l.parent[root] == Null
      case In(parent, rest, up) =>
        && l.Has(parent) && l.parent[parent] == up.Owner()
        && Seg(l, l.next[parent], up.Owner(), rest, Null) && up.Valid(l)
    }

    function Order(): seq<nat> {
      if Below? then [] else Preorder(rest) + up.Order()
    }
  }

  /** A walk that has visited some entries is about to enter f. */
  ghost predicate Walking(l: Links, menu: Ptr, f: Forest, c: Context, visited: seq<nat>, all: seq<nat>) {
    && Seg(l, menu, c.Owner(), f, Null) && c.Valid(l)
    && visited + (Preorder(f) + c.Order()) == all
  }

  lemma EnterList(l: Links, f: Forest, c: Context, visited: seq<nat>, all: seq<nat>)
    requires f.Cons? && Walking(l, To(f.id), f, c, visited, all)
    ensures Walking(l, l.list[f.id], f.kids, In(f.id, f.rest, c), visited + [f.id], all)
  {
    var k, r, o := Preorder(f.kids), Preorder(f.rest), c.Order();
    assert [f.id] + k + r + o == [f.id] + (k + (r + o));
    assert visited + ([f.id] + (k + (r + o))) == visited + [f.id] + (k + (r + o));
  }

  /** The list is finished: up to the entry it belongs to, and on behind it. */
  lemma LeaveList(l: Links, parent: nat, rest: Forest, up: Context, visited: seq<nat>, all: seq<nat>)
    requires Walking(l, Null, Nil, In(parent, rest, up), visited, all)
    ensures Walking(l, l.next[parent], rest, up, visited, all)
  {
    assert [] + (Preorder(rest) + up.Order()) == Preorder(rest) + up.Order();
  }

  lemma WalkDone(l: Links, root: nat, visited: seq<nat>, all: seq<nat>)
    requires Walking(l, Null, Nil, Below(root), visited, all)
    ensures visited == all
  {
    assert visited + ([] + []) == visited;
  }

  function Pending(f: Forest, c: Context): nat
    decreases c
  {
    Size(f) + if c.Below? then 0 else Pending(c.rest, c.up)
  }

  lemma PendingSplit(f: Forest, c: Context)
    ensures Pending(f, c) == Size(f) + Pending(Nil, c)
  {}

  function Depth(c: Context): nat {
    if c.Below? then 0 else 1 + Depth(c.up)
  }

  /** The climb: from an entry without successor to the next one to visit, or to the end. */
  method Climb(l: Links, menu0: nat, ghost c0: Context, ghost visited: seq<nat>, ghost all: seq<nat>)
    returns (menu: Ptr, ghost f: Forest, ghost c: Context)
    requires l.Has(menu0) && l.parent[menu0] == c0.Owner() && Walking(l, Null, Nil, c0, visited, all)
    ensures menu != Null ==> Walking(l, menu, f, c, visited, all) && Pending(f, c) <= Pending(Nil, c0)
    ensures menu == Null ==> visited == all
  {
    menu, c, f := l.parent[menu0], c0, Nil;
    while menu != Null
      invariant menu != Null ==> menu == c.Owner() && Walking(l, Null, Nil, c, visited, all)
      invariant menu == Null ==> visited == all
      invariant Pending(Nil, c) <= Pending(Nil, c0)
      decreases if menu == Null then 0 else 1 + Depth(c)
    {
      ghost var here := c;
      if here.Below? {
        WalkDone(l, here.root, visited, all);
      } else {
        LeaveList(l, here.parent, here.rest, here.up, visited, all);
        f, c := here.rest, here.up;
      }
      if l.next[menu.id] != Null {
        menu := l.next[menu.id];
        return;
      }
      menu := l.parent[menu.id];
    }
  }

  /** The loop of conf_write. Main result: it visits every entry once, in preorder. */
  method Walk(l: Links, root: nat, ghost forest: Forest) returns (visited: seq<nat>)
    requires l.Has(root) && Seg(l, To(root), Null, Cons(root, forest, Nil), Null)
    ensures visited == Preorder(forest)
  {
    var menu := l.list[root];
    ghost var f, c := forest, Below(root);
    visited := [];
    assert [] + (Preorder(forest) + []) == Preorder(forest);
    while menu != Null
      invariant menu != Null ==> Walking(l, menu, f, c, visited, Preorder(forest))
      invariant menu == Null ==> visited == Preorder(forest)
      decreases if menu == Null then 0 else 1 + Pending(f, c)
    {
      EnterList(l, f, c, visited, Preorder(forest));
      PendingSplit(f, c);
      PendingSplit(f.rest, c);
      PendingSplit(f.kids, In(menu.id, f.rest, c));
      var id := menu.id;
      visited := visited + [id];
      if l.list[id] != Null {
        f, c := f.kids, In(id, f.rest, c);
        menu := l.list[id];
      } else {
        LeaveList(l, id, f.rest, c, visited, Preorder(forest));
        if l.next[id] != Null {
          f := f.rest;
          menu := l.next[id];
        } else {
          menu, f, c := Climb(l, id, c, visited, Preorder(forest));
        }
      }
    }
  }

  lemma NothingBehind(f: Forest, f': Forest, r: Forest)
    requires Preorder(f') + Preorder(r) == Preorder(f) + Preorder(Nil) && Tail(r, Nil)
    ensures r == Nil && Preorder(f') == Preorder(f)
  {
    assert Preorder(f') + [] == Preorder(f') && Preorder(f) + [] == Preorder(f);
  }

  /** Main result: whatever the dependency tests say and wherever prompts are missing, finalizing the
      root finalizes every entry exactly once, keeps the order of the entries, leaves every entry with the
      owner of its list as its parent, and the configuration is written in that order. */
  method FinalizeAndWrite(t: MenuTree, root: nat, ghost forest: Forest)
    returns (visited: seq<nat>, ghost forest': Forest)
    requires t.finalized == [] && Seg(t.links, To(root), Null, Cons(root, forest, Nil), Null)
    requires Distinct(Cons(root, forest, Nil))
    modifies t
    ensures visited == Preorder(forest) && t.finalized == [root] + Preorder(forest)
    ensures Seg(t.links, To(root), Null, Cons(root, forest', Nil), Null) && Preorder(forest') == Preorder(forest)
    ensures NothingHidden(forest', t.prompted)
  {
    ghost var rest';
    forest', rest' := t.Finalize(root, Null, forest, Nil);
    NothingBehind(forest, forest', rest');
    LogAlone(root, Preorder(forest'));
    visited := Walk(t.links, root, forest');
  }

  lemma LogAlone(root: nat, s: seq<nat>)
    ensures [] + [root] + s == [root] + s
  {}
}
