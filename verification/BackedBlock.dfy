/** The queue of data blocks of backed_block.c: a sorted linked list with a shortcut to the node that
    was inserted last. */
module BackedBlocks {
  import opened Rounding

  datatype Source = Data(bytes: seq<bv8>) | File(name: string, offset: nat)

  /** len bytes that go to consecutive blocks of the image. */
  datatype Db = Db(block: nat, len: nat, source: Source) {
    function Blocks(blockSize: nat): nat
      requires blockSize > 0
    {
      DivRoundUp(len, blockSize)
    }

    predicate Fits(blockSize: nat)
      requires blockSize > 0
    {
      len > 0 && block + Blocks(blockSize) <= 0x1_0000_0000
    }

    /** This one ends before the other starts. */
    predicate Before(d: Db, blockSize: nat)
      requires blockSize > 0
    {
      block + Blocks(blockSize) <= d.block
    }
  }

  // ---------------------------------------------------------------- insertion from the head

  /** The node the search stops at when it starts from i. */
  function Walk(s: seq<Db>, i: nat, block: nat): (r: nat)
    requires i < |s|
    ensures i <= r < |s|
    decreases |s| - i
  {
    if i + 1 < |s| && s[i + 1].block < block then Walk(s, i + 1, block) else i
  }

  function Position(s: seq<Db>, d: Db): (p: nat)
    ensures p <= |s|
  {
    if s == [] || s[0].block > d.block then 0 else Walk(s, 0, d.block) + 1
  }

  function Insert(s: seq<Db>, d: Db): seq<Db> {
    s[..Position(s, d)] + [d] + s[Position(s, d)..]
  }

  predicate Sorted(s: seq<Db>) {
    forall i, j :: 0 <= i < j < |s| ==> s[i].block <= s[j].block
  }

  /** Starting further on makes no difference, as long as the block there is smaller. */
  lemma {:induction false} WalkFrom(s: seq<Db>, i: nat, k: nat, block: nat)
    requires Sorted(s) && i <= k < |s| && (i == k || s[k].block < block)
    ensures Walk(s, i, block) == Walk(s, k, block)
    decreases k - i
  {
    if i < k {
      assert s[i + 1].block <= s[k].block;
      WalkFrom(s, i + 1, k, block);
    }
  }

  lemma {:induction false} WalkStops(s: seq<Db>, i: nat, block: nat)
    requires Sorted(s) && i < |s| && s[i].block <= block
    ensures var r := Walk(s, i, block);
            && s[r].block <= block
            && (r + 1 < |s| ==> block <= s[r + 1].block)
    decreases |s| - i
  {
    if i + 1 < |s| && s[i + 1].block < block {
      WalkStops(s, i + 1, block);
    }
  }

  /** Exactly where a block comes: behind all that start before it, and behind the head of the list if that
      starts at the same block; before all other ones that do. */
  lemma PlacedExactly(s: seq<Db>, d: Db, i: nat)
    requires Sorted(s) && i < |s|
    ensures i < Position(s, d) <==> s[i].block < d.block || (i == 0 && s[0].block == d.block)
  {
    if s[0].block <= d.block {
      WalkPast(s, 0, d.block, i);
    }
  }

  lemma {:induction false} WalkPast(s: seq<Db>, i: nat, block: nat, k: nat)
    requires Sorted(s) && i < |s| && k < |s|
    ensures k <= Walk(s, i, block) <==> k <= i || s[k].block < block
    decreases |s| - i
  {
    if i + 1 < |s| && s[i + 1].block < block {
      WalkPast(s, i + 1, block, k);
    }
  }

  lemma InsertSorted(s: seq<Db>, d: Db)
    requires Sorted(s)
    ensures Sorted(Insert(s, d))
  {
    var p := Position(s, d);
    if p > 0 {
      WalkStops(s, 0, d.block);
    }
    SpliceSorted(s, d, p);
  }

  lemma SpliceSorted(s: seq<Db>, d: Db, p: nat)
    requires Sorted(s) && p <= |s|
    requires p > 0 ==> s[p - 1].block <= d.block
    requires p < |s| ==> d.block <= s[p].block
    ensures Sorted(s[..p] + [d] + s[p..])
  {
    var t := s[..p] + [d] + s[p..];
    forall i | 0 <= i < |t|
      ensures t[i] == if i < p then s[i] else if i == p then d else s[i - 1]
    {}
    forall i, j | 0 <= i < j < |t|
      ensures t[i].block <= t[j].block
    {}
  }

  lemma InsertMultiset(s: seq<Db>, d: Db)
    ensures multiset(Insert(s, d)) == multiset(s) + multiset{d}
  {
    var p := Position(s, d);
    assert s == s[..p] + s[p..];
  }

  // ---------------------------------------------------------------- the linked list

  class Node {
    const db: Db
    var next: Node?

    constructor (db: Db)
      ensures this.db == db && next == null
    {
      this.db, next := db, null;
    }
  }

  ghost predicate Distinct(nodes: seq<Node>) {
    forall i, j :: 0 <= i < j < |nodes| ==> nodes[i] != nodes[j]
  }

  lemma SpliceDistinct(nodes: seq<Node>, n: Node, p: nat)
    requires Distinct(nodes) && n !in nodes && p <= |nodes|
    ensures Distinct(nodes[..p] + [n] + nodes[p..])
  {}

  /** data_blocks and last_used. */
  class Queue {
    var dataBlocks: Node?
    var lastUsed: Node?
    ghost var nodes: seq<Node>
    ghost var contents: seq<Db>

    ghost predicate Valid()
      reads this, nodes
    {
      Chain() && Sorted(contents) && (lastUsed != null ==> lastUsed in nodes)
    }

    ghost function Footprint(): set<object>
      reads this
    {
      set n | n in nodes
    }

    /** The nodes, in the order of the list, hold the contents. */
    ghost predicate Chain()
      reads this, nodes
    {
      && |contents| == |nodes| && Distinct(nodes) && dataBlocks == NodeAt(0)
      && forall i {:trigger Linked(i)} :: 0 <= i < |nodes| ==> Linked(i)
    }

    ghost function NodeAt(i: nat): Node?
      reads this
    {
      if i < |nodes| then nodes[i] else null
    }

    ghost predicate Linked(i: nat)
      requires i < |nodes| == |contents|
      reads this, nodes
    {
      nodes[i].db == contents[i] && nodes[i].next == NodeAt(i + 1)
    }

    constructor ()
      ensures Valid() && contents == [] && nodes == []
    {
      dataBlocks, lastUsed, nodes, contents := null, null, [], [];
    }

    /** queue_db. With or without the shortcut, the new block ends up where the search from the head
        would have put it. */
    method QueueDb(newDb: Node)
      requires Valid() && newDb !in nodes && newDb.next == null
      modifies this, nodes, newDb
      ensures Valid() && contents == Insert(old(contents), newDb.db)
      ensures nodes == old(nodes)[..Position(old(contents), newDb.db)] + [newDb]
                       + old(nodes)[Position(old(contents), newDb.db)..]
    {
      if dataBlocks == null {
        dataBlocks := newDb;
        nodes, contents := [newDb], [newDb.db];
        assert Linked(0);
        return;
      }
      assert Linked(0);
      if dataBlocks.db.block > newDb.db.block {
        PushFront(newDb);
        return;
      }
      QueueBehind(newDb);
    }

    method QueueBehind(newDb: Node)
      requires Valid() && newDb !in nodes && nodes != [] && contents[0].block <= newDb.db.block
      modifies this, nodes, newDb
      ensures Valid() && contents == Insert(old(contents), newDb.db)
      ensures nodes == old(nodes)[..Position(old(contents), newDb.db)] + [newDb]
                       + old(nodes)[Position(old(contents), newDb.db)..]
    {
      var db: Node, k := FindPlace(newDb.db.block);
      lastUsed := newDb;
      forall i | 0 <= i < |nodes|
        ensures Linked(i)
      {
        assert old(Linked(i));
      }
      InsertSorted(contents, newDb.db);
      InsertAfter(db, k, newDb);
    }

    method PushFront(newDb: Node)
      requires Valid() && newDb !in nodes
      requires nodes != [] && contents[0].block > newDb.db.block
      modifies this, newDb
      ensures Valid() && contents == [newDb.db] + old(contents) && nodes == [newDb] + old(nodes)
    {
      SpliceSorted(contents, newDb.db, 0);
      newDb.next := dataBlocks;
      dataBlocks := newDb;
      nodes, contents := [newDb] + nodes, contents[..0] + [newDb.db] + contents[0..];
      forall i | 0 <= i < |nodes|
        ensures Linked(i)
      {
        assert i > 0 ==> old(Linked(i - 1));
      }
    }

    /** The search of queue_db: the node to insert after, with its place in the list. */
    method FindPlace(block: nat) returns (db: Node, ghost k: nat)
      requires Valid() && nodes != [] && contents[0].block <= block
      ensures k < |nodes| && db == nodes[k] && k == Walk(contents, 0, block)
    {
      assert Linked(0);
      if lastUsed != null && block > lastUsed.db.block {
        db := lastUsed;
        k :| k < |nodes| && nodes[k] == lastUsed;
        assert Linked(k);
        WalkFrom(contents, 0, k, block);
      } else {
        db, k := dataBlocks, 0;
      }
      while db.next != null && db.next.db.block < block
        invariant k < |nodes| && db == nodes[k]
        invariant Walk(contents, 0, block) == Walk(contents, k, block)
        decreases |nodes| - k
      {
        assert Linked(k) && Linked(k + 1);
        db, k := db.next, k + 1;
      }
      assert Linked(k);
      assert k + 1 < |nodes| ==> Linked(k + 1);
    }

    method InsertAfter(db: Node, ghost k: nat, newDb: Node)
      requires Chain() && newDb !in nodes && k < |nodes| && db == nodes[k]
      modifies `nodes, `contents, db, newDb
      ensures Chain()
      ensures contents == old(contents)[..k + 1] + [newDb.db] + old(contents)[k + 1..]
      ensures nodes == old(nodes)[..k + 1] + [newDb] + old(nodes)[k + 1..]
    {
      SpliceDistinct(nodes, newDb, k + 1);
      assert Linked(k);
      newDb.next := db.next;
      db.next := newDb;
      nodes := nodes[..k + 1] + [newDb] + nodes[k + 1..];
      contents := contents[..k + 1] + [newDb.db] + contents[k + 1..];
      forall i | 0 <= i < |nodes|
        ensures Linked(i)
      {
        assert i <= k ==> old(Linked(i));
        assert i > k + 1 ==> old(Linked(i - 1));
      }
    }

    /** queue_data_block, queue_data_file. */
    method QueueData(d: Db)
      requires Valid()
      modifies this, Footprint()
      ensures Valid() && contents == Insert(old(contents), d) && fresh(Footprint() - old(Footprint()))
    {
      var newDb := new Node(d);
      QueueDb(newDb);
    }

    /** for_each_data_block: the callbacks made, in order, and whether a block was reported out of
        order. */
    method ForEach(blockSize: nat) returns (calls: seq<Db>, reported: bool)
      requires Valid() && blockSize > 0
      ensures calls == contents && (reported <==> Reported(contents, blockSize))
      ensures AllFit(contents, blockSize) ==> (reported <==> exists i: nat :: OverlapsByTwo(contents, i, blockSize))
    {
      calls, reported := [], false;
      var lastBlock, db: Node? := 0, dataBlocks;
      while db != null
        invariant |calls| <= |nodes| && db == NodeAt(|calls|) && calls == contents[..|calls|]
        invariant lastBlock == LastBlock(calls, blockSize)
        invariant reported <==> Reported(calls, blockSize)
        decreases |nodes| - |calls|
      {
        ghost var before := calls;
        assert Linked(|calls|);
        if db.db.block < lastBlock {
          reported := true;
        }
        lastBlock := (db.db.block + db.db.Blocks(blockSize) - 1) % 0x1_0000_0000;
        calls := calls + [db.db];
        assert calls[..|before|] == before;
        db := db.next;
      }
      assert contents[..|contents|] == contents;
      if AllFit(contents, blockSize) {
        ReportedOverlaps(contents, blockSize);
      }
    }
  }

  /** The last block of the last callback, in 32 bits. */
  function LastBlock(calls: seq<Db>, blockSize: nat): nat
    requires blockSize > 0
  {
    if calls == [] then 0
    else (calls[|calls| - 1].block + calls[|calls| - 1].Blocks(blockSize) - 1) % 0x1_0000_0000
  }

  predicate Reported(calls: seq<Db>, blockSize: nat)
    requires blockSize > 0
  {
    calls != [] &&
    var n := |calls| - 1;
    (Reported(calls[..n], blockSize) || calls[n].block < LastBlock(calls[..n], blockSize))
  }

  // ---------------------------------------------------------------- runs

  /** The queue after some insertions. */
  function Queued(inserted: seq<Db>): seq<Db> {
    if inserted == [] then [] else Insert(Queued(inserted[..|inserted| - 1]), inserted[|inserted| - 1])
  }

  predicate AllFit(s: seq<Db>, blockSize: nat)
    requires blockSize > 0
  {
    forall i {:trigger s[i].Fits(blockSize)} :: 0 <= i < |s| ==> s[i].Fits(blockSize)
  }

  /** No two insertions share a block, and all of them fit into a 32-bit address space. */
  ghost predicate Disjoint(s: seq<Db>, blockSize: nat)
    requires blockSize > 0
  {
    && AllFit(s, blockSize)
    && (forall i, j {:trigger s[i].Before(s[j], blockSize)} :: 0 <= i < |s| && 0 <= j < |s| && i != j ==>
          s[i].Before(s[j], blockSize) || s[j].Before(s[i], blockSize))
  }

  predicate Ascending(s: seq<Db>, blockSize: nat)
    requires blockSize > 0
  {
    forall i, j {:trigger s[i].Before(s[j], blockSize)} :: 0 <= i < j < |s| ==> s[i].Before(s[j], blockSize)
  }

  lemma LastOfAll<T>(s: seq<T>)
    requires s != []
    ensures var n := |s| - 1; multiset(s) == multiset(s[..n]) + multiset{s[n]}
  {
    var n := |s| - 1;
    assert s == s[..n] + [s[n]];
  }

  lemma {:induction false} QueuedSorted(inserted: seq<Db>)
    ensures Sorted(Queued(inserted)) && multiset(Queued(inserted)) == multiset(inserted)
  {
    if inserted != [] {
      var n := |inserted| - 1;
      QueuedSorted(inserted[..n]);
      InsertSorted(Queued(inserted[..n]), inserted[n]);
      InsertMultiset(Queued(inserted[..n]), inserted[n]);
      LastOfAll(inserted);
    }
  }

  lemma {:induction false} QueuedDisjoint(inserted: seq<Db>, blockSize: nat)
    requires blockSize > 0 && Disjoint(inserted, blockSize)
    ensures Disjoint(Queued(inserted), blockSize)
  {
    if inserted != [] {
      var n := |inserted| - 1;
      var s, d := Queued(inserted[..n]), inserted[n];
      DisjointPrefix(inserted, blockSize, n);
      QueuedDisjoint(inserted[..n], blockSize);
      QueuedSorted(inserted[..n]);
      LastDisjoint(inserted, blockSize, s);
      assert d.Fits(blockSize);
      InsertDisjoint(s, d, blockSize);
    }
  }

  lemma LastDisjoint(inserted: seq<Db>, blockSize: nat, s: seq<Db>)
    requires blockSize > 0 && Disjoint(inserted, blockSize) && inserted != []
    requires multiset(s) == multiset(inserted[..|inserted| - 1])
    ensures forall i {:trigger s[i].Before(inserted[|inserted| - 1], blockSize)} :: 0 <= i < |s| ==>
              var d := inserted[|inserted| - 1];
              s[i].Before(d, blockSize) || d.Before(s[i], blockSize)
  {
    var n := |inserted| - 1;
    var d := inserted[n];
    forall i | 0 <= i < |s|
      ensures s[i].Before(d, blockSize) || d.Before(s[i], blockSize)
    {
      assert s[i] in multiset(s);
      var k :| 0 <= k < n && inserted[..n][k] == s[i];
      assert inserted[k].Before(d, blockSize) || d.Before(inserted[k], blockSize);
    }
  }

  lemma DisjointPrefix(s: seq<Db>, blockSize: nat, n: nat)
    requires blockSize > 0 && Disjoint(s, blockSize) && n <= |s|
    ensures Disjoint(s[..n], blockSize)
  {
    forall i | 0 <= i < n
      ensures s[..n][i].Fits(blockSize)
    {
      assert s[i].Fits(blockSize);
    }
    forall i, j | 0 <= i < n && 0 <= j < n && i != j
      ensures s[..n][i].Before(s[..n][j], blockSize) || s[..n][j].Before(s[..n][i], blockSize)
    {
      assert s[i].Before(s[j], blockSize) || s[j].Before(s[i], blockSize);
    }
  }

  lemma InsertDisjoint(s: seq<Db>, d: Db, blockSize: nat)
    requires blockSize > 0 && Disjoint(s, blockSize) && d.Fits(blockSize)
    requires forall i {:trigger s[i].Before(d, blockSize)} :: 0 <= i < |s| ==>
               s[i].Before(d, blockSize) || d.Before(s[i], blockSize)
    ensures Disjoint(Insert(s, d), blockSize)
  {
    var p, t := Position(s, d), Insert(s, d);
    forall i | 0 <= i < |t|
      ensures t[i].Fits(blockSize)
    {
      assert i < p ==> s[i].Fits(blockSize);
      assert i > p ==> s[i - 1].Fits(blockSize);
    }
    forall i, j | 0 <= i < |t| && 0 <= j < |t| && i != j
      ensures t[i].Before(t[j], blockSize) || t[j].Before(t[i], blockSize)
    {
      var i', j' := if i < p then i else i - 1, if j < p then j else j - 1;
      if i == p {
        assert s[j'].Before(d, blockSize) || d.Before(s[j'], blockSize);
      } else if j == p {
        assert s[i'].Before(d, blockSize) || d.Before(s[i'], blockSize);
      } else {
        assert s[i'].Before(s[j'], blockSize) || s[j'].Before(s[i'], blockSize);
      }
    }
  }

  /** Main result: blocks that do not overlap are replayed in ascending order and none is reported,
      whatever the order they were queued in. */
  lemma ReplayAscending(inserted: seq<Db>, blockSize: nat)
    requires blockSize > 0 && Disjoint(inserted, blockSize)
    ensures Ascending(Queued(inserted), blockSize) && !Reported(Queued(inserted), blockSize)
    ensures multiset(Queued(inserted)) == multiset(inserted)
  {
    var s := Queued(inserted);
    QueuedSorted(inserted);
    QueuedDisjoint(inserted, blockSize);
    DisjointAscending(s, blockSize);
    AscendingUnreported(s, blockSize);
  }

  lemma DisjointAscending(s: seq<Db>, blockSize: nat)
    requires blockSize > 0 && Sorted(s) && Disjoint(s, blockSize)
    ensures Ascending(s, blockSize)
  {
    forall i, j | 0 <= i < j < |s|
      ensures s[i].Before(s[j], blockSize)
    {
      assert s[i].Before(s[j], blockSize) || s[j].Before(s[i], blockSize);
      assert s[j].Fits(blockSize);
      assert s[i].block <= s[j].block;
    }
  }

  lemma AscendingUnreported(s: seq<Db>, blockSize: nat)
    requires blockSize > 0 && Disjoint(s, blockSize) && Ascending(s, blockSize)
    ensures !Reported(s, blockSize)
  {
    PrefixUnreported(s, blockSize, |s|);
    assert s[..|s|] == s;
  }

  lemma {:induction false} PrefixUnreported(s: seq<Db>, blockSize: nat, n: nat)
    requires blockSize > 0 && Disjoint(s, blockSize) && Ascending(s, blockSize) && n <= |s|
    ensures !Reported(s[..n], blockSize)
  {
    if n > 0 {
      PrefixUnreported(s, blockSize, n - 1);
      assert s[..n][..n - 1] == s[..n - 1];
      assert s[n - 1].Fits(blockSize);
      if n > 1 {
        assert s[n - 2].Fits(blockSize) && s[n - 2].Before(s[n - 1], blockSize);
      }
    }
  }

  // ---------------------------------------------------------------- what the order test finds

  /** The block is compared with the last block of the one before it. */
  predicate ReportedAt(s: seq<Db>, i: nat, blockSize: nat)
    requires blockSize > 0
  {
    0 < i < |s| && s[i].block < LastBlock(s[..i], blockSize)
  }

  lemma {:induction false} ReportedSomewhere(s: seq<Db>, blockSize: nat)
    requires blockSize > 0
    ensures Reported(s, blockSize) <==> exists i: nat :: ReportedAt(s, i, blockSize)
  {
    if s != [] {
      var n := |s| - 1;
      ReportedSomewhere(s[..n], blockSize);
      if i: nat :| ReportedAt(s[..n], i, blockSize) {
        assert s[..n][..i] == s[..i];
        assert ReportedAt(s, i, blockSize);
      }
      if i: nat :| ReportedAt(s, i, blockSize) {
        assert i < n ==> s[..n][..i] == s[..i] && ReportedAt(s[..n], i, blockSize);
      }
      assert Reported(s, blockSize) && !Reported(s[..n], blockSize) ==> ReportedAt(s, n, blockSize);
    }
  }

  /** The block shares at least two blocks with the one before it, or starts further to the front. */
  predicate OverlapsByTwo(s: seq<Db>, i: nat, blockSize: nat)
    requires blockSize > 0
  {
    0 < i < |s| && s[i].block + 1 < s[i - 1].block + s[i - 1].Blocks(blockSize)
  }

  /** What the order test finds, for blocks that are not empty: overlaps by two blocks or more. */
  lemma ReportedOverlaps(s: seq<Db>, blockSize: nat)
    requires blockSize > 0 && AllFit(s, blockSize)
    ensures Reported(s, blockSize) <==> exists i: nat :: OverlapsByTwo(s, i, blockSize)
  {
    ReportedSomewhere(s, blockSize);
    forall i: nat
      ensures ReportedAt(s, i, blockSize) <==> OverlapsByTwo(s, i, blockSize)
    {
      if 0 < i < |s| {
        assert s[i - 1].Fits(blockSize);
      }
    }
  }

  /** The block before is empty and at block 0, and this one is not the last block there is. */
  predicate AfterEmptyStart(s: seq<Db>, i: nat) {
    0 < i < |s| && s[i - 1].block == 0 && s[i - 1].len == 0 && s[i].block < 0xffff_ffff
  }

  /** And when it misfires on blocks in ascending order, empty ones among them. */
  lemma ReportedInOrder(s: seq<Db>, blockSize: nat)
    requires blockSize > 0 && Ascending(s, blockSize)
    requires forall i :: 0 <= i < |s| ==> s[i].block < 0x1_0000_0000
    ensures Reported(s, blockSize) <==> exists i: nat :: AfterEmptyStart(s, i)
  {
    ReportedSomewhere(s, blockSize);
    forall i: nat
      ensures ReportedAt(s, i, blockSize) <==> AfterEmptyStart(s, i)
    {
      if 0 < i < |s| {
        assert s[i - 1].Before(s[i], blockSize);
      }
    }
  }

  /** An overlap by one block goes unreported. */
  lemma OverlapUnreported(source: Source)
    ensures var s := Queued([Db(0, 8192, source), Db(1, 4096, source)]);
            !Ascending(s, 4096) && !Reported(s, 4096)
  {
    var a, b := Db(0, 8192, source), Db(1, 4096, source);
    QueuedPair(a, b);
    assert [a, b][..1] == [a] && [a][..0] == [];
    assert a.Blocks(4096) == 2;
    assert !a.Before(b, 4096);
    assert !Reported([a], 4096);
  }

  /** Queueing an empty block for block 0 makes the next one look out of order. */
  lemma EmptyBlockReported(source: Source, block: nat)
    requires block < 0xffff_ffff
    ensures Reported(Queued([Db(0, 0, source), Db(block, 4096, source)]), 4096)
  {
    var a, b := Db(0, 0, source), Db(block, 4096, source);
    QueuedPair(a, b);
    assert [a, b][..1] == [a];
  }

  lemma QueuedPair(a: Db, b: Db)
    requires a.block <= b.block
    ensures Queued([a, b]) == [a, b]
  {
    assert [a, b][..1] == [a] && [a][..0] == [];
    assert Queued([a]) == [a];
  }
}
