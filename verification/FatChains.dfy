/**
 Chains in a file allocation table: following next marks from a cluster, labelling clusters with
 the head of the chain they were last reached from, and what it means for a labelling to be
 consistent. Everything is stated on the sequences of next marks and heads; FatCheck works on the
 arrays.
 */
module FatChains {

  type Cl = c: int | 0 <= c < 0x1_0000_0000

  const CLUST_FREE: Cl := 0
  const CLUST_FIRST: Cl := 2
  const CLUST_RSRVD: Cl := 0xffff_fff6
  const CLUST_BAD: Cl := 0xffff_fff7
  const CLUST_EOFS: Cl := 0xffff_fff8
  const CLUST_EOF: Cl := 0xffff_ffff

  /** A cluster that has an entry in a table of n entries. */
  predicate InRange(n: nat, c: Cl) {
    CLUST_FIRST <= c < n
  }

  /** The next marks that readfat lets through. */
  predicate LegalMark(n: nat, c: Cl) {
    c == CLUST_FREE || c == CLUST_BAD || InRange(n, c) || c >= CLUST_EOFS
  }

  ghost predicate LegalTable(nx: seq<Cl>) {
    |nx| <= CLUST_RSRVD && forall p: Cl :: InRange(|nx|, p) ==> LegalMark(|nx|, nx[p])
  }

  /** Neither free nor bad: part of some chain. */
  predicate InUse(nx: seq<Cl>, p: Cl)
    requires InRange(|nx|, p)
  {
    nx[p] != CLUST_FREE && nx[p] != CLUST_BAD
  }

  /** k steps from cluster c; stays where it is once outside the table. */
  function Walk(nx: seq<Cl>, c: Cl, k: nat): Cl {
    if k == 0 then c
    else
      var q := Walk(nx, c, k - 1);
      if InRange(|nx|, q) then nx[q] else q
  }

  /** The first k clusters of the walk. */
  ghost function Visited(nx: seq<Cl>, c: Cl, k: nat): set<Cl> {
    set j | 0 <= j < k :: Walk(nx, c, j)
  }

  /** The walk from c stays inside the table for exactly m clusters. */
  ghost predicate EndsAfter(nx: seq<Cl>, c: Cl, m: nat) {
    (forall j :: 0 <= j < m ==> InRange(|nx|, Walk(nx, c, j))) && !InRange(|nx|, Walk(nx, c, m))
  }

  ghost predicate Closed(nx: seq<Cl>, v: set<Cl>) {
    forall p :: p in v && InRange(|nx|, p) && InRange(|nx|, nx[p]) ==> nx[p] in v
  }

  // ---------------------------------------------------------------- walks

  lemma {:induction false} WalkAdd(nx: seq<Cl>, c: Cl, i: nat, k: nat)
    ensures Walk(nx, Walk(nx, c, i), k) == Walk(nx, c, i + k)
  {
    if k > 0 {
      WalkAdd(nx, c, i, k - 1);
    }
  }

  /** Once a walk meets a cluster again it goes round for ever. */
  lemma {:induction false} WalkRound(nx: seq<Cl>, c: Cl, i: nat, k: nat, j: nat)
    requires i < k && Walk(nx, c, i) == Walk(nx, c, k)
    ensures Walk(nx, c, j) in Visited(nx, c, k)
    decreases j
  {
    if j >= k {
      var d := j - k;
      WalkAdd(nx, c, i, d);
      WalkAdd(nx, c, k, d);
      WalkRound(nx, c, i, k, i + d);
    }
  }

  ghost function Clusters(n: nat): (s: set<Cl>)
    requires n <= 0x1_0000_0000
    ensures forall c :: c in s <==> InRange(n, c)
    ensures |s| <= n
  {
    if n == 0 then {}
    else if n - 1 >= CLUST_FIRST then Clusters(n - 1) + {n - 1}
    else Clusters(n - 1)
  }

  lemma SubsetSize(x: set<Cl>, y: set<Cl>)
    requires x <= y
    ensures |x| <= |y|
  {
    assert y == x + (y - x);
  }

  /** The clusters walked so far are all different, or one of them came up twice. */
  lemma {:induction false} VisitedSize(nx: seq<Cl>, c: Cl, k: nat) returns (i: nat, j: nat)
    ensures |Visited(nx, c, k)| == k || (i < j < k && Walk(nx, c, i) == Walk(nx, c, j))
  {
    i, j := 0, 0;
    if k > 0 {
      i, j := VisitedSize(nx, c, k - 1);
      assert Visited(nx, c, k) == Visited(nx, c, k - 1) + {Walk(nx, c, k - 1)};
      if Walk(nx, c, k - 1) in Visited(nx, c, k - 1) {
        i :| 0 <= i < k - 1 && Walk(nx, c, i) == Walk(nx, c, k - 1);
        j := k - 1;
      }
    }
  }

  /** A walk that stays inside the table for more clusters than there are never leaves it, and
      keeps to the clusters already seen. */
  lemma LongWalk(nx: seq<Cl>, c: Cl, k: nat, j: nat)
    requires |nx| <= CLUST_RSRVD && k > |nx|
    requires forall i :: 0 <= i < k ==> InRange(|nx|, Walk(nx, c, i))
    ensures Walk(nx, c, j) in Visited(nx, c, k)
    ensures InRange(|nx|, Walk(nx, c, j))
  {
    var x, y := VisitedSize(nx, c, k);
    SubsetSize(Visited(nx, c, k), Clusters(|nx|));
    WalkRound(nx, c, x, y, j);
    var i :| 0 <= i < y && Walk(nx, c, i) == Walk(nx, c, j);
  }

  /** Where a walk ends is determined. */
  lemma EndUnique(nx: seq<Cl>, c: Cl, m: nat, m': nat)
    requires EndsAfter(nx, c, m) && EndsAfter(nx, c, m')
    ensures m == m'
  {}

  /** A walk only depends on the marks of the clusters it passes. */
  lemma {:induction false} WalkSame(nx: seq<Cl>, nx': seq<Cl>, c: Cl, k: nat)
    requires |nx| == |nx'|
    requires forall j :: 0 <= j < k && InRange(|nx|, Walk(nx, c, j))
               ==> nx'[Walk(nx, c, j)] == nx[Walk(nx, c, j)]
    ensures Walk(nx', c, k) == Walk(nx, c, k)
  {
    if k > 0 {
      WalkSame(nx, nx', c, k - 1);
    }
  }

  // ---------------------------------------------------------------- labelled walks

  /** The first k + 1 clusters of the walk from h carry the label h. */
  ghost predicate Labelled(nx: seq<Cl>, hd: seq<Cl>, h: Cl, k: nat)
    requires |nx| == |hd|
  {
    forall j :: 0 <= j <= k ==> InRange(|nx|, Walk(nx, h, j)) && hd[Walk(nx, h, j)] == h
  }

  /** p is reached from h through clusters labelled h. */
  ghost predicate OnPath(nx: seq<Cl>, hd: seq<Cl>, h: Cl, p: Cl)
    requires |nx| == |hd|
  {
    exists k: nat :: Labelled(nx, hd, h, k) && Walk(nx, h, k) == p
  }

  /** Every labelled cluster lies on the path from its label. */
  ghost predicate PathsOk(nx: seq<Cl>, hd: seq<Cl>)
    requires |nx| == |hd|
  {
    forall p: Cl {:trigger OnPath(nx, hd, hd[p], p)} ::
      InRange(|nx|, p) && hd[p] != 0 ==> OnPath(nx, hd, hd[p], p)
  }

  /** The chain of h consists of m clusters, all labelled h, and ends in an EOF mark. */
  ghost predicate SoundChain(nx: seq<Cl>, hd: seq<Cl>, h: Cl, m: nat)
    requires |nx| == |hd|
  {
    m > 0 && Labelled(nx, hd, h, m - 1) && nx[Walk(nx, h, m - 1)] >= CLUST_EOFS
  }

  ghost predicate IsSound(nx: seq<Cl>, hd: seq<Cl>, h: Cl)
    requires |nx| == |hd|
  {
    exists m: nat :: SoundChain(nx, hd, h, m)
  }

  /** All clusters labelled h are cleared, all others are as they were. */
  ghost predicate Cleared(nx: seq<Cl>, hd: seq<Cl>, h: Cl, nx': seq<Cl>, hd': seq<Cl>)
    requires |nx| == |hd|
  {
    && |nx'| == |nx| && |hd'| == |hd|
    && forall p: Cl :: InRange(|nx|, p) ==>
         if h != 0 && hd[p] == h then nx'[p] == CLUST_FREE && hd'[p] == 0
         else nx'[p] == nx[p] && hd'[p] == hd[p]
  }

  /** A path that does not carry the label h survives clearing h. */
  lemma ClearedKeepsLabelled(nx: seq<Cl>, hd: seq<Cl>, h: Cl, nx': seq<Cl>, hd': seq<Cl>, l: Cl, k: nat)
    requires |nx| == |hd| && Cleared(nx, hd, h, nx', hd')
    requires l != h && Labelled(nx, hd, l, k)
    ensures Labelled(nx', hd', l, k)
    ensures forall j :: 0 <= j <= k ==> Walk(nx', l, j) == Walk(nx, l, j)
  {
    forall j: nat | j <= k
      ensures Walk(nx', l, j) == Walk(nx, l, j)
    {
      WalkSame(nx, nx', l, j);
    }
  }

  lemma ClearedKeepsPaths(nx: seq<Cl>, hd: seq<Cl>, h: Cl, nx': seq<Cl>, hd': seq<Cl>)
    requires |nx| == |hd| && Cleared(nx, hd, h, nx', hd') && PathsOk(nx, hd)
    ensures PathsOk(nx', hd')
  {
    forall p: Cl | InRange(|nx|, p) && hd'[p] != 0
      ensures OnPath(nx', hd', hd'[p], p)
    {
      assert OnPath(nx, hd, hd[p], p);
      var k: nat :| Labelled(nx, hd, hd[p], k) && Walk(nx, hd[p], k) == p;
      ClearedKeepsLabelled(nx, hd, h, nx', hd', hd[p], k);
      assert Labelled(nx', hd', hd'[p], k) && Walk(nx', hd'[p], k) == p;
    }
  }

  lemma ClearedKeepsSound(nx: seq<Cl>, hd: seq<Cl>, h: Cl, nx': seq<Cl>, hd': seq<Cl>, l: Cl, m: nat)
    requires |nx| == |hd| && Cleared(nx, hd, h, nx', hd')
    requires l != h && SoundChain(nx, hd, l, m)
    ensures SoundChain(nx', hd', l, m)
  {
    ClearedKeepsLabelled(nx, hd, h, nx', hd', l, m - 1);
  }
}
