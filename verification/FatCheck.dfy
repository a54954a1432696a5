/**
 checkfat and clearchain of fsck_msdos, with every question answered yes. The array of struct
 fatEntry is held as one array per field.
 */
module FatCheck {
  import opened FatChains
  import opened FatRepair

  const FSOK := 0
  const FSFATMOD := 4

  // ---------------------------------------------------------------- pass 1

  /** What holds in pass 1 before the chain starting at i is followed: nx are the next marks, hd the
      heads, ln the lengths recorded so far. */
  ghost predicate Marking(nx: seq<Cl>, hd: seq<Cl>, ln: seq<int>, i: nat)
    requires |nx| == |hd| == |ln|
  {
    && PathsOk(nx, hd)
    && (forall p: Cl :: InRange(|nx|, p) ==> hd[p] < i)
    && (forall p: Cl :: InRange(|nx|, p) && hd[p] != 0 && InRange(|nx|, nx[p]) ==>
          hd[nx[p]] >= hd[p] && (hd[nx[p]] == nx[p] ==> hd[p] == nx[p]))
    && (forall p: Cl :: InRange(|nx|, p) && p < i && InUse(nx, p) ==> hd[p] != 0)
    && (forall h: Cl {:trigger LengthOk(nx, ln, h)} {:trigger InUse(nx, h)} ::
          InRange(|nx|, h) && hd[h] == h ==> InUse(nx, h) && LengthOk(nx, ln, h))
  }

  /** The recorded length is the number of clusters up to the end of the chain, if it has one. */
  ghost predicate LengthOk(nx: seq<Cl>, ln: seq<int>, h: Cl)
    requires |nx| == |ln| && InRange(|nx|, h)
  {
    forall m: nat :: EndsAfter(nx, h, m) ==> ln[h] == m
  }

  /** The clusters of v get the label g. */
  ghost predicate Relabelled(hd: seq<Cl>, v: set<Cl>, g: Cl, hd': seq<Cl>) {
    |hd'| == |hd| && forall p: Cl :: InRange(|hd|, p) ==> hd'[p] == if p in v then g else hd[p]
  }

  /** v is exactly what is reached from g. */
  ghost predicate Reached(nx: seq<Cl>, g: Cl, v: set<Cl>) {
    && Closed(nx, v)
    && g in v
    && (forall p :: p in v ==> InRange(|nx|, p))
    && (forall p :: p in v ==> exists k: nat :: Walk(nx, g, k) == p)
  }

  lemma {:induction false} WalkStaysIn(nx: seq<Cl>, g: Cl, v: set<Cl>, k: nat)
    requires Reached(nx, g, v) && InRange(|nx|, Walk(nx, g, k))
    ensures forall j: nat :: j <= k ==> Walk(nx, g, j) in v
  {
    if k > 0 {
      var q := Walk(nx, g, k - 1);
      assert InRange(|nx|, q);
      WalkStaysIn(nx, g, v, k - 1);
    }
  }

  lemma RelabelPaths(nx: seq<Cl>, hd: seq<Cl>, ln: seq<int>, g: Cl, v: set<Cl>, hd': seq<Cl>)
    requires |nx| == |hd| == |ln| && Marking(nx, hd, ln, g)
    requires Reached(nx, g, v) && Relabelled(hd, v, g, hd')
    ensures PathsOk(nx, hd')
  {
    forall p: Cl | InRange(|nx|, p) && hd'[p] != 0
      ensures OnPath(nx, hd', hd'[p], p)
    {
      if p in v {
        var k: nat :| Walk(nx, g, k) == p;
        WalkStaysIn(nx, g, v, k);
        assert Labelled(nx, hd', g, k);
      } else {
        var h := hd[p];
        assert OnPath(nx, hd, h, p);
        var k: nat :| Labelled(nx, hd, h, k) && Walk(nx, h, k) == p;
        PathOutside(nx, v, h, k);
        assert Labelled(nx, hd', h, k);
      }
    }
  }

  /** A walk that ends outside a closed set never was inside. */
  lemma {:induction false} PathOutside(nx: seq<Cl>, v: set<Cl>, h: Cl, k: nat)
    requires Closed(nx, v) && InRange(|nx|, Walk(nx, h, k)) && Walk(nx, h, k) !in v
    ensures forall j: nat :: j <= k ==> Walk(nx, h, j) !in v
  {
    if k > 0 {
      assert InRange(|nx|, Walk(nx, h, k - 1));
      PathOutside(nx, v, h, k - 1);
    }
  }

  /** Following one more chain finds the heads of what is reached. */
  lemma HeadsMarked(nx: seq<Cl>, hd: seq<Cl>, g: Cl, v: set<Cl>, hd': seq<Cl>)
    requires HeadsUpTo(nx, hd, g) == true && InRange(|nx|, g) && hd[g] == 0 && InUse(nx, g)
    requires Reached(nx, g, v) && Relabelled(hd, v, g, hd')
    ensures HeadsUpTo(nx, hd', g + 1)
  {
    forall p: Cl | InRange(|nx|, p)
      ensures p in v <==> Reaches(nx, g, p)
    {
      if k: nat :| Walk(nx, g, k) == p {
        WalkStaysIn(nx, g, v, k);
      }
    }
    HeadsStep(nx, hd, g, v, hd');
  }

  /** Following one more chain keeps the invariant of pass 1. */
  lemma MarkingStep(nx: seq<Cl>, hd: seq<Cl>, ln: seq<int>, g: Cl, v: set<Cl>, hd': seq<Cl>, ln': seq<int>)
    requires |nx| == |hd| == |ln| == |ln'| && Marking(nx, hd, ln, g) == true
    requires InRange(|nx|, g) && hd[g] == 0 && InUse(nx, g)
    requires Reached(nx, g, v) && Relabelled(hd, v, g, hd')
    requires LengthOk(nx, ln', g)
    requires forall p: Cl :: InRange(|nx|, p) && p != g ==> ln'[p] == ln[p]
    ensures Marking(nx, hd', ln', g + 1)
  {
    RelabelPaths(nx, hd, ln, g, v, hd');
    forall h: Cl | InRange(|nx|, h) && hd'[h] == h
      ensures InUse(nx, h) && LengthOk(nx, ln', h)
    {
      if h != g {
        assert hd[h] == h && LengthOk(nx, ln, h);
      }
    }
  }

  lemma MarkingInitially(nx: seq<Cl>, hd: seq<Cl>, ln: seq<int>, i: Cl)
    requires |nx| == |hd| == |ln| && i == CLUST_FIRST && forall p: Cl :: p < |hd| ==> hd[p] == 0
    ensures Marking(nx, hd, ln, i)
  {}

  /** A table without clusters. */
  lemma FewClusters(nx: seq<Cl>, hd: seq<Cl>, ln: seq<int>, i: Cl)
    requires |nx| == |hd| == |ln| <= CLUST_FIRST || |nx| == |hd| == |ln| == i
    ensures Marking(nx, hd, ln, i) ==> Marking(nx, hd, ln, |nx|)
    ensures HeadsUpTo(nx, hd, i) ==> Heads(nx, hd)
  {}

  /** Pass 1 skips a cluster that is labelled, free or bad. */
  lemma MarkingSkip(nx: seq<Cl>, hd: seq<Cl>, ln: seq<int>, i: Cl)
    requires |nx| == |hd| == |ln| && Marking(nx, hd, ln, i) == true
    requires InRange(|nx|, i) && (hd[i] != 0 || !InUse(nx, i))
    ensures Marking(nx, hd, ln, i + 1)
  {}

  // ---------------------------------------------------------------- pass 2

  /** The table as pass 1 leaves it: next marks, heads, lengths. */
  datatype Marked = Marked(nx: seq<Cl>, hd: seq<Cl>, ln: seq<int>) {
    ghost predicate Valid() {
      |nx| == |hd| == |ln| && LegalTable(nx) && Marking(nx, hd, ln, |nx|)
    }

    /** The chain of h ends in an EOF mark and nothing else leads into it. */
    ghost predicate Clean(h: Cl)
      requires |nx| == |hd|
    {
      && (IsSound(nx, hd, h))
      && (forall q: Cl :: InRange(|nx|, q) && InRange(|nx|, nx[q]) && hd[nx[q]] == h ==> hd[q] == h)
    }
  }

  /** What holds in pass 2 before the chain starting at i is examined: every cluster still in use
      is as pass 1 left it, all others are free or bad, the chains examined so far are sound, and
      no clean chain has been touched. */
  ghost predicate Settled(t: Marked, nx: seq<Cl>, hd: seq<Cl>, ln: seq<int>, i: nat)
    requires t.Valid()
  {
    SettledTable(t, nx, hd, ln) && ExaminedSound(nx, hd, i)
  }

  ghost predicate ExaminedSound(nx: seq<Cl>, hd: seq<Cl>, i: nat)
    requires |nx| == |hd|
  {
    forall h: Cl {:trigger IsSound(nx, hd, h)} ::
      InRange(|nx|, h) && h < i && hd[h] == h ==> IsSound(nx, hd, h)
  }

  ghost predicate SettledTable(t: Marked, nx: seq<Cl>, hd: seq<Cl>, ln: seq<int>)
    requires t.Valid()
  {
    && |nx| == |hd| == |ln| == |t.nx|
    && PathsOk(nx, hd)
    && (forall p: Cl :: InRange(|nx|, p) && hd[p] != 0 ==> hd[p] == t.hd[p] && nx[p] == t.nx[p])
    && (forall p: Cl :: InRange(|nx|, p) && hd[p] == 0 ==>
          nx[p] == (if t.hd[p] == 0 then t.nx[p] else CLUST_FREE))
    && (forall h: Cl :: InRange(|nx|, h) && hd[h] == h ==> ln[h] == t.ln[h])
    && (forall p: Cl {:trigger t.Clean(t.hd[p])} ::
          InRange(|nx|, p) && t.hd[p] != 0 && t.Clean(t.hd[p]) ==> hd[p] == t.hd[p])
  }

  lemma SettledInitially(t: Marked)
    requires t.Valid()
    ensures Settled(t, t.nx, t.hd, t.ln, CLUST_FIRST)
  {}

  ghost predicate ClearedLengths(hd: seq<Cl>, h: Cl, ln: seq<int>, ln': seq<int>)
    requires |hd| == |ln|
  {
    |ln'| == |ln|
    && forall p: Cl :: InRange(|hd|, p) ==> ln'[p] == if h != 0 && hd[p] == h then 0 else ln[p]
  }

  /** Clearing a chain that is not clean keeps the invariant. */
  lemma ClearKeepsSettled(t: Marked, nx: seq<Cl>, hd: seq<Cl>, ln: seq<int>, i: nat, h: Cl,
                          nx': seq<Cl>, hd': seq<Cl>, ln': seq<int>)
    requires t.Valid() && Settled(t, nx, hd, ln, i)
    requires h != 0 ==> !t.Clean(h)
    requires Cleared(nx, hd, h, nx', hd') && ClearedLengths(hd, h, ln, ln')
    ensures Settled(t, nx', hd', ln', i)
  {
    ClearedKeepsPaths(nx, hd, h, nx', hd');
    forall l: Cl | InRange(|nx|, l) && l < i && hd'[l] == l
      ensures IsSound(nx', hd', l)
    {
      assert IsSound(nx, hd, l);
      var m: nat :| SoundChain(nx, hd, l, m);
      ClearedKeepsSound(nx, hd, h, nx', hd', l, m);
    }
  }

  /** Nothing carries the label i, or its chain is sound: the next chain can be examined. */
  lemma ExaminedNext(nx: seq<Cl>, hd: seq<Cl>, i: Cl)
    requires |nx| == |hd| && ExaminedSound(nx, hd, i) && InRange(|nx|, i)
    requires hd[i] == i ==> IsSound(nx, hd, i)
    ensures ExaminedSound(nx, hd, i + 1)
  {
    forall h: Cl | InRange(|nx|, h) && h < i + 1 && hd[h] == h
      ensures IsSound(nx, hd, h)
    {
      if h < i {
        assert ExaminedSound(nx, hd, i);
      }
    }
  }

  /** On a path with unchanged marks both tables are walked alike. */
  lemma SameWalk(t: Marked, nx: seq<Cl>, hd: seq<Cl>, ln: seq<int>, i: nat, h: Cl, k: nat)
    requires t.Valid() && Settled(t, nx, hd, ln, i)
    requires h != 0 && Labelled(nx, hd, h, k)
    ensures forall j: nat :: j <= k + 1 ==> Walk(t.nx, h, j) == Walk(nx, h, j)
  {
    forall j: nat | j <= k + 1
      ensures Walk(t.nx, h, j) == Walk(nx, h, j)
    {
      WalkSame(nx, t.nx, h, j);
    }
  }

  /** A clean chain is still all there. */
  lemma CleanStillSound(t: Marked, nx: seq<Cl>, hd: seq<Cl>, ln: seq<int>, i: nat, h: Cl, m: nat)
    requires t.Valid() && Settled(t, nx, hd, ln, i)
    requires h != 0 && t.Clean(h) && SoundChain(t.nx, t.hd, h, m)
    ensures SoundChain(nx, hd, h, m)
    ensures forall j: nat :: j <= m ==> Walk(t.nx, h, j) == Walk(nx, h, j)
    ensures EndsAfter(nx, h, m)
  {
    forall j: nat | j < m
      ensures InRange(|nx|, Walk(t.nx, h, j)) && hd[Walk(t.nx, h, j)] == h
      ensures nx[Walk(t.nx, h, j)] == t.nx[Walk(t.nx, h, j)]
    {}
    forall j: nat | j <= m
      ensures Walk(t.nx, h, j) == Walk(nx, h, j)
    {
      WalkSame(t.nx, nx, h, j);
    }
    assert Walk(nx, h, m) == nx[Walk(nx, h, m - 1)];
  }

  /** The run of a head that is present stops where it did when pass 1 was over. */
  lemma SameStop(t: Marked, nx: seq<Cl>, hd: seq<Cl>, ln: seq<int>, g: Cl, k: nat, n: Cl)
    requires t.Valid() && Settled(t, nx, hd, ln, g) && Progressed(t.nx, t.hd, hd, g)
    requires IsHead(hd, g) && StopsAt(nx, hd, g, k, n)
    ensures StopsAt(t.nx, t.hd, g, k, n) && IsHead(t.hd, g)
    ensures InRange(|nx|, n) ==> t.hd[n] >= g
  {
    SameWalk(t, nx, hd, ln, g, g, k);
    var q := Walk(nx, g, k);
    assert hd[q] == g == t.hd[q];
    assert t.hd[g] == g && Present(t.nx, t.hd, g, g);
  }

  /** A bad run that does not lead to another cluster takes nothing with it. */
  lemma ProgressedOutside(t: Marked, hd: seq<Cl>, g: Cl, k: nat, n: Cl, hd': seq<Cl>)
    requires t.Valid() && |hd| == |hd'| == |t.hd| && Progressed(t.nx, t.hd, hd, g) && IsHead(t.hd, g) && hd[g] == g
    requires forall p: Cl :: InRange(|hd|, p) && hd[p] != 0 ==> hd[p] == t.hd[p]
    requires StopsAt(t.nx, t.hd, g, k, n) && n < CLUST_EOFS && !InRange(|hd|, n)
    requires forall p: Cl :: InRange(|hd|, p) ==> hd'[p] == if hd[p] == g then 0 else hd[p]
    ensures Progressed(t.nx, t.hd, hd', g + 1)
  {
    ProgressedBad(t.nx, t.hd, hd, g, k, n, hd');
  }

  /** A bad run that leads to another cluster takes the chain of that cluster with it. */
  lemma ProgressedLinked(t: Marked, hd: seq<Cl>, g: Cl, k: nat, n: Cl, hd1: seq<Cl>, hd2: seq<Cl>)
    requires t.Valid() && |hd| == |hd1| == |hd2| == |t.hd| && Progressed(t.nx, t.hd, hd, g)
    requires IsHead(t.hd, g) && hd[g] == g
    requires forall p: Cl :: InRange(|hd|, p) && hd[p] != 0 ==> hd[p] == t.hd[p]
    requires StopsAt(t.nx, t.hd, g, k, n) && n < CLUST_EOFS && InRange(|hd|, n) && t.hd[n] >= g
    requires forall p: Cl :: InRange(|hd|, p) ==> hd1[p] == if hd[p] == g then 0 else hd[p]
    requires forall p: Cl :: InRange(|hd|, p) ==> hd2[p] == if hd1[n] != 0 && hd1[p] == hd1[n] then 0 else hd1[p]
    ensures Progressed(t.nx, t.hd, hd2, g + 1)
  {
    forall p: Cl | InRange(|hd|, p) && t.hd[p] != 0
      ensures hd2[p] != 0 <==> hd[p] != 0 && t.hd[p] != g && t.hd[n] != t.hd[p]
    {
      if t.hd[n] == t.hd[p] {
        SameHead(t, hd, g, n, p);
      }
    }
    ProgressedBad(t.nx, t.hd, hd, g, k, n, hd2);
  }

  /** The clusters of one head are all there or all gone. */
  lemma SameHead(t: Marked, hd: seq<Cl>, g: nat, p: Cl, q: Cl)
    requires t.Valid() && |hd| == |t.hd| && Progressed(t.nx, t.hd, hd, g)
    requires InRange(|hd|, p) && InRange(|hd|, q) && t.hd[p] == t.hd[q] != 0
    ensures hd[p] != 0 <==> hd[q] != 0
  {}

  /** An examination that stops at anything but an EOF mark only happens on chains that are not
      clean; the chain it runs into is not clean either. */
  lemma BadEndNotClean(t: Marked, nx: seq<Cl>, hd: seq<Cl>, ln: seq<int>, i: nat, g: Cl, k: nat, n: Cl)
    requires t.Valid() && Settled(t, nx, hd, ln, i)
    requires g != 0 && StopsAt(nx, hd, g, k, n) && n < CLUST_EOFS
    ensures !t.Clean(g)
    ensures InRange(|nx|, n) && hd[n] != 0 && hd[n] != g ==> !t.Clean(hd[n])
  {
    var q := Walk(nx, g, k);
    assert InRange(|nx|, q) && hd[q] == g;
    if t.Clean(g) {
      var m: nat :| SoundChain(t.nx, t.hd, g, m);
      CleanStillSound(t, nx, hd, ln, i, g, m);
      SoundStopsAtEnd(nx, hd, g, m, k, n);
    }
  }

  // ---------------------------------------------------------------- the repaired table

  /** The used clusters fall into chains: each lies on the path from its head, all of that path
      carries the same head, it ends in an EOF mark, and the head knows its length. */
  ghost predicate Repaired(nx: seq<Cl>, hd: seq<Cl>, ln: seq<int>)
    requires |nx| == |hd| == |ln|
  {
    forall p: Cl :: InRange(|nx|, p) ==>
      && (hd[p] != 0 <==> InUse(nx, p))
      && (InUse(nx, p) ==> OnSoundChain(nx, hd, ln, p))
  }

  ghost predicate OnSoundChain(nx: seq<Cl>, hd: seq<Cl>, ln: seq<int>, p: Cl)
    requires |nx| == |hd| == |ln| && InRange(|nx|, p)
  {
    var h := hd[p];
    && InRange(|nx|, h) && ln[h] >= 1
    && SoundChain(nx, hd, h, ln[h])
    && exists k: nat :: k < ln[h] && Walk(nx, h, k) == p
  }

  /** c is a complete chain that no cluster outside it leads into. */
  ghost predicate HealthyChain(nx: seq<Cl>, c: seq<Cl>) {
    && |c| > 0
    && (forall i :: 0 <= i < |c| ==> InRange(|nx|, c[i]))
    && (forall i :: 0 <= i < |c| - 1 ==> nx[c[i]] == c[i + 1])
    && nx[c[|c| - 1]] >= CLUST_EOFS
    && (forall q: Cl :: InRange(|nx|, q) ==> nx[q] != c[0])
    && (forall q: Cl, i :: InRange(|nx|, q) && 0 <= i < |c| - 1 && nx[q] == c[i + 1] ==> q == c[i])
  }

  /** The chain c has its marks, its head and its length. */
  ghost predicate KeepsChain(nx0: seq<Cl>, nx: seq<Cl>, hd: seq<Cl>, ln: seq<int>, c: seq<Cl>)
    requires |nx0| == |nx| == |hd| == |ln|
  {
    && |c| > 0
    && (forall i :: 0 <= i < |c| ==>
          InRange(|nx|, c[i]) && nx[c[i]] == nx0[c[i]] && hd[c[i]] == c[0])
    && InRange(|nx|, c[0]) && ln[c[0]] == |c|
  }

  /** All complete chains that nothing leads into are kept. */
  ghost predicate KeepsHealthy(nx0: seq<Cl>, nx: seq<Cl>, hd: seq<Cl>, ln: seq<int>)
    requires |nx0| == |nx| == |hd| == |ln|
  {
    forall c: seq<Cl> :: HealthyChain(nx0, c) ==> KeepsChain(nx0, nx, hd, ln, c)
  }

  lemma SettledRepaired(t: Marked, nx: seq<Cl>, hd: seq<Cl>, ln: seq<int>)
    requires t.Valid() && Settled(t, nx, hd, ln, |t.nx|)
    ensures Repaired(nx, hd, ln)
  {
    forall p: Cl | InRange(|nx|, p)
      ensures (hd[p] != 0 <==> InUse(nx, p)) && (InUse(nx, p) ==> OnSoundChain(nx, hd, ln, p))
    {
      if hd[p] != 0 {
        ChainOf(t, nx, hd, ln, p);
      }
    }
  }

  /** The recorded length of a chain that is still sound is its number of clusters. */
  lemma LengthOf(t: Marked, nx: seq<Cl>, hd: seq<Cl>, ln: seq<int>, h: Cl, m: nat)
    requires t.Valid() && Settled(t, nx, hd, ln, |t.nx|)
    requires InRange(|nx|, h) && hd[h] == h && SoundChain(nx, hd, h, m)
    ensures ln[h] == m
  {
    assert Walk(nx, h, m) == nx[Walk(nx, h, m - 1)];
    SameWalk(t, nx, hd, ln, |t.nx|, h, m - 1);
    assert EndsAfter(t.nx, h, m);
    assert LengthOk(t.nx, t.ln, h);
  }

  lemma ChainOf(t: Marked, nx: seq<Cl>, hd: seq<Cl>, ln: seq<int>, p: Cl)
    requires t.Valid() && Settled(t, nx, hd, ln, |t.nx|)
    requires InRange(|nx|, p) && hd[p] != 0
    ensures InUse(nx, p) && OnSoundChain(nx, hd, ln, p)
  {
    var h := hd[p];
    assert OnPath(nx, hd, h, p);
    var k: nat :| Labelled(nx, hd, h, k) && Walk(nx, h, k) == p;
    assert Walk(nx, h, 0) == h && InRange(|nx|, h) && hd[h] == h;
    assert IsSound(nx, hd, h);
    var m: nat :| SoundChain(nx, hd, h, m);
    LengthOf(t, nx, hd, ln, h, m);
    OnSoundPath(nx, hd, h, m, k);
  }

  /** A labelled path from the head of a sound chain stays on the chain. */
  lemma OnSoundPath(nx: seq<Cl>, hd: seq<Cl>, h: Cl, m: nat, k: nat)
    requires |nx| == |hd| && |nx| <= CLUST_RSRVD
    requires SoundChain(nx, hd, h, m) && Labelled(nx, hd, h, k)
    ensures k < m && InUse(nx, Walk(nx, h, k))
  {
    assert Walk(nx, h, m) == nx[Walk(nx, h, m - 1)];
    if k < m - 1 {
      assert Walk(nx, h, k + 1) == nx[Walk(nx, h, k)];
    }
  }

  // ---------------------------------------------------------------- healthy chains

  lemma {:induction false} HealthyWalk(nx: seq<Cl>, c: seq<Cl>, j: nat)
    requires HealthyChain(nx, c) && j < |c|
    ensures Walk(nx, c[0], j) == c[j]
  {
    if j > 0 {
      HealthyWalk(nx, c, j - 1);
    }
  }

  lemma {:induction false} HealthyLabels(t: Marked, c: seq<Cl>, j: nat)
    requires t.Valid() && HealthyChain(t.nx, c) && j < |c|
    ensures t.hd[c[j]] == c[0]
  {
    var h := t.hd[c[j]];
    assert j < |c| - 1 ==> InRange(|t.nx|, c[j + 1]) && t.nx[c[j]] == c[j + 1];
    assert InUse(t.nx, c[j]);
    assert OnPath(t.nx, t.hd, h, c[j]);
    var k: nat :| Labelled(t.nx, t.hd, h, k) && Walk(t.nx, h, k) == c[j];
    if k > 0 {
      var q := Walk(t.nx, h, k - 1);
      assert InRange(|t.nx|, q) && t.nx[q] == c[j];
    }
    if j > 0 {
      HealthyLabels(t, c, j - 1);
      assert InRange(|t.nx|, c[j - 1]) && t.nx[c[j - 1]] == c[j];
    }
  }

  lemma HealthyClean(t: Marked, c: seq<Cl>)
    requires t.Valid() && HealthyChain(t.nx, c)
    ensures SoundChain(t.nx, t.hd, c[0], |c|) && t.Clean(c[0])
  {
    forall j: nat | j < |c|
      ensures Walk(t.nx, c[0], j) == c[j] && t.hd[c[j]] == c[0]
    {
      HealthyWalk(t.nx, c, j);
      HealthyLabels(t, c, j);
    }
    assert SoundChain(t.nx, t.hd, c[0], |c|);
    forall q: Cl | InRange(|t.nx|, q) && InRange(|t.nx|, t.nx[q]) && t.hd[t.nx[q]] == c[0]
      ensures t.hd[q] == c[0]
    {
      var p := t.nx[q];
      assert OnPath(t.nx, t.hd, c[0], p);
      var k: nat :| Labelled(t.nx, t.hd, c[0], k) && Walk(t.nx, c[0], k) == p;
      assert Walk(t.nx, c[0], |c|) == t.nx[c[|c| - 1]];
      assert k < |c|;
      assert p == c[k];
      if k > 0 {
        assert t.nx[q] == c[(k - 1) + 1];
        assert t.hd[c[k - 1]] == c[0];
      }
    }
  }

  lemma HealthyKept(t: Marked, nx: seq<Cl>, hd: seq<Cl>, ln: seq<int>, c: seq<Cl>)
    requires t.Valid() && Settled(t, nx, hd, ln, |t.nx|) && HealthyChain(t.nx, c)
    ensures KeepsChain(t.nx, nx, hd, ln, c)
  {
    HealthyClean(t, c);
    CleanStillSound(t, nx, hd, ln, |t.nx|, c[0], |c|);
    forall j: nat | j < |c|
      ensures nx[c[j]] == t.nx[c[j]] && hd[c[j]] == c[0]
    {
      HealthyWalk(t.nx, c, j);
    }
    assert EndsAfter(t.nx, c[0], |c|);
    assert LengthOk(t.nx, t.ln, c[0]);
  }

  ghost predicate Unreferenced(nx: seq<Cl>, p: Cl) {
    forall q: Cl :: InRange(|nx|, q) ==> nx[q] != p
  }

  /** The bad marks that are kept are those of clusters that no cluster leads to. */
  ghost predicate KeepsBad(nx0: seq<Cl>, nx: seq<Cl>)
    requires |nx0| == |nx|
  {
    forall p: Cl :: InRange(|nx|, p) && nx0[p] == CLUST_BAD ==> (nx[p] == CLUST_BAD <==> Unreferenced(nx0, p))
  }

  /** A bad mark survives exactly when no cluster leads to it. */
  lemma BadMarks(t: Marked, nx: seq<Cl>, hd: seq<Cl>, ln: seq<int>, p: Cl)
    requires t.Valid() && Settled(t, nx, hd, ln, |t.nx|)
    requires InRange(|nx|, p) && t.nx[p] == CLUST_BAD
    ensures nx[p] == CLUST_BAD <==> Unreferenced(t.nx, p)
    ensures nx[p] == CLUST_BAD || nx[p] == CLUST_FREE
  {
    SettledRepaired(t, nx, hd, ln);
    if t.hd[p] == 0 {
      assert hd[p] == 0;
      forall q: Cl | InRange(|nx|, q)
        ensures t.nx[q] != p
      {
        assert InUse(t.nx, q) ==> t.hd[q] != 0;
      }
    } else {
      assert OnPath(t.nx, t.hd, t.hd[p], p);
      var k: nat :| Labelled(t.nx, t.hd, t.hd[p], k) && Walk(t.nx, t.hd[p], k) == p;
      assert t.hd[p] == p ==> InUse(t.nx, p);
      assert k > 0;
      assert t.nx[Walk(t.nx, t.hd[p], k - 1)] == p;
    }
  }

  // ---------------------------------------------------------------- the table in memory

  class FatTable {
    const numClusters: nat
    const next: array<Cl>
    const head: array<Cl>
    const length: array<nat>

    ghost predicate Valid() {
      && next.Length == head.Length == length.Length == numClusters
      && numClusters <= CLUST_RSRVD
      && next != head
    }

    /** The table readfat allocates: no heads, no lengths. */
    constructor (marks: seq<Cl>)
      requires |marks| <= CLUST_RSRVD
      ensures Valid() && fresh(next) && fresh(head) && fresh(length)
      ensures next[..] == marks
      ensures forall p :: 0 <= p < |marks| ==> head[p] == 0 && length[p] == 0
    {
      numClusters := |marks|;
      next := new Cl[|marks|](i requires 0 <= i < |marks| => marks[i]);
      head := new Cl[|marks|](_ => 0);
      length := new nat[|marks|](_ => 0);
    }

    /** Free one entry. */
    method ClearEntry(p: Cl)
      requires Valid() && InRange(numClusters, p)
      modifies next, head, length
      ensures next[..] == old(next[..])[p := CLUST_FREE]
      ensures head[..] == old(head[..])[p := 0]
      ensures length[..] == old(length[..])[p := 0]
    {
      next[p], head[p] := CLUST_FREE, CLUST_FREE;
      length[p] := 0;
    }

    /** clearchain: free the clusters labelled start, from start on. */
    method ClearChain(start: Cl)
      requires Valid() && PathsOk(next[..], head[..])
      modifies next, head, length
      ensures Cleared(old(next[..]), old(head[..]), start, next[..], head[..])
      ensures ClearedLengths(old(head[..]), start, old(length[..]), length[..])
    {
      ghost var w := Wiping(next[..], head[..], length[..], 0, {}, next[..], head[..], length[..]);
      var p := start;
      while InRange(numClusters, p)
        invariant next[..] == w.nx' && head[..] == w.hd' && length[..] == w.ln'
        invariant w.nx == old(next[..]) && w.hd == old(head[..]) && w.ln == old(length[..])
        invariant w.Valid(start, p)
        decreases Clusters(numClusters) - w.v
      {
        if head[p] != start {
          break;
        }
        var q := next[p];
        ClearEntry(p);
        w := WipeOne(w, start, p, q);
        p := q;
      }
      WipedAll(w, start, p);
    }

    /** The inner loop of pass 1: label everything reached from g, and record the length. */
    method MarkChain(g: Cl) returns (ghost v: set<Cl>)
      requires Valid() && InRange(numClusters, g)
      modifies head, length
      ensures Reached(next[..], g, v)
      ensures Relabelled(old(head[..]), v, g, head[..])
      ensures next[g] != CLUST_FREE ==> LengthOk(next[..], length[..], g)
      ensures forall p: Cl :: InRange(numClusters, p) && p != g ==> length[p] == old(length[p])
    {
      var len;
      len, v := LabelChain(g);
      MarkedAll(next[..], g, len);
      length[g] := if next[g] == CLUST_FREE then 0 else len;
    }

    /** The walk that labels; it ends at the first cluster that is outside the table, or after more steps
        than there are clusters. */
    method LabelChain(g: Cl) returns (len: nat, ghost v: set<Cl>)
      requires Valid() && InRange(numClusters, g)
      modifies head
      ensures v == Visited(next[..], g, len) && 0 < len <= numClusters + 1
      ensures len <= numClusters ==> !InRange(numClusters, Walk(next[..], g, len))
      ensures forall c :: c in v ==> InRange(numClusters, c)
      ensures Relabelled(old(head[..]), v, g, head[..])
    {
      ghost var nx, hd := next[..], head[..];
      var p := g;
      len, v := 0, {};
      while InRange(numClusters, p)
        invariant p == Walk(nx, g, len) && v == Visited(nx, g, len)
        invariant len <= numClusters + 1
        invariant len == 0 ==> p == g
        invariant forall c :: c in v ==> InRange(numClusters, c)
        invariant Relabelled(hd, v, g, head[..])
        decreases numClusters + 1 - len
      {
        if len > numClusters {
          break;
        }
        head[p] := g;
        VisitedNext(nx, g, len);
        v := v + {p};
        len := len + 1;
        p := next[p];
      }
    }

    /** The loop of pass 2: follow the chain of g while it stays in the table and carries the label
        g; the watchdog ends loops. */
    method FollowChain(g: Cl) returns (p: Cl, n: Cl, ghost k: nat)
      requires Valid() && InRange(numClusters, g) && head[g] == g
      ensures InRange(numClusters, p) && p == Walk(next[..], g, k)
      ensures StopsAt(next[..], head[..], g, k, n)
    {
      var wdk: nat := numClusters;
      p, k := g, 0;
      n := next[p];
      while InRange(numClusters, n) && wdk > 0
        invariant InRange(numClusters, p) && p == Walk(next[..], g, k) && n == next[p]
        invariant Labelled(next[..], head[..], g, k)
        invariant wdk + k == numClusters
        decreases wdk
      {
        if head[n] != g {
          return;
        }
        assert Walk(next[..], g, k + 1) == n;
        p, k, wdk := n, k + 1, wdk - 1;
        n := next[p];
      }
    }

    /** Pass 1. */
    method MarkChains()
      requires Valid() && LegalTable(next[..])
      requires forall p :: 0 <= p < numClusters ==> head[p] == 0
      modifies head, length
      ensures Marking(next[..], head[..], length[..], numClusters) == true
      ensures Heads(next[..], head[..]) == true
    {
      var h: Cl := CLUST_FIRST;
      MarkingInitially(next[..], head[..], length[..], h);
      HeadsInitially(next[..], head[..], h);
      while h < numClusters
        invariant CLUST_FIRST <= h && (h <= numClusters || numClusters < CLUST_FIRST)
        invariant Marking(next[..], head[..], length[..], h) == true
        invariant HeadsUpTo(next[..], head[..], h) == true
      {
        MarkNext(h);
        h := h + 1;
      }
      FewClusters(next[..], head[..], length[..], h);
    }

    /** One turn of pass 1. */
    method MarkNext(h: Cl)
      requires Valid() && InRange(numClusters, h)
      requires Marking(next[..], head[..], length[..], h) == true && HeadsUpTo(next[..], head[..], h) == true
      modifies head, length
      ensures Marking(next[..], head[..], length[..], h + 1) == true
      ensures HeadsUpTo(next[..], head[..], h + 1) == true
    {
      ghost var nx, hd, ln := next[..], head[..], length[..];
      if head[h] != 0 || next[h] == CLUST_FREE || next[h] == CLUST_BAD {
        MarkingSkip(nx, hd, ln, h);
        HeadsSkip(nx, hd, h);
        return;
      }
      ghost var v := MarkChain(h);
      HeadsMarked(nx, hd, h, v, head[..]);
      MarkingStep(nx, hd, ln, h, v, head[..], length[..]);
    }

    /** tryclear, answered yes, on a chain that is not clean. */
    method TryClear(g: Cl, ghost t: Marked, ghost i: nat) returns (r: int)
      requires Valid() && t.Valid() && Settled(t, next[..], head[..], length[..], i)
      requires g != 0 ==> !t.Clean(g)
      modifies next, head, length
      ensures Settled(t, next[..], head[..], length[..], i)
      ensures Cleared(old(next[..]), old(head[..]), g, next[..], head[..])
      ensures r == FSFATMOD
    {
      ghost var nx, hd, ln := next[..], head[..], length[..];
      ClearChain(g);
      ClearKeepsSettled(t, nx, hd, ln, i, g, next[..], head[..], length[..]);
      r := FSFATMOD;
    }

    /** One round of pass 2: the chain of g is left alone if it ends in an EOF mark; otherwise it is
        cleared, and so is the chain it runs into. */
    method ExamineChain(g: Cl, ghost t: Marked) returns (r: int)
      requires Valid() && t.Valid() && Settled(t, next[..], head[..], length[..], g)
      requires InRange(numClusters, g) && head[g] == g && Progressed(t.nx, t.hd, head[..], g)
      modifies next, head, length
      ensures Settled(t, next[..], head[..], length[..], g + 1)
      ensures Progressed(t.nx, t.hd, head[..], g + 1)
      ensures r == FSOK ==> next[..] == old(next[..])
      ensures r != FSOK ==> r == FSFATMOD && next[g] == CLUST_FREE
    {
      var p, n;
      ghost var k;
      p, n, k := FollowChain(g);
      ghost var hd := head[..];
      SameStop(t, next[..], hd, length[..], g, k, n);
      if n >= CLUST_EOFS {
        GoodEnd(next[..], head[..], g, k, n);
        ExaminedNext(next[..], head[..], g);
        ProgressedGood(t.nx, t.hd, hd, g, k, n);
        return FSOK;
      }
      BadEndNotClean(t, next[..], head[..], length[..], g, g, k, n);
      r := TryClear(g, t, g);
      ExaminedNext(next[..], head[..], g);
      if n == CLUST_FREE || n >= CLUST_RSRVD || n < CLUST_FIRST || n >= numClusters {
        // ends with a free, bad or out-of-range mark
        ProgressedOutside(t, hd, g, k, n, head[..]);
        return;
      }
      // linked with another chain
      ghost var hd1 := head[..];
      var h := head[n];
      r := TryClear(h, t, g + 1);
      ProgressedLinked(t, hd, g, k, n, hd1, head[..]);
    }

    /** checkfat, answering yes throughout, on a table as readfat produces it. The used clusters end
        up in disjoint, properly terminated chains of known length; a mark is freed if and only if a head
        of pass 1 leads to its cluster that is not kept; healthy chains and unreferenced bad marks stay; and
        the result tells whether anything changed. */
    method CheckFat() returns (ret: int)
      requires Valid() && LegalTable(next[..])
      requires forall p :: 0 <= p < numClusters ==> head[p] == 0
      modifies next, head, length
      ensures Repaired(next[..], head[..], length[..]) == true
      ensures LegalTable(next[..])
      ensures forall p: Cl :: InRange(numClusters, p) ==> next[p] == old(next[p]) || next[p] == CLUST_FREE
      ensures IsOutcome(old(next[..]), next[..]) == true
      ensures KeepsHealthy(old(next[..]), next[..], head[..], length[..]) == true
      ensures KeepsBad(old(next[..]), next[..]) == true
      ensures ret == FSOK || ret == FSFATMOD
      ensures ret == FSOK <==> forall p: Cl :: InRange(numClusters, p) ==> next[p] == old(next[p])
    {
      MarkChains();
      ghost var t := Marked(next[..], head[..], length[..]);
      ret := RepairChains(t);
    }

    /** Pass 2, on what pass 1 leaves. */
    method RepairChains(ghost t: Marked) returns (ret: int)
      requires Valid() && t.Valid() && LegalTable(t.nx) && Heads(t.nx, t.hd)
      requires t.nx == next[..] && t.hd == head[..] && t.ln == length[..]
      modifies next, head, length
      ensures Repaired(next[..], head[..], length[..]) == true
      ensures LegalTable(next[..])
      ensures forall p: Cl :: InRange(numClusters, p) ==> next[p] == t.nx[p] || next[p] == CLUST_FREE
      ensures IsOutcome(t.nx, next[..]) == true
      ensures KeepsHealthy(t.nx, next[..], head[..], length[..]) == true
      ensures KeepsBad(t.nx, next[..]) == true
      ensures ret == FSOK || ret == FSFATMOD
      ensures ret == FSOK <==> forall p: Cl :: InRange(numClusters, p) ==> next[p] == t.nx[p]
    {
      SettledInitially(t);
      ghost var freed;
      ret, freed := ExamineChains(t);
      CheckedTable(t, next[..], head[..], length[..]);
      OutcomeReached(t, next[..], head[..], length[..]);
    }

    /** Pass 2; when something has changed, freed is a cluster that was in use and is free now. */
    method ExamineChains(ghost t: Marked) returns (ret: int, ghost freed: Cl)
      requires Valid() && t.Valid() && Settled(t, next[..], head[..], length[..], CLUST_FIRST)
      requires next[..] == t.nx && head[..] == t.hd
      modifies next, head, length
      ensures Settled(t, next[..], head[..], length[..], numClusters)
      ensures Progressed(t.nx, t.hd, head[..], numClusters)
      ensures ret == FSOK || ret == FSFATMOD
      ensures ret == FSOK ==> next[..] == t.nx
      ensures ret != FSOK ==> InRange(numClusters, freed) && t.nx[freed] != CLUST_FREE && next[freed] == CLUST_FREE
    {
      ret := FSOK;
      var g: Cl := CLUST_FIRST;
      freed := g;
      ProgressedInitially(t.nx, t.hd, g);
      while g < numClusters
        invariant Settled(t, next[..], head[..], length[..], g)
        invariant Progressed(t.nx, t.hd, head[..], g)
        invariant ret == FSOK ==> next[..] == t.nx
        invariant ret == FSOK || ret == FSFATMOD
        invariant ret != FSOK ==> InRange(numClusters, freed) && t.nx[freed] != CLUST_FREE
        invariant ret != FSOK ==> next[freed] == CLUST_FREE
        decreases numClusters - g
      {
        var r := ExamineCluster(g, t);
        if r != FSOK {
          ret, freed := r, g;
        }
        g := g + 1;
      }
    }

    /** One turn of pass 2. */
    method ExamineCluster(g: Cl, ghost t: Marked) returns (r: int)
      requires Valid() && t.Valid() && Settled(t, next[..], head[..], length[..], g)
      requires InRange(numClusters, g) && Progressed(t.nx, t.hd, head[..], g)
      modifies next, head, length
      ensures Settled(t, next[..], head[..], length[..], g + 1)
      ensures Progressed(t.nx, t.hd, head[..], g + 1)
      ensures r == FSOK ==> next[..] == old(next[..])
      ensures r != FSOK ==> r == FSFATMOD && next[g] == CLUST_FREE && t.nx[g] != CLUST_FREE
    {
      if head[g] == g {
        assert t.hd[g] == g && InUse(t.nx, g);
        r := ExamineChain(g, t);
      } else {
        ExaminedNext(next[..], head[..], g);
        ProgressedSkip(t.nx, t.hd, head[..], g);
        r := FSOK;
      }
    }
  }

  lemma OutcomeReached(t: Marked, nx: seq<Cl>, hd: seq<Cl>, ln: seq<int>)
    requires t.Valid() && Settled(t, nx, hd, ln, |t.nx|) && Progressed(t.nx, t.hd, hd, |t.nx|)
    ensures Heads(t.nx, t.hd) ==> IsOutcome(t.nx, nx)
  {
    forall p: Cl | InRange(|nx|, p)
      ensures nx[p] == if t.hd[p] == 0 || Kept(t.nx, t.hd, t.hd[p]) then t.nx[p] else CLUST_FREE
    {
      if t.hd[p] != 0 {
        HeadOfPath(t.nx, t.hd, p);
        PresentAtEnd(t.nx, t.hd, t.hd[p], |t.nx|);
      }
    }
    assert Outcome(t.nx, t.hd, nx);
  }

  /** What pass 2 leaves behind. */
  lemma CheckedTable(t: Marked, nx: seq<Cl>, hd: seq<Cl>, ln: seq<int>)
    requires t.Valid() && Settled(t, nx, hd, ln, |t.nx|)
    ensures Repaired(nx, hd, ln) && LegalTable(nx)
    ensures forall p: Cl :: InRange(|nx|, p) ==> nx[p] == t.nx[p] || nx[p] == CLUST_FREE
    ensures KeepsHealthy(t.nx, nx, hd, ln) && KeepsBad(t.nx, nx)
  {
    SettledRepaired(t, nx, hd, ln);
    forall c: seq<Cl> | HealthyChain(t.nx, c)
      ensures KeepsChain(t.nx, nx, hd, ln, c)
    {
      HealthyKept(t, nx, hd, ln, c);
    }
    forall p: Cl | InRange(|nx|, p) && t.nx[p] == CLUST_BAD
      ensures nx[p] == CLUST_BAD <==> Unreferenced(t.nx, p)
    {
      BadMarks(t, nx, hd, ln, p);
    }
  }

  /** Progress of clearchain: the table before (nx, hd, ln) and now (nx', hd', ln'); the first k
      clusters of the walk, the set v, have been cleared. */
  datatype Wiping = Wiping(nx: seq<Cl>, hd: seq<Cl>, ln: seq<nat>, k: nat, v: set<Cl>,
                           nx': seq<Cl>, hd': seq<Cl>, ln': seq<nat>) {
    ghost predicate Valid(h: Cl, p: Cl) {
      && |nx'| == |nx| == |hd| == |ln| == |hd'| == |ln'|
      && p == Walk(nx, h, k) && v == Visited(nx, h, k)
      && (h == 0 ==> k == 0)
      && (forall c :: c in v ==> InRange(|nx|, c) && hd[c] == h)
      && forall c: Cl :: InRange(|nx|, c) ==>
           if c in v then nx'[c] == CLUST_FREE && hd'[c] == 0 && ln'[c] == 0
           else nx'[c] == nx[c] && hd'[c] == hd[c] && ln'[c] == ln[c]
    }
  }

  lemma WipeOne(w: Wiping, h: Cl, p: Cl, q: Cl) returns (w': Wiping)
    requires w.Valid(h, p) && |w.nx| <= CLUST_RSRVD
    requires InRange(|w.nx|, p) && w.hd'[p] == h && w.nx'[p] == q
    ensures w'.Valid(h, q)
    ensures p in Clusters(|w.nx|) - w.v
    ensures w' == w.(k := w.k + 1, v := w.v + {p}, nx' := w.nx'[p := CLUST_FREE],
                     hd' := w.hd'[p := 0], ln' := w.ln'[p := 0])
  {
    VisitedNext(w.nx, h, w.k);
    assert w.k > 0 ==> Walk(w.nx, h, 0) in w.v;
    assert Walk(w.nx, h, 0) == h;
    w' := w.(k := w.k + 1, v := w.v + {p}, nx' := w.nx'[p := CLUST_FREE],
             hd' := w.hd'[p := 0], ln' := w.ln'[p := 0]);
  }

  lemma WipedAll(w: Wiping, h: Cl, p: Cl)
    requires w.Valid(h, p) && PathsOk(w.nx, w.hd)
    requires InRange(|w.nx|, p) ==> w.hd'[p] != h
    ensures Cleared(w.nx, w.hd, h, w.nx', w.hd') && ClearedLengths(w.hd, h, w.ln, w.ln')
  {
    ClearedAll(w.nx, w.hd, h, w.k);
  }

  /** Where marking stops, everything reachable has been visited, and the count is right. */
  lemma MarkedAll(nx: seq<Cl>, g: Cl, len: nat)
    requires |nx| <= CLUST_RSRVD && InRange(|nx|, g)
    requires forall c :: c in Visited(nx, g, len) ==> InRange(|nx|, c)
    requires !InRange(|nx|, Walk(nx, g, len)) || len > |nx|
    ensures Reached(nx, g, Visited(nx, g, len))
    ensures forall m: nat :: EndsAfter(nx, g, m) ==> m == len
  {
    assert Walk(nx, g, 0) == g;
    assert len > 0;
    assert Walk(nx, g, 0) in Visited(nx, g, len);
    forall p | p in Visited(nx, g, len) && InRange(|nx|, p) && InRange(|nx|, nx[p])
      ensures nx[p] in Visited(nx, g, len)
    {
      MarkedNext(nx, g, len, p);
    }
    forall m: nat | EndsAfter(nx, g, m)
      ensures m == len
    {
      MarkedLength(nx, g, len, m);
    }
  }

  lemma MarkedNext(nx: seq<Cl>, g: Cl, len: nat, p: Cl)
    requires |nx| <= CLUST_RSRVD && InRange(|nx|, g)
    requires forall c :: c in Visited(nx, g, len) ==> InRange(|nx|, c)
    requires !InRange(|nx|, Walk(nx, g, len)) || len > |nx|
    requires p in Visited(nx, g, len) && InRange(|nx|, p) && InRange(|nx|, nx[p])
    ensures nx[p] in Visited(nx, g, len)
  {
    assert forall j :: 0 <= j < len ==> Walk(nx, g, j) in Visited(nx, g, len);
    var j :| 0 <= j < len && Walk(nx, g, j) == p;
    assert Walk(nx, g, j + 1) == nx[p];
    if len > |nx| {
      LongWalk(nx, g, len, j + 1);
    }
  }

  lemma MarkedLength(nx: seq<Cl>, g: Cl, len: nat, m: nat)
    requires |nx| <= CLUST_RSRVD && InRange(|nx|, g)
    requires forall c :: c in Visited(nx, g, len) ==> InRange(|nx|, c)
    requires !InRange(|nx|, Walk(nx, g, len)) || len > |nx|
    requires EndsAfter(nx, g, m)
    ensures m == len
  {
    assert forall j :: 0 <= j < len ==> Walk(nx, g, j) in Visited(nx, g, len);
    if len > |nx| {
      LongWalk(nx, g, len, m);
    } else {
      EndUnique(nx, g, m, len);
    }
  }

  lemma VisitedNext(nx: seq<Cl>, c: Cl, k: nat)
    ensures Visited(nx, c, k + 1) == Visited(nx, c, k) + {Walk(nx, c, k)}
  {}

  /** Where clearing stops, everything with the label has been visited. */
  lemma ClearedAll(nx: seq<Cl>, hd: seq<Cl>, h: Cl, k: nat)
    requires |nx| == |hd| && PathsOk(nx, hd)
    requires var p := Walk(nx, h, k);
             !InRange(|nx|, p) || hd[p] != h || p in Visited(nx, h, k)
    ensures h != 0 ==> forall c: Cl :: InRange(|nx|, c) && hd[c] == h ==> c in Visited(nx, h, k)
  {
    if h != 0 {
      forall c: Cl | InRange(|nx|, c) && hd[c] == h
        ensures c in Visited(nx, h, k)
      {
        assert OnPath(nx, hd, h, c);
        var k': nat :| Labelled(nx, hd, h, k') && Walk(nx, h, k') == c;
        if k' >= k {
          var i :| 0 <= i < k && Walk(nx, h, i) == Walk(nx, h, k);
          WalkRound(nx, h, i, k, k');
        }
      }
    }
  }
}
