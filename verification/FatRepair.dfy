/**
 Which clusters checkfat keeps, stated on the table it starts with: the heads that pass 1 finds, the runs of
 clusters that carry one head, and which heads are still there when pass 2 comes to them.
 */
module FatRepair {
  import opened FatChains

  // ---------------------------------------------------------------- the heads of pass 1

  ghost predicate Reaches(nx: seq<Cl>, g: Cl, p: Cl) {
    exists k: nat :: Walk(nx, g, k) == p
  }

  /** A chain starts at h: it is in use, and no smaller start leads to it. */
  ghost predicate IsStart(nx: seq<Cl>, h: Cl)
    decreases h
  {
    InRange(|nx|, h) && InUse(nx, h) && forall g: Cl :: g < h && IsStart(nx, g) ==> !Reaches(nx, g, h)
  }

  /** c is the largest start below i that leads to p, or 0 if there is none. */
  ghost predicate HeadOk(nx: seq<Cl>, c: Cl, p: Cl, i: nat) {
    && (c != 0 ==> c < i && IsStart(nx, c) && Reaches(nx, c, p))
    && forall g: Cl {:trigger Reaches(nx, g, p)} :: g < i && IsStart(nx, g) && Reaches(nx, g, p) ==> g <= c
  }

  ghost predicate HeadsUpTo(nx: seq<Cl>, hd: seq<Cl>, i: nat) {
    |hd| == |nx| && forall p: Cl {:trigger HeadOk(nx, hd[p], p, i)} :: InRange(|nx|, p) ==> HeadOk(nx, hd[p], p, i)
  }

  ghost predicate Heads(nx: seq<Cl>, hd: seq<Cl>) {
    HeadsUpTo(nx, hd, |nx|)
  }

  lemma HeadsInitially(nx: seq<Cl>, hd: seq<Cl>, i: Cl)
    requires |hd| == |nx| && i <= CLUST_FIRST && forall p: Cl :: p < |hd| ==> hd[p] == 0
    ensures HeadsUpTo(nx, hd, i)
  {
    forall p: Cl | InRange(|nx|, p)
      ensures HeadOk(nx, hd[p], p, i)
    {}
  }

  lemma HeadsUnique(nx: seq<Cl>, hd: seq<Cl>, hd': seq<Cl>, p: Cl)
    requires Heads(nx, hd) && Heads(nx, hd') && InRange(|nx|, p)
    ensures hd[p] == hd'[p]
  {
    assert HeadOk(nx, hd[p], p, |nx|) && HeadOk(nx, hd'[p], p, |nx|);
  }

  /** What is in use and led to by no start below i is a start, anything else is none. */
  lemma StartHere(nx: seq<Cl>, c: Cl, i: Cl)
    requires InRange(|nx|, i) && HeadOk(nx, c, i, i)
    ensures IsStart(nx, i) <==> c == 0 && InUse(nx, i)
  {}

  lemma HeadsSkip(nx: seq<Cl>, hd: seq<Cl>, i: Cl)
    requires HeadsUpTo(nx, hd, i) == true && InRange(|nx|, i) && (hd[i] != 0 || !InUse(nx, i))
    ensures HeadsUpTo(nx, hd, i + 1)
  {
    StartHere(nx, hd[i], i);
    forall p: Cl | InRange(|nx|, p)
      ensures HeadOk(nx, hd[p], p, i + 1)
    {
      HeadStays(nx, hd[p], p, i);
    }
  }

  lemma HeadStays(nx: seq<Cl>, c: Cl, p: Cl, i: Cl)
    requires HeadOk(nx, c, p, i) && !IsStart(nx, i)
    ensures HeadOk(nx, c, p, i + 1)
  {
    forall g: Cl | g < i + 1 && IsStart(nx, g) && Reaches(nx, g, p)
      ensures g <= c
    {
      assert g != i;
    }
  }

  /** Following one more chain labels what is reached from it. */
  lemma HeadsStep(nx: seq<Cl>, hd: seq<Cl>, g: Cl, v: set<Cl>, hd': seq<Cl>)
    requires HeadsUpTo(nx, hd, g) == true && InRange(|nx|, g) && hd[g] == 0 && InUse(nx, g)
    requires |hd'| == |hd| && forall p: Cl :: InRange(|nx|, p) ==> hd'[p] == if p in v then g else hd[p]
    requires forall p: Cl :: InRange(|nx|, p) ==> (p in v <==> Reaches(nx, g, p))
    ensures HeadsUpTo(nx, hd', g + 1)
  {
    StartHere(nx, hd[g], g);
    forall p: Cl | InRange(|nx|, p)
      ensures HeadOk(nx, hd'[p], p, g + 1)
    {
      HeadNext(nx, hd[p], p, g);
    }
  }

  lemma HeadNext(nx: seq<Cl>, c: Cl, p: Cl, g: Cl)
    requires HeadOk(nx, c, p, g) && IsStart(nx, g)
    ensures HeadOk(nx, if Reaches(nx, g, p) then g else c, p, g + 1)
  {}

  // ---------------------------------------------------------------- runs

  /** Where the examination of the chain of g stopped: after k + 1 clusters labelled g, at the mark
      n, because n is not in the table, not labelled g, or the watchdog ran out. */
  ghost predicate StopsAt(nx: seq<Cl>, hd: seq<Cl>, g: Cl, k: nat, n: Cl)
    requires |nx| == |hd|
  {
    && Labelled(nx, hd, g, k)
    && n == nx[Walk(nx, g, k)]
    && (!InRange(|nx|, n) || hd[n] != g || k == |nx|)
  }

  ghost predicate IsHead(hd: seq<Cl>, h: Cl) {
    InRange(|hd|, h) && hd[h] == h
  }

  /** A cluster of g leads to one of another head h. */
  ghost predicate RunsInto(nx: seq<Cl>, hd: seq<Cl>, g: Cl, h: Cl)
    requires |nx| == |hd|
  {
    g != h && exists p: Cl :: InRange(|nx|, p) && hd[p] == g && InRange(|nx|, nx[p]) && hd[nx[p]] == h
  }

  /** h is still there when pass 2 comes to it: no smaller head that was still there runs into it. */
  ghost predicate Still(nx: seq<Cl>, hd: seq<Cl>, h: Cl)
    requires |nx| == |hd|
    decreases h
  {
    forall g: Cl :: g < h && IsHead(hd, g) && RunsInto(nx, hd, g, h) ==> !Still(nx, hd, g)
  }

  /** The chain of h ends in an EOF mark, and was still there. */
  ghost predicate Kept(nx: seq<Cl>, hd: seq<Cl>, h: Cl)
    requires |nx| == |hd|
  {
    IsSound(nx, hd, h) && Still(nx, hd, h)
  }

  /** The marks that are left, when hd are the heads that pass 1 finds. */
  ghost predicate Outcome(nx: seq<Cl>, hd: seq<Cl>, nx': seq<Cl>)
    requires |nx| == |hd|
  {
    |nx'| == |nx| && forall p: Cl :: InRange(|nx|, p) ==>
      nx'[p] == if hd[p] == 0 || Kept(nx, hd, hd[p]) then nx[p] else CLUST_FREE
  }

  ghost predicate IsOutcome(nx: seq<Cl>, nx': seq<Cl>) {
    exists hd: seq<Cl> :: Heads(nx, hd) && Outcome(nx, hd, nx')
  }

  /** h is there when the heads below i have been examined. */
  ghost predicate Present(nx: seq<Cl>, hd: seq<Cl>, h: Cl, i: nat)
    requires |nx| == |hd|
  {
    && (h < i ==> IsSound(nx, hd, h))
    && forall g: Cl :: g < i && g < h && IsHead(hd, g) && RunsInto(nx, hd, g, h) ==> !Still(nx, hd, g)
  }

  lemma PresentAtEnd(nx: seq<Cl>, hd: seq<Cl>, h: Cl, i: nat)
    requires |nx| == |hd|
    ensures h < i ==> (Present(nx, hd, h, i) <==> Kept(nx, hd, h))
    ensures h == i ==> (Present(nx, hd, h, i) <==> Still(nx, hd, h))
  {}

  /** The run of g has one end. */
  lemma RunEnd(nx: seq<Cl>, hd: seq<Cl>, g: Cl, k: nat, n: Cl, h: Cl)
    requires |nx| == |hd| <= CLUST_RSRVD && PathsOk(nx, hd) && g != 0 && StopsAt(nx, hd, g, k, n)
    ensures RunsInto(nx, hd, g, h) <==> InRange(|nx|, n) && hd[n] == h && g != h
  {
    if RunsInto(nx, hd, g, h) {
      var p: Cl :| InRange(|nx|, p) && hd[p] == g && InRange(|nx|, nx[p]) && hd[nx[p]] == h;
      assert OnPath(nx, hd, hd[p], p);
      var j: nat :| Labelled(nx, hd, g, j) && Walk(nx, g, j) == p;
      LastOfRun(nx, hd, g, k, n, j);
    }
  }

  /** The cluster before another head is the last one of its run. */
  lemma LastOfRun(nx: seq<Cl>, hd: seq<Cl>, g: Cl, k: nat, n: Cl, j: nat)
    requires |nx| == |hd| <= CLUST_RSRVD && StopsAt(nx, hd, g, k, n) && Labelled(nx, hd, g, j)
    requires var q := nx[Walk(nx, g, j)];
             InRange(|nx|, q) && hd[q] != g
    ensures j == k
  {
    assert Walk(nx, g, j + 1) == nx[Walk(nx, g, j)];
    assert Walk(nx, g, k + 1) == n;
    if j > k {
      assert k == |nx|;
      LongWalk(nx, g, k + 1, j + 1);
    }
  }

  /** A sound chain is examined to its end. */
  lemma SoundStopsAtEnd(nx: seq<Cl>, hd: seq<Cl>, g: Cl, m: nat, k: nat, n: Cl)
    requires |nx| == |hd| && |nx| <= CLUST_RSRVD
    requires SoundChain(nx, hd, g, m) && StopsAt(nx, hd, g, k, n)
    ensures n >= CLUST_EOFS
  {
    assert Walk(nx, g, m) == nx[Walk(nx, g, m - 1)];
    if k < m - 1 {
      assert Walk(nx, g, k + 1) == n;
      LongWalk(nx, g, m, m);
    }
  }

  /** An examination that stops at an EOF mark found a sound chain. */
  lemma GoodEnd(nx: seq<Cl>, hd: seq<Cl>, g: Cl, k: nat, n: Cl)
    requires |nx| == |hd| && StopsAt(nx, hd, g, k, n) && n >= CLUST_EOFS
    ensures SoundChain(nx, hd, g, k + 1)
  {}

  lemma SoundExactly(nx: seq<Cl>, hd: seq<Cl>, g: Cl, k: nat, n: Cl)
    requires |nx| == |hd| && |nx| <= CLUST_RSRVD && StopsAt(nx, hd, g, k, n)
    ensures IsSound(nx, hd, g) <==> n >= CLUST_EOFS
  {
    if IsSound(nx, hd, g) {
      var m: nat :| SoundChain(nx, hd, g, m);
      SoundStopsAtEnd(nx, hd, g, m, k, n);
    }
    if n >= CLUST_EOFS {
      GoodEnd(nx, hd, g, k, n);
    }
  }

  /** Of two chains that are linked neither is kept, if the smaller one was still there. */
  lemma LinkedLost(nx: seq<Cl>, hd: seq<Cl>, g: Cl, h: Cl)
    requires |nx| == |hd| <= CLUST_RSRVD && PathsOk(nx, hd) && IsHead(hd, g) && g < h
    requires RunsInto(nx, hd, g, h) && Still(nx, hd, g)
    ensures !Kept(nx, hd, g) && !Kept(nx, hd, h)
  {
    var p: Cl :| InRange(|nx|, p) && hd[p] == g && InRange(|nx|, nx[p]) && hd[nx[p]] == h;
    assert OnPath(nx, hd, hd[p], p);
    var j: nat :| Labelled(nx, hd, g, j) && Walk(nx, g, j) == p;
    SoundExactly(nx, hd, g, j, nx[p]);
  }

  // ---------------------------------------------------------------- the steps of pass 2

  /** Before i is examined exactly the clusters of the heads that are present carry a label. */
  ghost predicate Progressed(nx: seq<Cl>, hd: seq<Cl>, hd': seq<Cl>, i: nat)
    requires |nx| == |hd| == |hd'|
  {
    forall p: Cl {:trigger hd'[p]} ::
      InRange(|nx|, p) && hd[p] != 0 ==> (hd'[p] != 0 <==> Present(nx, hd, hd[p], i))
  }

  lemma ProgressedInitially(nx: seq<Cl>, hd: seq<Cl>, i: nat)
    requires |nx| == |hd| && PathsOk(nx, hd) && i <= CLUST_FIRST
    ensures Progressed(nx, hd, hd, i)
  {
    forall p: Cl | InRange(|nx|, p) && hd[p] != 0
      ensures Present(nx, hd, hd[p], i)
    {
      HeadOfPath(nx, hd, p);
    }
  }

  lemma HeadOfPath(nx: seq<Cl>, hd: seq<Cl>, p: Cl)
    requires |nx| == |hd| && PathsOk(nx, hd) && InRange(|nx|, p) && hd[p] != 0
    ensures IsHead(hd, hd[p])
  {
    assert OnPath(nx, hd, hd[p], p);
    var k: nat :| Labelled(nx, hd, hd[p], k) && Walk(nx, hd[p], k) == p;
    assert Walk(nx, hd[p], 0) == hd[p];
  }

  /** What is present after g has been examined, by what its run ends in. */
  lemma PresentNext(nx: seq<Cl>, hd: seq<Cl>, g: Cl, k: nat, n: Cl, l: Cl)
    requires |nx| == |hd| <= CLUST_RSRVD && PathsOk(nx, hd) && IsHead(hd, g) && StopsAt(nx, hd, g, k, n)
    requires Present(nx, hd, g, g)
    requires InRange(|nx|, n) ==> hd[n] >= g
    ensures Present(nx, hd, l, g + 1)
            <==> Present(nx, hd, l, g)
                 && (l == g ==> n >= CLUST_EOFS) && (InRange(|nx|, n) && hd[n] == l ==> l == g)
  {
    PresentAtEnd(nx, hd, g, g);
    RunEnd(nx, hd, g, k, n, l);
    SoundExactly(nx, hd, g, k, n);
  }

  /** g is no head, or is not there any more. */
  lemma ProgressedSkip(nx: seq<Cl>, hd: seq<Cl>, hd': seq<Cl>, g: Cl)
    requires |nx| == |hd| == |hd'| && PathsOk(nx, hd) && Progressed(nx, hd, hd', g)
    requires InRange(|nx|, g) && (hd[g] == g ==> hd'[g] == 0)
    ensures Progressed(nx, hd, hd', g + 1)
  {
    forall p: Cl | InRange(|nx|, p) && hd[p] != 0
      ensures Present(nx, hd, hd[p], g) <==> Present(nx, hd, hd[p], g + 1)
    {
      HeadOfPath(nx, hd, p);
      PresentAtEnd(nx, hd, g, g);
    }
  }

  /** The run of g ends in an EOF mark: nothing changes. */
  lemma ProgressedGood(nx: seq<Cl>, hd: seq<Cl>, hd': seq<Cl>, g: Cl, k: nat, n: Cl)
    requires |nx| == |hd| == |hd'| <= CLUST_RSRVD && PathsOk(nx, hd) && Progressed(nx, hd, hd', g)
    requires IsHead(hd, g) && hd'[g] == g && StopsAt(nx, hd, g, k, n) && n >= CLUST_EOFS
    ensures Progressed(nx, hd, hd', g + 1)
  {
    forall p: Cl | InRange(|nx|, p) && hd[p] != 0
      ensures Present(nx, hd, hd[p], g) <==> Present(nx, hd, hd[p], g + 1)
    {
      PresentNext(nx, hd, g, k, n, hd[p]);
    }
  }

  /** Otherwise its clusters lose their label, and so do those of the head it runs into. */
  lemma ProgressedBad(nx: seq<Cl>, hd: seq<Cl>, hd': seq<Cl>, g: Cl, k: nat, n: Cl, hd'': seq<Cl>)
    requires |nx| == |hd| == |hd'| == |hd''| <= CLUST_RSRVD && PathsOk(nx, hd) && Progressed(nx, hd, hd', g)
    requires IsHead(hd, g) && hd'[g] == g && StopsAt(nx, hd, g, k, n) && n < CLUST_EOFS
    requires InRange(|nx|, n) ==> hd[n] >= g
    requires forall p: Cl :: InRange(|nx|, p) && hd[p] != 0 ==>
               (hd''[p] != 0 <==> hd'[p] != 0 && hd[p] != g && !(InRange(|nx|, n) && hd[n] == hd[p]))
    ensures Progressed(nx, hd, hd'', g + 1)
  {
    forall p: Cl | InRange(|nx|, p) && hd[p] != 0
      ensures hd''[p] != 0 <==> Present(nx, hd, hd[p], g + 1)
    {
      PresentNext(nx, hd, g, k, n, hd[p]);
    }
  }
}
