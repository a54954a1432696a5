/** Writing an image in sparse form and expanding it again. */
module SparseRoundTrip {
  import opened ByteSeqs
  import opened Rounding
  import opened SparseCrc
  import opened SparseFormat
  import opened SparseWriter
  import opened SparseReader
  import BackedBlocks

  // ---------------------------------------------------------------- the image meant

  /** A write applied to the image; one that is refused changes nothing. */
  function Patch(image: seq<bv8>, w: Write): (r: seq<bv8>)
    ensures |r| == |image|
  {
    if w.Accepted(|image|) then image[..w.off] + w.data + image[w.off + |w.data|..] else image
  }

  /** The image with the writes applied one after the other. */
  function Overlay(image: seq<bv8>, writes: seq<Write>): (r: seq<bv8>)
    ensures |r| == |image|
    decreases |writes|
  {
    if writes == [] then image else Overlay(Patch(image, writes[0]), writes[1..])
  }

  /** Aligned, ascending and not overlapping, from cur on. */
  predicate Ascending(writes: seq<Write>, cur: nat, blockSize: nat)
    requires blockSize > 0
  {
    writes == [] ||
    (writes[0].off >= cur && Aligned(writes[0].off, blockSize)
     && Ascending(writes[1..], writes[0].End(blockSize), blockSize))
  }

  /** None of the first n writes is refused. */
  ghost predicate Accepted(writes: seq<Write>, n: nat, len: nat)
    requires n <= |writes|
  {
    forall i :: 0 <= i < n ==> writes[i].Accepted(len)
  }

  /** One write appended to what has been written, with zeros up to the end, is one write into the
      image so far. */
  lemma PatchBehind(s: seq<bv8>, w: Write, pad: nat, len: nat)
    requires |s| <= w.off && w.off + |w.data| + pad <= len && w.Accepted(len)
    ensures Patch(s + Zeros(len - |s|), w)
            == s + Zeros(w.off - |s|) + (w.data + Zeros(pad)) + Zeros(len - w.off - |w.data| - pad)
  {
    var image := s + Zeros(len - |s|);
    assert image[..w.off] == s + Zeros(w.off - |s|);
    assert image[w.off + |w.data|..] == Zeros(len - w.off - |w.data|);
    ZerosConcat(pad, len - w.off - |w.data| - pad);
    Reassociate(s + Zeros(w.off - |s|), w.data, Zeros(pad), Zeros(len - w.off - |w.data| - pad));
  }

  lemma Reassociate(a: seq<bv8>, b: seq<bv8>, c: seq<bv8>, d: seq<bv8>)
    ensures a + b + (c + d) == a + (b + c) + d
  {}

  // ---------------------------------------------------------------- writing

  /** What the chunks stand for, padded with zeros, is the image with the first i writes. */
  ghost predicate OnTheWay(written: seq<bv8>, writes: seq<Write>, i: nat, blockSize: nat, len: nat)
    requires blockSize > 0 && i <= |writes|
  {
    && |written| <= len && Ascending(writes[i..], |written|, blockSize)
    && Overlay(written + Zeros(len - |written|), writes[i..]) == Overlay(Zeros(len), writes)
  }

  lemma Onwards(before: seq<bv8>, after: seq<bv8>, writes: seq<Write>, i: nat, blockSize: nat, len: nat)
    requires blockSize > 0 && i < |writes| && OnTheWay(before, writes, i, blockSize, len)
    requires var w := writes[i];
             && w.Accepted(len) && |before| <= w.off && |w.data| <= RoundUp(|w.data|, blockSize)
             && |after| == w.End(blockSize) <= len
             && after == before + Zeros(w.off - |before|) + (w.data + Zeros(RoundUp(|w.data|, blockSize) - |w.data|))
    ensures OnTheWay(after, writes, i + 1, blockSize, len)
  {
    var w := writes[i];
    PatchBehind(before, w, RoundUp(|w.data|, blockSize) - |w.data|, len);
    assert writes[i..][0] == w && writes[i..][1..] == writes[i + 1..];
  }

  lemma NextAligned(before: seq<bv8>, writes: seq<Write>, i: nat, blockSize: nat, len: nat)
    requires blockSize > 0 && i < |writes| && OnTheWay(before, writes, i, blockSize, len)
    ensures writes[i].off >= |before| && Aligned(writes[i].off, blockSize)
  {
    assert writes[i..][0] == writes[i];
  }

  /** What ascends from one place on also does so from an earlier one on. */
  lemma AscendingSooner(writes: seq<Write>, cur: nat, cur': nat, blockSize: nat)
    requires blockSize > 0 && Ascending(writes, cur, blockSize) && cur' <= cur
    ensures Ascending(writes, cur', blockSize)
  {}

  lemma OnwardsRefused(before: seq<bv8>, writes: seq<Write>, i: nat, blockSize: nat, len: nat)
    requires blockSize > 0 && i < |writes| && OnTheWay(before, writes, i, blockSize, len)
    requires !writes[i].Accepted(len)
    ensures OnTheWay(before, writes, i + 1, blockSize, len)
  {
    var w := writes[i];
    assert writes[i..][0] == w && writes[i..][1..] == writes[i + 1..];
    RoundUpBounds(|w.data|, blockSize);
    AscendingSooner(writes[i + 1..], w.End(blockSize), |before|, blockSize);
  }

  /** One write more has its payload in a chunk of its own. */
  lemma ChunksNext(before: seq<Chunk>, after: seq<Chunk>, cur: nat, w: Write, blockSize: nat)
    requires blockSize > 0 && GapsApart(before) && EndsInData(before)
    requires cur == Bytes(TotalBlocks(before), blockSize) <= w.off && Aligned(w.off, blockSize)
    requires Emitted(before, after, w.off - cur, w.data, blockSize)
    ensures GapsApart(after) && EndsInData(after)
    ensures Payloads(after) == Payloads(before) + [Padded(w.data, blockSize)]
  {
    EmittedIs(before, after, w.off - cur, w.data, blockSize);
    GapAligned(w.off, cur, TotalBlocks(before), blockSize);
    GapsAppend(before, w.off - cur, w.data, blockSize);
    PayloadsAppend(before, w.off - cur, w.data, blockSize);
  }

  /** What the writes that are accepted leave as payloads. */
  function AcceptedData(writes: seq<Write>, blockSize: nat, len: nat): seq<seq<bv8>>
    requires blockSize > 0
  {
    if writes == [] then []
    else
      var n := |writes| - 1;
      AcceptedData(writes[..n], blockSize, len)
      + if writes[n].Accepted(len) then [Padded(writes[n].data, blockSize)] else []
  }

  lemma AcceptedNext(writes: seq<Write>, i: nat, blockSize: nat, len: nat)
    requires blockSize > 0 && i < |writes|
    ensures AcceptedData(writes[..i + 1], blockSize, len)
            == AcceptedData(writes[..i], blockSize, len)
               + if writes[i].Accepted(len) then [Padded(writes[i].data, blockSize)] else []
  {
    assert writes[..i + 1][..i] == writes[..i];
  }

  /** The chunks written so far stand for the image with the first i writes and hold their payloads. */
  ghost predicate Going(chunks: seq<Chunk>, writes: seq<Write>, i: nat, blockSize: nat, len: nat)
    requires blockSize > 0 && i <= |writes|
  {
    && OnTheWay(Expanded(chunks, blockSize), writes, i, blockSize, len)
    && Payloads(chunks) == AcceptedData(writes[..i], blockSize, len)
  }

  lemma GoingOn(before: seq<Chunk>, after: seq<Chunk>, writes: seq<Write>, i: nat, blockSize: nat, len: nat)
    requires blockSize > 0 && i < |writes| && Going(before, writes, i, blockSize, len)
    requires var w := writes[i];
             && w.Accepted(len) && |Expanded(before, blockSize)| <= w.off && |w.data| <= RoundUp(|w.data|, blockSize)
             && |Expanded(after, blockSize)| == w.End(blockSize) <= len
             && Expanded(after, blockSize) == Expanded(before, blockSize)
                  + Zeros(w.off - |Expanded(before, blockSize)|) + Padded(w.data, blockSize)
             && Payloads(after) == Payloads(before) + [Padded(w.data, blockSize)]
    ensures Going(after, writes, i + 1, blockSize, len)
  {
    Onwards(Expanded(before, blockSize), Expanded(after, blockSize), writes, i, blockSize, len);
    AcceptedNext(writes, i, blockSize, len);
  }

  lemma GoingOnRefused(chunks: seq<Chunk>, writes: seq<Write>, i: nat, blockSize: nat, len: nat)
    requires blockSize > 0 && i < |writes| && Going(chunks, writes, i, blockSize, len) && !writes[i].Accepted(len)
    ensures Going(chunks, writes, i + 1, blockSize, len)
  {
    OnwardsRefused(Expanded(chunks, blockSize), writes, i, blockSize, len);
    AcceptedNext(writes, i, blockSize, len);
  }

  /** Chunks as the loop leaves them: gaps between data, data at the end. */
  predicate Tidy(chunks: seq<Chunk>) {
    GapsApart(chunks) && EndsInData(chunks)
  }

  /** What one write more does to the chunks, if it is written or if it is refused. */
  lemma WrittenNext(before: seq<Chunk>, after: seq<Chunk>, cur: nat, cur': nat, writes: seq<Write>, i: nat,
                    blockSize: nat, len: nat)
    requires blockSize > 0 && i < |writes| && Tidy(before)
    requires cur == Bytes(TotalBlocks(before), blockSize) == |Expanded(before, blockSize)|
    requires cur' == |Expanded(after, blockSize)| <= len
    requires Moved(before, after, cur, cur', writes[i].off, writes[i].data, blockSize) == true
    requires Aligned(writes[i].off, blockSize) && writes[i].Accepted(len)
    ensures Tidy(after) && (Going(before, writes, i, blockSize, len) ==> Going(after, writes, i + 1, blockSize, len))
  {
    ChunksNext(before, after, cur, writes[i], blockSize);
    if Going(before, writes, i, blockSize, len) {
      GoingOn(before, after, writes, i, blockSize, len);
    }
  }

  lemma RefusedNext(chunks: seq<Chunk>, cur: nat, writes: seq<Write>, i: nat, blockSize: nat, len: nat)
    requires blockSize > 0 && i < |writes| && cur == |Expanded(chunks, blockSize)|
    requires !(writes[i].Accepted(len) && writes[i].off >= cur && Aligned(writes[i].off, blockSize))
    ensures Going(chunks, writes, i, blockSize, len) ==>
              !writes[i].Accepted(len) && Going(chunks, writes, i + 1, blockSize, len)
  {
    if Going(chunks, writes, i, blockSize, len) {
      NextAligned(Expanded(chunks, blockSize), writes, i, blockSize, len);
      GoingOnRefused(chunks, writes, i, blockSize, len);
    }
  }

  /** One turn of the loop below. */
  method WriteNext(out: OutputFile, writes: seq<Write>, i: nat) returns (ok: bool)
    requires out.Valid() && i < |writes| && Tidy(out.chunks)
    modifies out
    ensures out.Valid() && Tidy(out.chunks) == true
    ensures Going(old(out.chunks), writes, i, out.blockSize, out.InfoLen()) ==>
              (ok <==> writes[i].Accepted(out.InfoLen()))
    ensures Going(old(out.chunks), writes, i, out.blockSize, out.InfoLen()) ==>
              Going(out.chunks, writes, i + 1, out.blockSize, out.InfoLen()) == true
  {
    ghost var chunks, cur := out.chunks, out.curOutPtr;
    ok := out.WriteData(writes[i]);
    if ok {
      WrittenNext(chunks, out.chunks, cur, out.curOutPtr, writes, i, out.blockSize, out.InfoLen());
    } else {
      RefusedNext(chunks, cur, writes, i, out.blockSize, out.InfoLen());
    }
  }

  /** All writes, one after the other. */
  method WriteAll(out: OutputFile, writes: seq<Write>) returns (refused: bool)
    requires out.Valid() && out.chunks == []
    modifies out
    ensures out.Valid() && Tidy(out.chunks)
    ensures Ascending(writes, 0, out.blockSize) ==>
              && Going(out.chunks, writes, |writes|, out.blockSize, out.InfoLen())
              && (refused <==> !Accepted(writes, |writes|, out.InfoLen()))
  {
    ghost var good := Ascending(writes, 0, out.blockSize);
    ghost var len := out.InfoLen();
    assert writes[0..] == writes && writes[..0] == [] && [] + Zeros(len) == Zeros(len);
    var i := 0;
    refused := false;
    while i < |writes|
      invariant i <= |writes| && out.Valid() && Tidy(out.chunks)
      invariant good ==> Going(out.chunks, writes, i, out.blockSize, len) && (refused <==> !Accepted(writes, i, len))
    {
      var ok := WriteNext(out, writes, i);
      refused, i := refused || !ok, i + 1;
    }
  }

  /** open_output_file, the writes, pad_output_file and close_output_file. A write that is refused is
      reported and left out. Main result: for ascending writes the chunks stand for the image meant, the
      payloads are those of the accepted writes and nothing else, and the header's totals and check sum
      are those of the whole image. */
  method WriteImage(writes: seq<Write>, blockSize: nat, totalBlks: nat) returns (f: SparseFile, refused: bool)
    requires blockSize > 0 && totalBlks < TWO32
    ensures ChunksOk(f.chunks, blockSize) && GapsApart(f.chunks)
    ensures var image := Expanded(f.chunks, blockSize);
            && |image| == Bytes(totalBlks, blockSize) && TotalBlocks(f.chunks) == totalBlks
            && f.header == Header(MAGIC, MAJOR_VERSION, CHUNK_HEADER_LEN, blockSize, totalBlks, |f.chunks|,
                                  Crc(Sum(0), image))
            && (Ascending(writes, 0, blockSize) ==>
                  && image == Overlay(Zeros(|image|), writes) && (refused <==> !Accepted(writes, |writes|, |image|))
                  && Payloads(f.chunks) == AcceptedData(writes, blockSize, |image|))
  {
    var out := new OutputFile(blockSize, totalBlks);
    refused := WriteAll(out, writes);
    ghost var chunks, gap := out.chunks, out.InfoLen() - out.curOutPtr;
    out.Pad();
    GoingEnd(chunks, out.chunks, gap, writes, blockSize, out.InfoLen());
    f := out.Close();
    BlocksOf(f.chunks, totalBlks, blockSize);
  }

  lemma GoingEnd(chunks: seq<Chunk>, padded: seq<Chunk>, gap: nat, writes: seq<Write>, blockSize: nat, len: nat)
    requires blockSize > 0 && Tidy(chunks) && padded == chunks + Gap(gap, blockSize) && Aligned(gap, blockSize)
    requires |Expanded(chunks, blockSize)| + gap == len
    requires Expanded(padded, blockSize) == Expanded(chunks, blockSize) + Zeros(gap)
    ensures GapsApart(padded)
    ensures Going(chunks, writes, |writes|, blockSize, len) ==>
              && Expanded(padded, blockSize) == Overlay(Zeros(len), writes)
              && Payloads(padded) == AcceptedData(writes, blockSize, len)
  {
    GapAppend(chunks, gap, blockSize);
    PayloadsAppend(chunks, gap, [], blockSize);
    ImageAtEnd(Expanded(chunks, blockSize), writes, gap, blockSize, len);
    DataAtEnd(writes, blockSize, len);
  }

  lemma ImageAtEnd(written: seq<bv8>, writes: seq<Write>, gap: nat, blockSize: nat, len: nat)
    requires blockSize > 0 && |written| + gap == len
    ensures OnTheWay(written, writes, |writes|, blockSize, len) ==> written + Zeros(gap) == Overlay(Zeros(len), writes)
  {
    assert writes[|writes|..] == [];
  }

  lemma DataAtEnd(writes: seq<Write>, blockSize: nat, len: nat)
    requires blockSize > 0
    ensures AcceptedData(writes[..|writes|], blockSize, len) == AcceptedData(writes, blockSize, len)
  {
    assert writes[..|writes|] == writes;
  }

  lemma BlocksOf(chunks: seq<Chunk>, totalBlks: nat, blockSize: nat)
    requires blockSize > 0 && Bytes(TotalBlocks(chunks), blockSize) == Bytes(totalBlks, blockSize)
    ensures TotalBlocks(chunks) == totalBlks
  {
    AlignedBytes(TotalBlocks(chunks), blockSize);
    AlignedBytes(totalBlks, blockSize);
  }

  // ---------------------------------------------------------------- and back

  /** No gap is of a length whose countdown runs past 0. */
  predicate Quiet(chunks: seq<Chunk>, blockSize: nat) {
    forall i {:trigger chunks[i]} :: 0 <= i < |chunks| && chunks[i].DontCare? ==>
      !RunsPast(Bytes(chunks[i].chunkSz, blockSize), blockSize)
  }

  /** What the reader makes of a file whose header matches its chunks. */
  lemma ExpandWritten(f: SparseFile, blockSize: nat, totalBlks: nat)
    requires blockSize > 0 && totalBlks < TWO32 && ChunksOk(f.chunks, blockSize)
    requires TotalBlocks(f.chunks) == totalBlks && |Expanded(f.chunks, blockSize)| == Bytes(totalBlks, blockSize)
    requires f.header == Header(MAGIC, MAJOR_VERSION, CHUNK_HEADER_LEN, blockSize, totalBlks, |f.chunks|,
                                Crc(Sum(0), Expanded(f.chunks, blockSize)))
    ensures if Quiet(f.chunks, blockSize) then Expand(f) == Image(Expanded(f.chunks, blockSize)) else Expand(f).Runaway?
  {
    QuietRead(f);
    ExpandByVerdict(f);
  }

  /** Expand, once the header has been found in order. */
  lemma ExpandByVerdict(f: SparseFile)
    requires f.header.magic == MAGIC && f.header.major == MAJOR_VERSION && f.header.totalChunks == |f.chunks|
    requires f.header.totalBlks == TotalBlocks(f.chunks) < TWO32
    requires |Expanded(f.chunks, f.header.blkSz)| == Bytes(f.header.totalBlks, f.header.blkSz)
    requires f.header.checksum == Crc(Sum(0), Expanded(f.chunks, f.header.blkSz))
    ensures var bad := FirstBad(f, 0);
            Expand(f) == if bad < |f.chunks| then VerdictOn(f, bad).r else Image(Expanded(f.chunks, f.header.blkSz))
  {
    assert f.chunks[..|f.chunks|] == f.chunks;
  }

  lemma QuietRead(f: SparseFile)
    requires f.header.totalChunks == |f.chunks|
    requires f.header.chunkHdrSz == CHUNK_HEADER_LEN && ChunksOk(f.chunks, f.header.blkSz)
    ensures var bad := FirstBad(f, 0);
            if Quiet(f.chunks, f.header.blkSz) then bad == |f.chunks|
            else bad < |f.chunks| && VerdictOn(f, bad) == Stop(Runaway(bad))
  {
    FirstNotQuiet(f, 0);
    if !Quiet(f.chunks, f.header.blkSz) {
      var i :| 0 <= i < |f.chunks| && f.chunks[i].DontCare?
               && RunsPast(Bytes(f.chunks[i].chunkSz, f.header.blkSz), f.header.blkSz);
      assert VerdictOn(f, i).Stop?;
    }
  }

  lemma {:induction false} FirstNotQuiet(f: SparseFile, i: nat)
    requires f.header.totalChunks == |f.chunks| && i <= |f.chunks|
    requires f.header.chunkHdrSz == CHUNK_HEADER_LEN && ChunksOk(f.chunks, f.header.blkSz)
    ensures var bad := FirstBad(f, i);
            if bad < |f.chunks| then VerdictOn(f, bad) == Stop(Runaway(bad)) && !Quiet(f.chunks, f.header.blkSz)
            else forall j :: i <= j < |f.chunks| ==> VerdictOn(f, j) == Go
    decreases |f.chunks| - i
  {
    if i < |f.chunks| {
      assert ChunkOk(f.chunks[i], f.header.blkSz);
      if VerdictOn(f, i).Go? {
        FirstNotQuiet(f, i + 1);
      }
    }
  }

  lemma WrittenFramed(f: SparseFile, blockSize: nat)
    requires f.header.blkSz == blockSize && ChunksOk(f.chunks, blockSize)
    ensures Framed(f)
  {
    forall i | 0 <= i < |f.chunks|
      ensures PayloadOk(f.chunks[i], blockSize)
    {
      assert ChunkOk(f.chunks[i], blockSize);
    }
  }

  lemma {:induction false} ChunkInside(chunks: seq<Chunk>, i: nat)
    requires i < |chunks|
    ensures ChunkBlocks(chunks[i]) <= TotalBlocks(chunks)
  {
    var n := |chunks| - 1;
    if i < n {
      ChunkInside(chunks[..n], i);
    }
  }

  /** Block sizes that divide the largest seek, and images of up to 2 GiB, are quiet. */
  lemma UsuallyQuiet(chunks: seq<Chunk>, blockSize: nat, totalBlks: nat)
    requires blockSize > 0 && TotalBlocks(chunks) == totalBlks
    requires Aligned(SEEK_MAX, blockSize) || Bytes(totalBlks, blockSize) <= SEEK_MAX
    ensures Quiet(chunks, blockSize)
  {
    forall i | 0 <= i < |chunks| && chunks[i].DontCare?
      ensures !RunsPast(Bytes(chunks[i].chunkSz, blockSize), blockSize)
    {
      var n := chunks[i].chunkSz;
      ChunkInside(chunks, i);
      BytesMonotone(n, totalBlks, blockSize);
      if n == 0 {
        assert Bytes(0, blockSize) == 0;
      } else {
        RunsPastExactly(n, blockSize);
        if Aligned(SEEK_MAX, blockSize) {
          SkipStepExact(n, blockSize);
        }
      }
    }
  }

  /** Main result: what the writer writes the reader accepts, totals and check sum included, unless a
      gap runs its countdown past 0; and for ascending writes the image meant comes back, with zeros in
      the gaps. */
  method WriteAndExpand(writes: seq<Write>, blockSize: nat, totalBlks: nat) returns (r: Result, refused: bool)
    requires blockSize > 0 && totalBlks < TWO32
    ensures r.Image? || r.Runaway?
    ensures Aligned(SEEK_MAX, blockSize) || Bytes(totalBlks, blockSize) <= SEEK_MAX ==> r.Image?
    ensures r.Image? ==> |r.bytes| == Bytes(totalBlks, blockSize)
    ensures r.Image? && Ascending(writes, 0, blockSize) ==>
              r.bytes == Overlay(Zeros(Bytes(totalBlks, blockSize)), writes)
    ensures Ascending(writes, 0, blockSize) ==>
              (refused <==> !Accepted(writes, |writes|, Bytes(totalBlks, blockSize)))
  {
    var f;
    f, refused := WriteImage(writes, blockSize, totalBlks);
    ExpandWritten(f, blockSize, totalBlks);
    WrittenFramed(f, blockSize);
    if Aligned(SEEK_MAX, blockSize) || Bytes(totalBlks, blockSize) <= SEEK_MAX {
      UsuallyQuiet(f.chunks, blockSize, totalBlks);
    }
    r := Simg2Img(f);
  }

  // ---------------------------------------------------------------- byte by byte

  predicate Covers(w: Write, q: nat) {
    w.off <= q < w.off + |w.data|
  }

  lemma {:induction false} OverlayOutside(image: seq<bv8>, writes: seq<Write>, q: nat)
    requires q < |image| && forall i :: 0 <= i < |writes| ==> !Covers(writes[i], q)
    ensures Overlay(image, writes)[q] == image[q]
    decreases |writes|
  {
    if writes != [] {
      assert !Covers(writes[0], q);
      OverlayOutside(Patch(image, writes[0]), writes[1..], q);
    }
  }

  lemma {:induction false} AscendingFrom(writes: seq<Write>, cur: nat, blockSize: nat, i: nat)
    requires blockSize > 0 && Ascending(writes, cur, blockSize) && i < |writes|
    ensures writes[i].off >= cur
    decreases i
  {
    if i > 0 {
      AscendingFrom(writes[1..], writes[0].End(blockSize), blockSize, i - 1);
    }
  }

  /** Every write is there in the end, unless it was refused; then what was there before is. */
  lemma {:induction false} OverlayInside(image: seq<bv8>, writes: seq<Write>, cur: nat, blockSize: nat, k: nat, q: nat)
    requires blockSize > 0 && Ascending(writes, cur, blockSize)
    requires k < |writes| && Covers(writes[k], q) && q < |image|
    ensures Overlay(image, writes)[q]
            == if writes[k].Accepted(|image|) then writes[k].data[q - writes[k].off] else image[q]
    decreases k
  {
    var next := Patch(image, writes[0]);
    RoundUpBounds(|writes[0].data|, blockSize);
    if k == 0 {
      forall i | 0 <= i < |writes[1..]|
        ensures !Covers(writes[1..][i], q)
      {
        AscendingFrom(writes[1..], writes[0].End(blockSize), blockSize, i);
      }
      OverlayOutside(next, writes[1..], q);
    } else {
      AscendingFrom(writes[1..], writes[0].End(blockSize), blockSize, k - 1);
      assert next[q] == image[q];
      OverlayInside(next, writes[1..], writes[0].End(blockSize), blockSize, k - 1, q);
    }
  }

  // ---------------------------------------------------------------- fed from the queue

  /** What is found for a queued block: its data, and whether the host maps a part of a file that starts
      where this one does. */
  datatype Part = Part(data: seq<bv8>, mapped: bool)

  /** The write that replaying a queued block makes. */
  function WriteOf(d: BackedBlocks.Db, blockSize: nat, read: BackedBlocks.Db -> Part): Write {
    Write(Bytes(d.block, blockSize), read(d).data, d.source.File?, read(d).mapped)
  }

  /** The writes that replaying queued blocks makes. */
  function WritesOf(s: seq<BackedBlocks.Db>, blockSize: nat, read: BackedBlocks.Db -> Part): (r: seq<Write>)
    ensures |r| == |s| && forall i :: 0 <= i < |s| ==> r[i] == WriteOf(s[i], blockSize, read)
  {
    if s == [] then [] else [WriteOf(s[0], blockSize, read)] + WritesOf(s[1..], blockSize, read)
  }

  lemma {:induction false} ReplayedAscending(s: seq<BackedBlocks.Db>, cur: nat, blockSize: nat,
                                             read: BackedBlocks.Db -> Part)
    requires blockSize > 0 && BackedBlocks.Ascending(s, blockSize)
    requires forall i :: 0 <= i < |s| ==> |read(s[i]).data| == s[i].len
    requires s != [] ==> cur <= s[0].block
    ensures Ascending(WritesOf(s, blockSize, read), Bytes(cur, blockSize), blockSize)
  {
    if s != [] {
      var d := s[0];
      BytesMonotone(cur, d.block, blockSize);
      AlignedBytes(d.block, blockSize);
      BytesAdd(d.block, d.Blocks(blockSize), blockSize);
      forall i, j | 0 <= i < j < |s[1..]|
        ensures s[1..][i].Before(s[1..][j], blockSize)
      {
        assert s[i + 1].Before(s[j + 1], blockSize);
      }
      if |s| > 1 {
        assert s[0].Before(s[1], blockSize);
      }
      assert WritesOf(s, blockSize, read)[1..] == WritesOf(s[1..], blockSize, read);
      ReplayedAscending(s[1..], d.block + d.Blocks(blockSize), blockSize, read);
    }
  }

  /** Main result, from the queue to the image: blocks queued in any order that do not overlap and lie
      inside the image are found at their places, except for a part of a file that ends with the image. */
  lemma QueuedBlockInImage(inserted: seq<BackedBlocks.Db>, blockSize: nat, totalBlks: nat,
                           read: BackedBlocks.Db -> Part, d: BackedBlocks.Db, p: nat)
    requires blockSize > 0 && BackedBlocks.Disjoint(inserted, blockSize)
    requires forall e :: e in inserted ==> |read(e).data| == e.len
    requires d in inserted && p < d.len && Bytes(d.block, blockSize) + d.len <= Bytes(totalBlks, blockSize)
    ensures var writes := WritesOf(BackedBlocks.Queued(inserted), blockSize, read);
            && Ascending(writes, 0, blockSize)
            && Overlay(Zeros(Bytes(totalBlks, blockSize)), writes)[Bytes(d.block, blockSize) + p]
               == if WriteOf(d, blockSize, read).Accepted(Bytes(totalBlks, blockSize)) then read(d).data[p] else 0
  {
    var s := QueuedReadable(inserted, blockSize, read, d);
    ReplayedDb(s, blockSize, totalBlks, read, d, p);
  }

  /** A queued block whose write is refused. */
  lemma RefusedInQueue(inserted: seq<BackedBlocks.Db>, blockSize: nat, read: BackedBlocks.Db -> Part,
                       d: BackedBlocks.Db, len: nat)
    requires blockSize > 0 && BackedBlocks.Disjoint(inserted, blockSize) && d in inserted
    requires forall e :: e in inserted ==> |read(e).data| == e.len
    requires !WriteOf(d, blockSize, read).Accepted(len)
    ensures var writes := WritesOf(BackedBlocks.Queued(inserted), blockSize, read);
            !Accepted(writes, |writes|, len)
  {
    var s := QueuedReadable(inserted, blockSize, read, d);
    var k := PlaceOf(s, d);
    assert WritesOf(s, blockSize, read)[k] == WriteOf(d, blockSize, read);
  }

  /** The list that is replayed: ascending, and with contents of the right length. */
  lemma QueuedReadable(inserted: seq<BackedBlocks.Db>, blockSize: nat, read: BackedBlocks.Db -> Part,
                       d: BackedBlocks.Db) returns (s: seq<BackedBlocks.Db>)
    requires blockSize > 0 && BackedBlocks.Disjoint(inserted, blockSize) && d in inserted
    requires forall e :: e in inserted ==> |read(e).data| == e.len
    ensures s == BackedBlocks.Queued(inserted) && BackedBlocks.Ascending(s, blockSize) && d in s
    ensures forall i :: 0 <= i < |s| ==> |read(s[i]).data| == s[i].len
  {
    s := BackedBlocks.Queued(inserted);
    BackedBlocks.ReplayAscending(inserted, blockSize);
    QueuedReads(inserted, s, read);
    SameMembers(inserted, s, d);
  }

  lemma QueuedReads(inserted: seq<BackedBlocks.Db>, s: seq<BackedBlocks.Db>, read: BackedBlocks.Db -> Part)
    requires multiset(s) == multiset(inserted) && forall e :: e in inserted ==> |read(e).data| == e.len
    ensures forall i :: 0 <= i < |s| ==> |read(s[i]).data| == s[i].len
  {
    forall i | 0 <= i < |s|
      ensures |read(s[i]).data| == s[i].len
    {
      SameMembers(s, inserted, s[i]);
    }
  }

  lemma SameMembers(s: seq<BackedBlocks.Db>, t: seq<BackedBlocks.Db>, d: BackedBlocks.Db)
    requires multiset(s) == multiset(t) && d in s
    ensures d in t
  {
    assert d in multiset(s);
  }

  lemma ReplayedDb(s: seq<BackedBlocks.Db>, blockSize: nat, totalBlks: nat, read: BackedBlocks.Db -> Part,
                   d: BackedBlocks.Db, p: nat)
    requires blockSize > 0 && BackedBlocks.Ascending(s, blockSize)
    requires forall i :: 0 <= i < |s| ==> |read(s[i]).data| == s[i].len
    requires d in s && p < d.len && Bytes(d.block, blockSize) + d.len <= Bytes(totalBlks, blockSize)
    ensures var writes := WritesOf(s, blockSize, read);
            && Ascending(writes, 0, blockSize)
            && Overlay(Zeros(Bytes(totalBlks, blockSize)), writes)[Bytes(d.block, blockSize) + p]
               == if WriteOf(d, blockSize, read).Accepted(Bytes(totalBlks, blockSize)) then read(d).data[p] else 0
  {
    var k := PlaceOf(s, d);
    ReplayedBlock(s, blockSize, totalBlks, read, k, d, p);
  }

  lemma PlaceOf(s: seq<BackedBlocks.Db>, d: BackedBlocks.Db) returns (k: nat)
    requires d in s
    ensures k < |s| && s[k] == d
  {
    k :| 0 <= k < |s| && s[k] == d;
  }

  lemma ReplayedBlock(s: seq<BackedBlocks.Db>, blockSize: nat, totalBlks: nat, read: BackedBlocks.Db -> Part,
                      k: nat, d: BackedBlocks.Db, p: nat)
    requires blockSize > 0 && BackedBlocks.Ascending(s, blockSize)
    requires forall i :: 0 <= i < |s| ==> |read(s[i]).data| == s[i].len
    requires k < |s| && s[k] == d && p < d.len && Bytes(d.block, blockSize) + d.len <= Bytes(totalBlks, blockSize)
    ensures var writes := WritesOf(s, blockSize, read);
            && Ascending(writes, 0, blockSize)
            && Overlay(Zeros(Bytes(totalBlks, blockSize)), writes)[Bytes(d.block, blockSize) + p]
               == if WriteOf(d, blockSize, read).Accepted(Bytes(totalBlks, blockSize)) then read(d).data[p] else 0
  {
    FromTheStart(s, blockSize, read);
    OverlayOnZeros(WritesOf(s, blockSize, read), WriteOf(d, blockSize, read), blockSize, Bytes(totalBlks, blockSize), k,
                   p);
  }

  lemma FromTheStart(s: seq<BackedBlocks.Db>, blockSize: nat, read: BackedBlocks.Db -> Part)
    requires blockSize > 0 && BackedBlocks.Ascending(s, blockSize)
    requires forall i :: 0 <= i < |s| ==> |read(s[i]).data| == s[i].len
    ensures Ascending(WritesOf(s, blockSize, read), 0, blockSize)
  {
    assert Bytes(0, blockSize) == 0;
    ReplayedAscending(s, 0, blockSize, read);
  }

  lemma OverlayOnZeros(writes: seq<Write>, w: Write, blockSize: nat, len: nat, k: nat, p: nat)
    requires blockSize > 0 && Ascending(writes, 0, blockSize)
    requires k < |writes| && writes[k] == w && p < |w.data| && w.off + p < len
    ensures Overlay(Zeros(len), writes)[w.off + p] == if w.Accepted(len) then w.data[p] else 0
  {
    OverlayInside(Zeros(len), writes, 0, blockSize, k, w.off + p);
  }

  /** An aligned run of data that ends where the image ends is refused if it comes from a file, without
      any effect, and accepted from memory, which completes the image. */
  method FileAtTheEnd(out: OutputFile, off: nat, data: seq<bv8>) returns (fromFile: bool, fromMemory: bool)
    requires out.Valid() && off >= out.curOutPtr && Aligned(off, out.blockSize) && off + |data| == out.InfoLen()
    modifies out
    ensures !fromFile && fromMemory
    ensures out.Valid() && out.curOutPtr == out.InfoLen()
    ensures out.Image() == old(out.Image()) + Zeros(off - old(out.curOutPtr)) + data
  {
    ghost var cur, image := out.curOutPtr, out.Image();
    fromFile := out.WriteData(Write(off, data, true, true));
    fromMemory := out.WriteData(Write(off, data, false, false));
    assert RoundUp(|data|, out.blockSize) == |data|;
    assert data + Zeros(0) == data;
  }
}
