/** simg2img.c: expanding a sparse file. */
module SparseReader {
  import opened ByteSeqs
  import opened Rounding
  import opened SparseCrc
  import opened SparseFormat

  const COPY_BUF_SIZE: nat := 1024 * 1024
  const SEEK_MAX: nat := 0x8000_0000

  /** Messages with which the program exits. */
  datatype Failure = BadMagic | BadVersion | ReadError | BogusSize(chunk: nat) | UnknownType(chunk: nat)
                   | WrongTotal | WrongChecksum

  /** An image, a message, or a countdown that has run past 0 in a skipped chunk. */
  datatype Result = Image(bytes: seq<bv8>) | Fail(why: Failure) | Runaway(chunk: nat)

  // ---------------------------------------------------------------- what the program should do

  /** The first n bytes, with zeros if there are not that many. */
  function Resize(s: seq<bv8>, n: nat): seq<bv8> {
    if n <= |s| then s[..n] else s + Zeros(n - |s|)
  }

  /** The steps in which process_skip_chunk computes the check sum: the last seek, at most a block. */
  function SkipStep(len: nat, blkSz: nat): nat
    requires len > 0
  {
    Min((len - 1) % SEEK_MAX + 1, blkSz)
  }

  /** Counting len down in these steps does not meet 0. */
  predicate RunsPast(len: nat, blkSz: nat) {
    len > 0 && blkSz > 0 && !Aligned(len, SkipStep(len, blkSz))
  }

  /** The stream behind the header, cut into chunks: every payload is as long as its chunk header says,
      except that the file may end within the last one. */
  ghost predicate Framed(f: SparseFile) {
    forall i {:trigger f.chunks[i]} :: 0 <= i < |f.chunks| ==>
      var c := f.chunks[i];
      SizeOk(c, f.header.chunkHdrSz, f.header.blkSz) ==>
        PayloadOk(c, f.header.blkSz)
        || (i == |f.chunks| - 1 && c.Raw? && |c.data| < Bytes(c.chunkSz, f.header.blkSz))
  }

  datatype Verdict = Go | Stop(r: Result)

  /** Whether the program gets past chunk i. */
  function VerdictOn(f: SparseFile, i: nat): Verdict {
    if i >= |f.chunks| then Stop(Fail(ReadError))
    else
      var c := f.chunks[i];
      if c.OtherChunk? then Stop(Fail(UnknownType(i)))
      else if !SizeOk(c, f.header.chunkHdrSz, f.header.blkSz) then Stop(Fail(BogusSize(i)))
      else if c.Raw? && |c.data| < Bytes(c.chunkSz, f.header.blkSz) then Stop(Fail(ReadError))
      else if c.DontCare? && RunsPast(Bytes(c.chunkSz, f.header.blkSz), f.header.blkSz) then Stop(Runaway(i))
      else Go
  }

  /** The first chunk from i on that the program does not get past, or the number of chunks to read. */
  function FirstBad(f: SparseFile, i: nat): (r: nat)
    requires i <= f.header.totalChunks
    ensures i <= r <= f.header.totalChunks
    ensures r < f.header.totalChunks ==> VerdictOn(f, r).Stop?
    ensures i < r ==> r <= |f.chunks|
    decreases f.header.totalChunks - i
  {
    if i == f.header.totalChunks || VerdictOn(f, i).Stop? then i else FirstBad(f, i + 1)
  }

  function Expand(f: SparseFile): Result {
    var bad := FirstBad(f, 0);
    if f.header.magic != MAGIC then Fail(BadMagic)
    else if f.header.major != MAJOR_VERSION then Fail(BadVersion)
    else if bad < f.header.totalChunks then VerdictOn(f, bad).r
    else
      var chunks := f.chunks[..f.header.totalChunks];
      var total, bytes := TotalBlocks(chunks) % TWO32, Expanded(chunks, f.header.blkSz);
      if f.header.totalBlks != total then Fail(WrongTotal)
      else if f.header.checksum != Crc(Sum(0), bytes) then Fail(WrongChecksum)
      else Image(Resize(bytes, Bytes(total, f.header.blkSz)))
  }

  // ---------------------------------------------------------------- the output file

  class OutFile {
    var bytes: seq<bv8>
    var pos: nat

    constructor ()
      ensures bytes == [] && pos == 0 && Valid() && Contents() == []
    {
      bytes, pos := [], 0;
    }

    ghost predicate Valid()
      reads this
    {
      |bytes| <= pos
    }

    /** What has been passed over reads as zeros. */
    ghost function Contents(): seq<bv8>
      reads this
      requires Valid()
    {
      bytes + Zeros(pos - |bytes|)
    }

    /** fwrite at the current position. */
    method Write(data: seq<bv8>)
      requires Valid()
      modifies this
      ensures Valid() && Contents() == old(Contents()) + data
    {
      var gap: nat := pos - |bytes|;
      bytes := bytes + Zeros(gap) + data;
      pos := pos + |data|;
      assert pos == |bytes| && Zeros(0) == [];
    }

    /** fseek from the current position. */
    method Skip(n: nat)
      requires Valid()
      modifies this
      ensures Valid() && Contents() == old(Contents()) + Zeros(n)
    {
      ZerosConcat(pos - |bytes|, n);
      pos := pos + n;
    }

    /** ftruncate. */
    method Truncate(n: nat)
      requires Valid()
      modifies this
      ensures bytes == Resize(old(Contents()), n)
    {
      if n <= |bytes| {
        bytes := bytes[..n];
      } else {
        bytes := bytes + Zeros(n - |bytes|);
      }
    }
  }

  // ---------------------------------------------------------------- the chunks

  /** process_raw_chunk; data is what is left of the file behind the chunk header, up to the next one. */
  method ProcessRawChunk(out: OutFile, blocks: nat, blkSz: nat, data: seq<bv8>, crc0: Sum)
    returns (crc: Sum, ok: bool)
    requires out.Valid()
    modifies out
    ensures out.Valid() && (ok <==> Bytes(blocks, blkSz) <= |data|)
    ensures ok ==> && out.Contents() == old(out.Contents()) + data[..Bytes(blocks, blkSz)]
                   && crc == Crc(crc0, data[..Bytes(blocks, blkSz)])
  {
    var len: nat, at: nat := Bytes(blocks, blkSz), 0;
    crc := crc0;
    CrcEmpty(crc0);
    while len > 0
      invariant at + len == Bytes(blocks, blkSz) && at <= |data| && out.Valid()
      invariant out.Contents() == old(out.Contents()) + data[..at] && crc == Crc(crc0, data[..at])
    {
      var chunk := Min(len, COPY_BUF_SIZE);
      if at + chunk > |data| {
        return crc, false;
      }
      crc := CopyPiece(out, data, at, chunk, crc, crc0, old(out.Contents()));
      len, at := len - chunk, at + chunk;
    }
    ok := true;
  }

  /** One turn of its loop. */
  method CopyPiece(out: OutFile, data: seq<bv8>, at: nat, chunk: nat, crc: Sum, ghost crc0: Sum,
                   ghost before: seq<bv8>) returns (r: Sum)
    requires at + chunk <= |data| && out.Valid()
    requires out.Contents() == before + data[..at] && crc == Crc(crc0, data[..at])
    modifies out
    ensures out.Valid() && out.Contents() == before + data[..at + chunk] && r == Crc(crc0, data[..at + chunk])
  {
    var copybuf := data[at..at + chunk];
    CrcConcat(crc0, data[..at], copybuf);
    r := Crc32(crc, copybuf);
    out.Write(copybuf);
    PieceNext(before, data, at, chunk);
  }

  lemma PieceNext(before: seq<bv8>, data: seq<bv8>, at: nat, n: nat)
    requires at + n <= |data|
    ensures data[..at] + data[at..at + n] == data[..at + n]
    ensures before + data[..at] + data[at..at + n] == before + data[..at + n]
  {}

  /** process_skip_chunk, unless the countdown for the check sum runs past 0. */
  method ProcessSkipChunk(out: OutFile, blocks: nat, blkSz: nat, crc0: Sum) returns (crc: Sum, ok: bool)
    requires out.Valid()
    modifies out
    ensures out.Valid() && out.Contents() == old(out.Contents()) + Zeros(Bytes(blocks, blkSz))
    ensures ok <==> !RunsPast(Bytes(blocks, blkSz), blkSz)
    ensures ok ==> crc == Crc(crc0, Zeros(Bytes(blocks, blkSz)))
  {
    var len := Bytes(blocks, blkSz);
    if blkSz == 0 {
      assert len == 0;
    }
    var skipChunk := SeekOver(out, len);
    crc, ok := CrcSkipped(len, blkSz, skipChunk, crc0);
  }

  /** The seeks; the length of the last one is used again. */
  method SeekOver(out: OutFile, lenSave: nat) returns (skipChunk: nat)
    requires out.Valid()
    modifies out
    ensures out.Valid() && out.Contents() == old(out.Contents()) + Zeros(lenSave)
    ensures lenSave > 0 ==> skipChunk == (lenSave - 1) % SEEK_MAX + 1
  {
    var len: nat := lenSave;
    skipChunk := 0;
    assert out.Contents() + Zeros(0) == out.Contents();
    while len > 0
      invariant len <= lenSave && out.Valid()
      invariant out.Contents() == old(out.Contents()) + Zeros(lenSave - len)
      invariant len > 0 ==> (len - 1) % SEEK_MAX == (lenSave - 1) % SEEK_MAX
      invariant len == 0 && lenSave > 0 ==> skipChunk == (lenSave - 1) % SEEK_MAX + 1
    {
      skipChunk := Min(len, SEEK_MAX);
      ZerosConcat(lenSave - len, skipChunk);
      out.Skip(skipChunk);
      len := len - skipChunk;
    }
  }

  /** The countdown for the check sum. The counter is unsigned: a step that is longer than what is left
      would make it wrap round, and here it stops. */
  method CrcSkipped(lenSave: nat, blkSz: nat, skipChunk0: nat, crc0: Sum) returns (crc: Sum, ok: bool)
    requires lenSave > 0 ==> skipChunk0 == (lenSave - 1) % SEEK_MAX + 1 && blkSz > 0
    ensures ok <==> !RunsPast(lenSave, blkSz)
    ensures ok ==> crc == Crc(crc0, Zeros(lenSave))
  {
    crc := crc0;
    CrcEmpty(crc0);
    assert Zeros(0) == [];
    if lenSave == 0 {
      return crc, true;
    }
    ghost var step: nat := SkipStep(lenSave, blkSz);
    ghost var runs := RunsPast(lenSave, blkSz);
    var len: nat, skipChunk: nat := lenSave, skipChunk0;
    while len > 0
      invariant len <= lenSave && crc == Crc(crc0, Zeros(lenSave - len))
      invariant step == Min(skipChunk, blkSz) > 0
      invariant Aligned(len, step) <==> !runs
    {
      skipChunk := Min(skipChunk, blkSz);
      StepDown(len, skipChunk);
      if skipChunk > len {
        return crc, false;
      }
      crc := MoreZeros(crc0, crc, lenSave - len, skipChunk);
      len := len - skipChunk;
    }
    assert Aligned(0, step);
    ok := true;
  }

  method MoreZeros(ghost crc0: Sum, crc: Sum, ghost done: nat, n: nat) returns (r: Sum)
    requires crc == Crc(crc0, Zeros(done))
    ensures r == Crc(crc0, Zeros(done + n))
  {
    CrcConcat(crc0, Zeros(done), Zeros(n));
    ZerosConcat(done, n);
    r := Crc32(crc, Zeros(n));
  }

  /** A step keeps whether the step divides what is left; with less than a step left it does not. */
  lemma StepDown(len: nat, step: nat)
    requires len > 0 && step > 0
    ensures Aligned(len, step) ==> step <= len
    ensures step <= len ==> (Aligned(len - step, step) <==> Aligned(len, step))
  {
    assert Bytes(1, step) == step;
    if Aligned(len, step) {
      BytesOfAligned(len, step);
      var k := len / step;
      assert k > 0;
      BytesAdd(k - 1, 1, step);
      AlignedBytes(k - 1, step);
    }
    if step <= len && Aligned(len - step, step) {
      BytesOfAligned(len - step, step);
      var k := (len - step) / step;
      BytesAdd(k, 1, step);
      AlignedBytes(k + 1, step);
    }
  }

  /** Block sizes that divide the largest seek are always exact. */
  lemma SkipStepExact(blocks: nat, blkSz: nat)
    requires blkSz > 0 && Aligned(SEEK_MAX, blkSz) && blocks > 0
    ensures Bytes(blocks, blkSz) > 0 && SkipStep(Bytes(blocks, blkSz), blkSz) == blkSz
    ensures Aligned(Bytes(blocks, blkSz), blkSz)
  {
    AlignedBytes(blocks, blkSz);
    BytesMonotone(1, blocks, blkSz);
    assert Bytes(1, blkSz) == blkSz;
    LastSeek(Bytes(blocks, blkSz), blkSz);
  }

  lemma {:induction false} LastSeek(len: nat, blkSz: nat)
    requires blkSz > 0 && Aligned(SEEK_MAX, blkSz) && Aligned(len, blkSz) && len > 0
    ensures (len - 1) % SEEK_MAX + 1 >= blkSz
    decreases len
  {
    BytesOfAligned(len, blkSz);
    BytesOfAligned(SEEK_MAX, blkSz);
    var k, s := len / blkSz, SEEK_MAX / blkSz;
    if len > SEEK_MAX {
      BytesMonotone(k, s, blkSz);
      BytesAdd(k - s, s, blkSz);
      AlignedBytes(k - s, blkSz);
      LastSeek(len - SEEK_MAX, blkSz);
    } else {
      BytesMonotone(1, k, blkSz);
      assert Bytes(1, blkSz) == blkSz;
    }
  }

  /** Exactly which skipped chunks the countdown misses: those whose last seek is shorter than a block
      and does not divide their length. A chunk of up to 2 GiB is never among them. */
  lemma RunsPastExactly(blocks: nat, blkSz: nat)
    requires blkSz > 0 && blocks > 0
    ensures var len := Bytes(blocks, blkSz);
            && len >= blkSz
            && (RunsPast(len, blkSz) <==>
                (len - 1) % SEEK_MAX + 1 < blkSz && !Aligned(len, (len - 1) % SEEK_MAX + 1))
            && (len <= SEEK_MAX ==> !RunsPast(len, blkSz))
  {
    AlignedBytes(blocks, blkSz);
    BytesMonotone(1, blocks, blkSz);
    assert Bytes(1, blkSz) == blkSz;
  }

  /** A file of one skipped chunk for which the program does not get past the countdown. */
  lemma SkipStepMisses(checksum: Sum)
    ensures var f := SparseFile(Header(MAGIC, MAJOR_VERSION, CHUNK_HEADER_LEN, 20, 107374183, 1, checksum),
                                [DontCare(107374183, CHUNK_HEADER_LEN)]);
            Expand(f) == Runaway(0)
  {
    assert Bytes(107374183, 20) == 2147483660;
    assert !Aligned(2147483660, 12);
  }

  // ---------------------------------------------------------------- the program

  /** main. */
  method Simg2Img(f: SparseFile) returns (r: Result)
    requires Framed(f)
    ensures r == Expand(f)
  {
    if f.header.magic != MAGIC {
      return Fail(BadMagic);
    }
    if f.header.major != MAJOR_VERSION {
      return Fail(BadVersion);
    }
    var out := new OutFile();
    var verdict, totalBlocks, crc := ProcessChunks(f, out);
    if verdict.Stop? {
      return verdict.r;
    }
    ExpandDone(f, out.Contents(), totalBlocks, crc);
    out.Truncate(Bytes(totalBlocks, f.header.blkSz));
    if f.header.totalBlks != totalBlocks {
      return Fail(WrongTotal);
    }
    if f.header.checksum != crc {
      return Fail(WrongChecksum);
    }
    r := Image(out.bytes);
  }

  /** The first i chunks have been expanded into contents. */
  ghost predicate Progress(f: SparseFile, i: nat, contents: seq<bv8>, totalBlocks: nat, crc: Sum) {
    && i <= |f.chunks| && contents == Expanded(f.chunks[..i], f.header.blkSz)
    && totalBlocks == TotalBlocks(f.chunks[..i]) % TWO32 && crc == Crc(Sum(0), contents)
  }

  lemma ExpandDone(f: SparseFile, contents: seq<bv8>, totalBlocks: nat, crc: Sum)
    requires f.header.magic == MAGIC && f.header.major == MAJOR_VERSION
    requires FirstBad(f, 0) == f.header.totalChunks && Progress(f, f.header.totalChunks, contents, totalBlocks, crc)
    ensures Expand(f) == if f.header.totalBlks != totalBlocks then Fail(WrongTotal)
                         else if f.header.checksum != crc then Fail(WrongChecksum)
                         else Image(Resize(contents, Bytes(totalBlocks, f.header.blkSz)))
  {}

  lemma OneMore(f: SparseFile, i: nat, contents: seq<bv8>, totalBlocks: nat, crc: Sum)
    requires Progress(f, i, contents, totalBlocks, crc) && i < |f.chunks| && !f.chunks[i].OtherChunk?
    ensures Progress(f, i + 1, contents + ChunkBytes(f.chunks[i], f.header.blkSz),
                     (totalBlocks + f.chunks[i].chunkSz) % TWO32, Crc(crc, ChunkBytes(f.chunks[i], f.header.blkSz)))
  {
    PrefixNext(f.chunks, i, f.header.blkSz);
    CrcConcat(Sum(0), contents, ChunkBytes(f.chunks[i], f.header.blkSz));
    AddModulo(TotalBlocks(f.chunks[..i]), f.chunks[i].chunkSz);
  }

  lemma PrefixNext(chunks: seq<Chunk>, i: nat, blkSz: nat)
    requires i < |chunks|
    ensures Expanded(chunks[..i + 1], blkSz) == Expanded(chunks[..i], blkSz) + ChunkBytes(chunks[i], blkSz)
    ensures TotalBlocks(chunks[..i + 1]) == TotalBlocks(chunks[..i]) + ChunkBlocks(chunks[i])
  {
    assert chunks[..i + 1] == chunks[..i] + [chunks[i]];
    ExpandedAppend(chunks[..i], chunks[i], blkSz);
  }

  lemma AddModulo(x: nat, y: nat)
    ensures (x % TWO32 + y) % TWO32 == (x + y) % TWO32
  {}

  /** The loop over the chunks; it ends early at the first one the program does not get past. */
  method ProcessChunks(f: SparseFile, out: OutFile) returns (verdict: Verdict, totalBlocks: nat, crc: Sum)
    requires Framed(f) && out.Valid() && out.Contents() == []
    modifies out
    ensures out.Valid()
    ensures var bad := FirstBad(f, 0);
            if bad < f.header.totalChunks then verdict == VerdictOn(f, bad)
            else verdict == Go && Progress(f, bad, out.Contents(), totalBlocks, crc)
  {
    var i := 0;
    totalBlocks, crc := 0, Sum(0);
    CrcEmpty(Sum(0));
    while i < f.header.totalChunks
      invariant i <= f.header.totalChunks && out.Valid()
      invariant FirstBad(f, 0) == FirstBad(f, i)
      invariant Progress(f, i, out.Contents(), totalBlocks, crc)
    {
      OneMoreIf(f, i, out.Contents(), totalBlocks, crc);
      verdict, crc := ProcessChunk(f, i, out, crc);
      if verdict.Stop? {
        return;
      }
      totalBlocks := (totalBlocks + f.chunks[i].chunkSz) % TWO32;
      i := i + 1;
    }
    verdict := Go;
  }

  lemma OneMoreIf(f: SparseFile, i: nat, contents: seq<bv8>, totalBlocks: nat, crc: Sum)
    requires Progress(f, i, contents, totalBlocks, crc)
    ensures VerdictOn(f, i).Go? ==>
              Progress(f, i + 1, contents + ChunkBytes(f.chunks[i], f.header.blkSz),
                       (totalBlocks + f.chunks[i].chunkSz) % TWO32, Crc(crc, ChunkBytes(f.chunks[i], f.header.blkSz)))
  {
    if VerdictOn(f, i).Go? {
      OneMore(f, i, contents, totalBlocks, crc);
    }
  }

  /** Reading the header of a chunk and what it asks for. */
  method ProcessChunk(f: SparseFile, i: nat, out: OutFile, crc0: Sum) returns (verdict: Verdict, crc: Sum)
    requires Framed(f) && out.Valid()
    modifies out
    ensures out.Valid() && verdict == VerdictOn(f, i)
    ensures verdict.Go? ==> && out.Contents() == old(out.Contents()) + ChunkBytes(f.chunks[i], f.header.blkSz)
                            && crc == Crc(crc0, ChunkBytes(f.chunks[i], f.header.blkSz))
  {
    crc := crc0;
    if i >= |f.chunks| {
      return Stop(Fail(ReadError)), crc;
    }
    var ok: bool;
    match f.chunks[i]
    case Raw(blocks, totalSz, data) =>
      if totalSz != (f.header.chunkHdrSz + Bytes(blocks, f.header.blkSz)) % TWO32 {
        return Stop(Fail(BogusSize(i))), crc;
      }
      crc, ok := ProcessRawChunk(out, blocks, f.header.blkSz, data, crc0);
      verdict := if ok then Go else Stop(Fail(ReadError));
      assert ok ==> data[..Bytes(blocks, f.header.blkSz)] == data;
    case DontCare(blocks, totalSz) =>
      if totalSz != f.header.chunkHdrSz {
        return Stop(Fail(BogusSize(i))), crc;
      }
      crc, ok := ProcessSkipChunk(out, blocks, f.header.blkSz, crc0);
      verdict := if ok then Go else Stop(Runaway(i));
    case OtherChunk(_) =>
      verdict := Stop(Fail(UnknownType(i)));
  }

  // ---------------------------------------------------------------- which files are expanded

  /** What the program wants of a chunk. */
  predicate Readable(c: Chunk, h: Header) {
    match c
    case Raw(n, total, data) => total == (h.chunkHdrSz + Bytes(n, h.blkSz)) % TWO32 && Bytes(n, h.blkSz) <= |data|
    case DontCare(n, total) => total == h.chunkHdrSz && !RunsPast(Bytes(n, h.blkSz), h.blkSz)
    case OtherChunk(_) => false
  }

  /** All chunks before i are there and as the program wants them. */
  ghost predicate ReadableTo(f: SparseFile, i: nat) {
    i <= |f.chunks| && forall k {:trigger f.chunks[k]} :: 0 <= k < i ==> Readable(f.chunks[k], f.header)
  }

  lemma {:induction false} FirstBadFound(f: SparseFile, i: nat, r: nat)
    requires i <= r <= f.header.totalChunks && ReadableTo(f, i)
    ensures FirstBad(f, i) == r
            <==> ReadableTo(f, r) && (r < f.header.totalChunks ==> !ReadableTo(f, r + 1))
    decreases r - i
  {
    assert VerdictOn(f, i).Go? <==> ReadableTo(f, i + 1);
    if i < r && VerdictOn(f, i).Go? {
      FirstBadFound(f, i + 1, r);
    }
  }

  /** Main result: exactly these files are expanded to an image. */
  lemma ExpandExactly(f: SparseFile)
    ensures Expand(f).Image?
            <==> && f.header.magic == MAGIC && f.header.major == MAJOR_VERSION
                 && ReadableTo(f, f.header.totalChunks)
                 && f.header.totalBlks == TotalBlocks(f.chunks[..f.header.totalChunks]) % TWO32
                 && f.header.checksum == Crc(Sum(0), Expanded(f.chunks[..f.header.totalChunks], f.header.blkSz))
  {
    FirstBadFound(f, 0, f.header.totalChunks);
  }

  /** In a stream cut into chunks a payload the program wants is as long as announced. */
  lemma PayloadsReadable(f: SparseFile, n: nat)
    requires Framed(f) && ReadableTo(f, n)
    ensures |Expanded(f.chunks[..n], f.header.blkSz)| == Bytes(TotalBlocks(f.chunks[..n]), f.header.blkSz)
  {
    forall i | 0 <= i < n
      ensures PayloadOk(f.chunks[i], f.header.blkSz)
    {
      assert Readable(f.chunks[i], f.header);
    }
    ExpandedLength(f.chunks[..n], f.header.blkSz);
  }

  lemma ImageIs(f: SparseFile)
    requires Expand(f).Image?
    ensures ReadableTo(f, f.header.totalChunks) == true
    ensures var chunks, blkSz := f.chunks[..f.header.totalChunks], f.header.blkSz;
            && f.header.totalBlks == TotalBlocks(chunks) % TWO32
            && Expand(f).bytes == Resize(Expanded(chunks, blkSz), Bytes(f.header.totalBlks, blkSz))
  {
    ExpandExactly(f);
  }

  /** The image is what the chunks stand for, up to the announced number of blocks, a 32-bit sum. */
  lemma ExpandedImage(f: SparseFile)
    requires Framed(f) && Expand(f).Image?
    ensures var chunks, r := f.chunks[..f.header.totalChunks], Expand(f).bytes;
            && |r| == Bytes(f.header.totalBlks, f.header.blkSz) && r <= Expanded(chunks, f.header.blkSz)
            && (TotalBlocks(chunks) < TWO32 ==> r == Expanded(chunks, f.header.blkSz))
  {
    ImageIs(f);
    PayloadsReadable(f, f.header.totalChunks);
    WrappedLess(TotalBlocks(f.chunks[..f.header.totalChunks]), f.header.blkSz);
  }

  lemma WrappedLess(blocks: nat, blkSz: nat)
    ensures Bytes(blocks % TWO32, blkSz) <= Bytes(blocks, blkSz)
  {
    var high: nat := blocks - blocks % TWO32;
    BytesAdd(blocks % TWO32, high, blkSz);
  }

  /** Main result: behind a good header a chunk is named in a message exactly if it is the first one that is
      not as the program wants it; its type is looked at before its size. */
  lemma ReportedExactly(f: SparseFile, i: nat)
    requires f.header.magic == MAGIC && f.header.major == MAJOR_VERSION
    ensures Expand(f) == Fail(UnknownType(i))
            <==> i < f.header.totalChunks && i < |f.chunks| && ReadableTo(f, i) && f.chunks[i].OtherChunk?
    ensures Expand(f) == Fail(BogusSize(i))
            <==> && i < f.header.totalChunks && i < |f.chunks| && ReadableTo(f, i) && !f.chunks[i].OtherChunk?
                 && !SizeOk(f.chunks[i], f.header.chunkHdrSz, f.header.blkSz)
  {
    if i < f.header.totalChunks {
      FirstBadFound(f, 0, i);
    }
  }
}
