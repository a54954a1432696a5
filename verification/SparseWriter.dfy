/** output_file.c, writing a sparse image. */
module SparseWriter {
  import opened ByteSeqs
  import opened Rounding
  import opened SparseCrc
  import opened SparseFormat

  /** A run of data for the image; fromFile if it comes from write_data_file. */
  datatype Write = Write(off: nat, data: seq<bv8>, fromFile: bool, mapped: bool) {
    /** Where the next write may start. */
    function End(blockSize: nat): nat
      requires blockSize > 0
    {
      off + RoundUp(|data|, blockSize)
    }

    /** It lies inside the image, where the test of write_data_file leaves out the last byte, and what
        comes from a file could be mapped. */
    predicate Accepted(len: nat) {
      off + |data| <= len && (fromFile ==> off + |data| < len && mapped)
    }
  }

  /** The fields of an output file agree with the chunks behind the header. */
  ghost predicate FieldsOk(blockSize: nat, chunks: seq<Chunk>, curOutPtr: nat, chunkCnt: nat, crc32: Sum) {
    && blockSize > 0
    && curOutPtr == |Expanded(chunks, blockSize)| == Bytes(TotalBlocks(chunks), blockSize)
    && chunkCnt == |chunks| && crc32 == Crc(Sum(0), Expanded(chunks, blockSize)) && ChunksOk(chunks, blockSize)
  }

  predicate ChunksOk(chunks: seq<Chunk>, blockSize: nat) {
    forall i {:trigger ChunkOk(chunks[i], blockSize)} :: 0 <= i < |chunks| ==> ChunkOk(chunks[i], blockSize)
  }

  predicate ChunkOk(c: Chunk, blockSize: nat) {
    PayloadOk(c, blockSize) && SizeOk(c, CHUNK_HEADER_LEN, blockSize)
  }

  lemma AppendChunk(blockSize: nat, chunks: seq<Chunk>, curOutPtr: nat, chunkCnt: nat, crc32: Sum, c: Chunk)
    requires FieldsOk(blockSize, chunks, curOutPtr, chunkCnt, crc32) && ChunkOk(c, blockSize)
    ensures FieldsOk(blockSize, chunks + [c], curOutPtr + Bytes(c.chunkSz, blockSize), chunkCnt + 1,
                     Crc(crc32, ChunkBytes(c, blockSize)))
    ensures Expanded(chunks + [c], blockSize) == Expanded(chunks, blockSize) + ChunkBytes(c, blockSize)
  {
    ExpandedAppend(chunks, c, blockSize);
    BytesAdd(TotalBlocks(chunks), c.chunkSz, blockSize);
    CrcConcat(Sum(0), Expanded(chunks, blockSize), ChunkBytes(c, blockSize));
    AppendOk(chunks, c, blockSize);
  }

  lemma AppendOk(chunks: seq<Chunk>, c: Chunk, blockSize: nat)
    requires ChunksOk(chunks, blockSize) && ChunkOk(c, blockSize)
    ensures ChunksOk(chunks + [c], blockSize)
    ensures |ChunkBytes(c, blockSize)| == Bytes(c.chunkSz, blockSize)
  {}

  /** The gap before an aligned write is whole blocks, and before another one it is not. */
  lemma GapAligned(off: nat, cur: nat, blocks: nat, blockSize: nat)
    requires blockSize > 0 && cur == Bytes(blocks, blockSize) <= off
    ensures Aligned(off - cur, blockSize) <==> Aligned(off, blockSize)
  {
    if Aligned(off - cur, blockSize) {
      BytesOfAligned(off - cur, blockSize);
      BytesAdd((off - cur) / blockSize, blocks, blockSize);
      AlignedBytes((off - cur) / blockSize + blocks, blockSize);
    }
    if Aligned(off, blockSize) {
      BytesOfAligned(off, blockSize);
      BytesMonotone(blocks, off / blockSize, blockSize);
      BytesAdd(off / blockSize - blocks, blocks, blockSize);
      AlignedBytes(off / blockSize - blocks, blockSize);
    }
  }

  /** An aligned write inside the image stays inside when it is rounded up. */
  lemma RoundUpInside(off: nat, n: nat, totalBlks: nat, blockSize: nat)
    requires blockSize > 0 && Aligned(off, blockSize) && off + n <= Bytes(totalBlks, blockSize)
    ensures off + RoundUp(n, blockSize) <= Bytes(totalBlks, blockSize)
  {
    var k, m := off / blockSize, DivRoundUp(n, blockSize);
    BytesOfAligned(off, blockSize);
    RoundUpBounds(n, blockSize);
    BytesAdd(k, m, blockSize);
    BytesAdd(totalBlks, 1, blockSize);
    assert Bytes(1, blockSize) == blockSize;
    BytesMonotone(totalBlks + 1, k + m, blockSize);
    BytesMonotone(k + m, totalBlks, blockSize);
  }

  // ---------------------------------------------------------------- which chunks are written

  /** Data, rounded up to whole blocks with zeros. */
  function Padded(data: seq<bv8>, blockSize: nat): (r: seq<bv8>)
    requires blockSize > 0
    ensures |r| == RoundUp(|data|, blockSize)
  {
    RoundUpBounds(|data|, blockSize);
    data + Zeros(RoundUp(|data|, blockSize) - |data|)
  }

  function RawChunk(data: seq<bv8>, blockSize: nat): Chunk
    requires blockSize > 0
  {
    Raw(DivRoundUp(|data|, blockSize), (CHUNK_HEADER_LEN + RoundUp(|data|, blockSize)) % TWO32, Padded(data, blockSize))
  }

  lemma RawChunkIs(c: Chunk, data: seq<bv8>, blockSize: nat, zeros: nat)
    requires blockSize > 0 && RoundUp(|data|, blockSize) == |data| + zeros
    requires c == Raw(DivRoundUp(|data|, blockSize), (CHUNK_HEADER_LEN + RoundUp(|data|, blockSize)) % TWO32,
                      data + Zeros(zeros))
    ensures c == RawChunk(data, blockSize)
    ensures ChunkOk(c, blockSize) && ChunkBytes(c, blockSize) == data + Zeros(zeros)
  {}

  /** A gap is a chunk without a payload. */
  function Gap(len: nat, blockSize: nat): seq<Chunk>
    requires blockSize > 0
  {
    if len == 0 then [] else [DontCare(len / blockSize, CHUNK_HEADER_LEN)]
  }

  /** A gap, if there is one, and a chunk of data have been added. */
  ghost predicate Emitted(before: seq<Chunk>, after: seq<Chunk>, gap: nat, data: seq<bv8>, blockSize: nat)
    requires blockSize > 0
  {
    var n := |before| + |Gap(gap, blockSize)|;
    && |after| == n + 1 && after[..|before|] == before && after[|before|..n] == Gap(gap, blockSize)
    && after[n] == RawChunk(data, blockSize)
  }

  lemma EmittedIs(before: seq<Chunk>, after: seq<Chunk>, gap: nat, data: seq<bv8>, blockSize: nat)
    requires blockSize > 0 && Emitted(before, after, gap, data, blockSize)
    ensures after == before + Gap(gap, blockSize) + [RawChunk(data, blockSize)]
  {}

  /** The output has moved on from ptr to ptr', behind the data at off; what lay between is zeros. */
  ghost predicate Moved(before: seq<Chunk>, after: seq<Chunk>, ptr: nat, ptr': nat, off: nat, data: seq<bv8>,
                        blockSize: nat)
    requires blockSize > 0
  {
    && ptr <= off && ptr' == off + RoundUp(|data|, blockSize) && |data| <= RoundUp(|data|, blockSize)
    && Expanded(after, blockSize) == Expanded(before, blockSize) + Zeros(off - ptr) + Padded(data, blockSize)
    && Emitted(before, after, off - ptr, data, blockSize)
  }

  /** The payloads behind the chunk headers. */
  function Payloads(chunks: seq<Chunk>): seq<seq<bv8>> {
    if chunks == [] then []
    else
      var n := |chunks| - 1;
      Payloads(chunks[..n]) + if chunks[n].Raw? then [chunks[n].data] else []
  }

  lemma PayloadsAppend(chunks: seq<Chunk>, len: nat, data: seq<bv8>, blockSize: nat)
    requires blockSize > 0
    ensures Payloads(chunks + Gap(len, blockSize)) == Payloads(chunks)
    ensures Payloads(chunks + Gap(len, blockSize) + [RawChunk(data, blockSize)])
            == Payloads(chunks) + [Padded(data, blockSize)]
  {
    var gapped := chunks + Gap(len, blockSize);
    if len > 0 {
      assert gapped[..|chunks|] == chunks;
    } else {
      assert gapped == chunks;
    }
    assert (gapped + [RawChunk(data, blockSize)])[..|gapped|] == gapped;
  }

  /** Every gap is longer than nothing, and behind a chunk of data or at the start. */
  predicate GapsApart(chunks: seq<Chunk>) {
    forall i {:trigger chunks[i]} :: 0 <= i < |chunks| ==>
      chunks[i].Raw? || (chunks[i].DontCare? && chunks[i].chunkSz > 0 && (i > 0 ==> chunks[i - 1].Raw?))
  }

  /** So there is at most one gap more than there are chunks of data. */
  lemma {:induction false} FewChunks(chunks: seq<Chunk>)
    requires GapsApart(chunks)
    ensures |chunks| <= 2 * |Payloads(chunks)| + if EndsInData(chunks) then 0 else 1
  {
    if chunks != [] {
      var n := |chunks| - 1;
      assert forall i :: 0 <= i < n ==> chunks[..n][i] == chunks[i];
      FewChunks(chunks[..n]);
    }
  }

  predicate EndsInData(chunks: seq<Chunk>) {
    chunks != [] ==> chunks[|chunks| - 1].Raw?
  }

  lemma GapAppend(chunks: seq<Chunk>, len: nat, blockSize: nat)
    requires blockSize > 0 && GapsApart(chunks) && EndsInData(chunks) && Aligned(len, blockSize)
    ensures GapsApart(chunks + Gap(len, blockSize))
  {
    var longer := chunks + Gap(len, blockSize);
    if len > 0 {
      BytesOfAligned(len, blockSize);
      assert Bytes(0, blockSize) == 0;
      assert longer[|chunks|].chunkSz > 0;
    }
    assert longer[..|chunks|] == chunks;
    SameGaps(chunks, longer, |chunks|);
  }

  lemma SameGaps(chunks: seq<Chunk>, longer: seq<Chunk>, n: nat)
    requires n == |chunks| <= |longer| && longer[..n] == chunks && GapsApart(chunks)
    ensures forall i {:trigger longer[i]} :: 0 <= i < n ==>
              longer[i].Raw? || (longer[i].DontCare? && longer[i].chunkSz > 0 && (i > 0 ==> longer[i - 1].Raw?))
  {
    forall i | 0 <= i < n
      ensures longer[i].Raw? || (longer[i].DontCare? && longer[i].chunkSz > 0 && (i > 0 ==> longer[i - 1].Raw?))
    {
      assert longer[i] == chunks[i];
      assert i > 0 ==> longer[i - 1] == chunks[i - 1];
    }
  }

  lemma GapsAppend(chunks: seq<Chunk>, len: nat, data: seq<bv8>, blockSize: nat)
    requires blockSize > 0 && GapsApart(chunks) && EndsInData(chunks) && Aligned(len, blockSize)
    ensures var longer := chunks + Gap(len, blockSize) + [RawChunk(data, blockSize)];
            GapsApart(longer) && EndsInData(longer)
  {
    GapAppend(chunks, len, blockSize);
    var gapped := chunks + Gap(len, blockSize);
    var longer := gapped + [RawChunk(data, blockSize)];
    assert longer[..|gapped|] == gapped;
    SameGaps(gapped, longer, |gapped|);
  }

  class OutputFile {
    const blockSize: nat
    const totalBlks: nat
    var curOutPtr: nat
    var chunkCnt: nat
    var crc32: Sum
    var chunks: seq<Chunk>     // what has been written behind the header

    /** info.len. */
    function InfoLen(): nat { Bytes(totalBlks, blockSize) }

    /** The bytes of the image the chunks stand for. */
    ghost function Image(): seq<bv8>
      reads this
    {
      Expanded(chunks, blockSize)
    }

    ghost predicate Valid()
      reads this
    {
      FieldsOk(blockSize, chunks, curOutPtr, chunkCnt, crc32) && totalBlks < TWO32 && curOutPtr <= InfoLen()
    }

    /** open_output_file. */
    constructor (blockSize: nat, totalBlks: nat)
      requires blockSize > 0 && totalBlks < TWO32
      ensures Valid() && this.blockSize == blockSize && this.totalBlks == totalBlks && Image() == [] && chunks == []
    {
      this.blockSize, this.totalBlks := blockSize, totalBlks;
      curOutPtr, chunkCnt, crc32, chunks := 0, 0, Sum(0), [];
      new;
      CrcEmpty(Sum(0));
      assert Bytes(0, blockSize) == 0;
    }

    /** The loop of emit_skip_chunk over the zeros, a block at a time. */
    method CrcOfZeros(crc: Sum, len: nat) returns (r: Sum)
      requires blockSize > 0
      ensures r == Crc(crc, Zeros(len))
    {
      var skipLen: nat := len;
      r := crc;
      CrcEmpty(crc);
      assert Zeros(0) == [];
      while skipLen > 0
        invariant skipLen <= len && r == Crc(crc, Zeros(len - skipLen))
      {
        var chunk := Min(skipLen, blockSize);
        CrcConcat(crc, Zeros(len - skipLen), Zeros(chunk));
        ZerosConcat(len - skipLen, chunk);
        r := Crc32(r, Zeros(chunk));
        skipLen := skipLen - chunk;
      }
      assert len - skipLen == len;
    }

    /** emit_skip_chunk. */
    method EmitSkipChunk(skipLen: nat) returns (ok: bool)
      requires Valid() && curOutPtr + skipLen <= InfoLen()
      modifies this
      ensures Valid() && (ok <==> Aligned(skipLen, blockSize))
      ensures ok ==> curOutPtr == old(curOutPtr) + skipLen && Image() == old(Image()) + Zeros(skipLen)
      ensures chunks == old(chunks) + if ok then [DontCare(skipLen / blockSize, CHUNK_HEADER_LEN)] else []
      ensures !ok ==> Image() == old(Image()) && curOutPtr == old(curOutPtr)
    {
      if skipLen % blockSize != 0 {
        return false;
      }
      var c := DontCare(skipLen / blockSize, CHUNK_HEADER_LEN);
      BytesOfAligned(skipLen, blockSize);
      AppendChunk(blockSize, chunks, curOutPtr, chunkCnt, crc32, c);
      chunks := chunks + [c];
      curOutPtr := curOutPtr + skipLen;
      chunkCnt := chunkCnt + 1;
      crc32 := CrcOfZeros(crc32, skipLen);
      ok := true;
    }

    /** The second half of write_chunk_raw: a chunk of data, rounded up with zeros. */
    method EmitRawChunk(data: seq<bv8>)
      requires Valid() && curOutPtr + RoundUp(|data|, blockSize) <= InfoLen()
      modifies this
      ensures Valid() && RoundUp(|data|, blockSize) >= |data|
      ensures curOutPtr == old(curOutPtr) + RoundUp(|data|, blockSize)
      ensures Image() == old(Image()) + Padded(data, blockSize)
      ensures chunks == old(chunks) + [RawChunk(data, blockSize)]
    {
      var rndUpLen := RoundUp(|data|, blockSize);
      RoundUpBounds(|data|, blockSize);
      var zeroLen: nat := rndUpLen - |data|;
      var c := Raw(DivRoundUp(|data|, blockSize), (CHUNK_HEADER_LEN + rndUpLen) % TWO32, data + Zeros(zeroLen));
      RawChunkIs(c, data, blockSize, zeroLen);
      AppendChunk(blockSize, chunks, curOutPtr, chunkCnt, crc32, c);
      chunks := chunks + [c];
      crc32 := CrcOfPadded(crc32, data, zeroLen);
      curOutPtr := curOutPtr + rndUpLen;
      chunkCnt := chunkCnt + 1;
    }

    method CrcOfPadded(crc: Sum, data: seq<bv8>, zeroLen: nat) returns (r: Sum)
      ensures r == Crc(crc, data + Zeros(zeroLen))
    {
      CrcConcat(crc, data, Zeros(zeroLen));
      r := Crc32(crc, data);
      if zeroLen > 0 {
        r := Crc32(r, Zeros(zeroLen));
      } else {
        CrcEmpty(r);
        assert Zeros(0) == [];
      }
    }

    /** write_chunk_raw: what is not aligned, or lies before the output pointer, is refused. */
    method WriteChunkRaw(off: nat, data: seq<bv8>) returns (ok: bool)
      requires Valid() && off + |data| <= InfoLen()
      modifies this
      ensures Valid() && (ok <==> off >= old(curOutPtr) && Aligned(off, blockSize))
      ensures ok ==> Moved(old(chunks), chunks, old(curOutPtr), curOutPtr, off, data, blockSize)
      ensures !ok ==> chunks == old(chunks) && curOutPtr == old(curOutPtr)
    {
      if off < curOutPtr {
        return false;
      }
      GapAligned(off, curOutPtr, TotalBlocks(chunks), blockSize);
      if off > curOutPtr {
        var skipped := EmitSkipChunk(off - curOutPtr);
      } else {
        assert Image() + Zeros(0) == Image();
      }
      if off % blockSize != 0 {
        return false;
      }
      if off != curOutPtr {
        return false;
      }
      RoundUpInside(off, |data|, totalBlks, blockSize);
      EmitRawChunk(data);
      ok := true;
    }

    /** write_data_block and write_data_file. */
    method WriteData(w: Write) returns (ok: bool)
      requires Valid()
      modifies this
      ensures Valid() && (ok <==> w.Accepted(InfoLen()) && w.off >= old(curOutPtr) && Aligned(w.off, blockSize))
      ensures ok ==> Moved(old(chunks), chunks, old(curOutPtr), curOutPtr, w.off, w.data, blockSize) == true
      ensures !ok ==> chunks == old(chunks) && Image() == old(Image()) && curOutPtr == old(curOutPtr)
    {
      if w.off + |w.data| > InfoLen() || (w.fromFile && w.off + |w.data| >= InfoLen()) {
        return false;
      }
      if w.fromFile && !w.mapped {
        return false;
      }
      ok := WriteChunkRaw(w.off, w.data);
    }

    /** pad_output_file, to the length of the file system. */
    method Pad()
      requires Valid()
      modifies this
      ensures Valid() && curOutPtr == InfoLen() && Image() == old(Image()) + Zeros(InfoLen() - old(curOutPtr))
      ensures chunks == old(chunks) + Gap(InfoLen() - old(curOutPtr), blockSize)
      ensures Aligned(InfoLen() - old(curOutPtr), blockSize)
    {
      if InfoLen() > curOutPtr {
        GapAligned(InfoLen(), curOutPtr, TotalBlocks(chunks), blockSize);
        AlignedBytes(totalBlks, blockSize);
        var skipped := EmitSkipChunk(InfoLen() - curOutPtr);
      } else {
        assert Image() + Zeros(0) == Image();
      }
    }

    /** close_output_file: the finished file. */
    method Close() returns (f: SparseFile)
      requires Valid()
      ensures f == SparseFile(Header(MAGIC, MAJOR_VERSION, CHUNK_HEADER_LEN, blockSize, totalBlks, |chunks|,
                                     Crc(Sum(0), Image())), chunks)
    {
      f := SparseFile(Header(MAGIC, MAJOR_VERSION, CHUNK_HEADER_LEN, blockSize, totalBlks, chunkCnt, crc32), chunks);
    }
  }
}
