/** The sparse image format: a header, and chunks that are data or stand for zeros. */
module SparseFormat {
  import opened ByteSeqs
  import opened Rounding
  import opened SparseCrc

  const TWO32: nat := 0x1_0000_0000
  const MAGIC: nat := 0xed26_ff3a
  const MAJOR_VERSION: nat := 1
  const CHUNK_HEADER_LEN: nat := 12

  /** chunkSz is in blocks of the image, totalSz in bytes of the sparse file. */
  datatype Chunk =
    | Raw(chunkSz: nat, totalSz: nat, data: seq<bv8>)
    | DontCare(chunkSz: nat, totalSz: nat)
    | OtherChunk(chunkType: nat)

  datatype Header = Header(magic: nat, major: nat, chunkHdrSz: nat, blkSz: nat, totalBlks: nat,
                           totalChunks: nat, checksum: Sum)

  datatype SparseFile = SparseFile(header: Header, chunks: seq<Chunk>)

  /** The size of some blocks. */
  function Bytes(blocks: nat, blkSz: nat): nat { blocks * blkSz }

  lemma BytesAdd(a: nat, b: nat, blkSz: nat)
    ensures Bytes(a, blkSz) + Bytes(b, blkSz) == Bytes(a + b, blkSz)
  {}

  lemma BytesMonotone(a: nat, b: nat, blkSz: nat)
    requires blkSz > 0
    ensures a <= b <==> Bytes(a, blkSz) <= Bytes(b, blkSz)
  {
    if a < b {
      BytesAdd(b - a, a, blkSz);
      assert Bytes(b - a, blkSz) >= blkSz;
    } else {
      BytesAdd(a - b, b, blkSz);
      if a > b {
        assert Bytes(a - b, blkSz) >= blkSz;
      }
    }
  }

  predicate Aligned(n: nat, blkSz: nat)
    requires blkSz > 0
  {
    n % blkSz == 0
  }

  lemma AlignedBytes(blocks: nat, blkSz: nat)
    requires blkSz > 0
    ensures Aligned(Bytes(blocks, blkSz), blkSz) && Bytes(blocks, blkSz) / blkSz == blocks
  {
    var n, e := blocks * blkSz, blocks * blkSz / blkSz;
    assert e * blkSz <= n < e * blkSz + blkSz;
    TimesMonotone(e + 1, blocks, blkSz);
    TimesMonotone(blocks + 1, e, blkSz);
  }

  lemma BytesOfAligned(n: nat, blkSz: nat)
    requires blkSz > 0 && Aligned(n, blkSz)
    ensures n == Bytes(n / blkSz, blkSz)
  {}

  /** Rounded up to whole blocks. */
  function RoundUp(n: nat, blkSz: nat): nat
    requires blkSz > 0
  {
    Bytes(DivRoundUp(n, blkSz), blkSz)
  }

  lemma {:induction false} RoundUpBounds(n: nat, blkSz: nat)
    requires blkSz > 0
    ensures n <= RoundUp(n, blkSz) < n + blkSz
    decreases n
  {
    var m := Min(n, blkSz);
    if n > 0 {
      RoundUpBounds(n - m, blkSz);
      BytesAdd(1, DivRoundUp(n - m, blkSz), blkSz);
      assert Bytes(1, blkSz) == blkSz;
      if n <= blkSz {
        assert DivRoundUp(0, blkSz) == 0;
      }
    } else {
      assert Bytes(0, blkSz) == 0;
    }
  }

  // ---------------------------------------------------------------- what a sparse file stands for

  function ChunkBytes(c: Chunk, blkSz: nat): seq<bv8> {
    match c
    case Raw(_, _, data) => data
    case DontCare(n, _) => Zeros(Bytes(n, blkSz))
    case OtherChunk(_) => []
  }

  function Expanded(chunks: seq<Chunk>, blkSz: nat): seq<bv8> {
    if chunks == [] then []
    else Expanded(chunks[..|chunks| - 1], blkSz) + ChunkBytes(chunks[|chunks| - 1], blkSz)
  }

  function ChunkBlocks(c: Chunk): nat {
    if c.OtherChunk? then 0 else c.chunkSz
  }

  function TotalBlocks(chunks: seq<Chunk>): nat {
    if chunks == [] then 0 else TotalBlocks(chunks[..|chunks| - 1]) + ChunkBlocks(chunks[|chunks| - 1])
  }

  /** The payload has the length the header says. */
  predicate PayloadOk(c: Chunk, blkSz: nat) {
    c.Raw? ==> |c.data| == Bytes(c.chunkSz, blkSz)
  }

  /** The size the reader expects, computed in 32 bits. */
  predicate SizeOk(c: Chunk, chunkHdrSz: nat, blkSz: nat) {
    match c
    case Raw(n, total, _) => total == (chunkHdrSz + Bytes(n, blkSz)) % TWO32
    case DontCare(_, total) => total == chunkHdrSz
    case OtherChunk(_) => false
  }

  lemma ExpandedAppend(chunks: seq<Chunk>, c: Chunk, blkSz: nat)
    ensures Expanded(chunks + [c], blkSz) == Expanded(chunks, blkSz) + ChunkBytes(c, blkSz)
    ensures TotalBlocks(chunks + [c]) == TotalBlocks(chunks) + ChunkBlocks(c)
  {
    assert (chunks + [c])[..|chunks|] == chunks;
  }

  lemma {:induction false} ExpandedLength(chunks: seq<Chunk>, blkSz: nat)
    requires forall i :: 0 <= i < |chunks| ==> PayloadOk(chunks[i], blkSz)
    ensures |Expanded(chunks, blkSz)| == Bytes(TotalBlocks(chunks), blkSz)
  {
    if chunks != [] {
      var n := |chunks| - 1;
      ExpandedLength(chunks[..n], blkSz);
      BytesAdd(TotalBlocks(chunks[..n]), ChunkBlocks(chunks[n]), blkSz);
      assert PayloadOk(chunks[n], blkSz);
    }
    assert Bytes(0, blkSz) == 0;
  }
}
