/** One block group of an ext4 image: its block bitmap and counters, and the functions of allocate.c
    that change them. Blocks are numbered from the start of the group. */
module BlockGroups {
  import opened Bitmap

  predicate AllClear(bits: seq<bv8>, lo: nat, hi: nat)
    requires hi <= 8 * |bits|
  {
    forall k :: lo <= k < hi ==> !IsSet(bits, k)
  }

  /** Exactly the blocks from lo to hi have been marked in addition. */
  predicate Marked(before: seq<bv8>, after: seq<bv8>, lo: nat, hi: nat) {
    && |after| == |before|
    && forall m :: 0 <= m < 8 * |before| ==> (IsSet(after, m) <==> lo <= m < hi || IsSet(before, m))
  }

  /** They were all clear before. */
  ghost predicate Taken(before: seq<bv8>, after: seq<bv8>, lo: nat, hi: nat) {
    hi <= 8 * |before| && Marked(before, after, lo, hi) && AllClear(before, lo, hi)
  }

  lemma NotAllClear(bits: seq<bv8>, lo: nat, k: nat, k': nat, hi: nat)
    requires lo <= k < k' <= hi <= 8 * |bits| && !AllClear(bits, k, k')
    ensures !AllClear(bits, lo, hi)
  {}

  /** Exactly the blocks from lo to hi have been released. */
  predicate Released(before: seq<bv8>, after: seq<bv8>, lo: nat, hi: nat) {
    && |after| == |before|
    && forall m :: 0 <= m < 8 * |before| ==> (IsSet(after, m) <==> !(lo <= m < hi) && IsSet(before, m))
  }

  /** The clear bits among the first n are those from lo to hi. */
  predicate ClearInterval(bits: seq<bv8>, n: nat, lo: nat, hi: nat) {
    && n <= 8 * |bits| && lo <= hi <= n
    && forall k :: 0 <= k < n ==> (!IsSet(bits, k) <==> lo <= k < hi)
  }

  lemma MarkOne(before: seq<bv8>, bits: seq<bv8>, lo: nat, k: nat)
    requires lo <= k < 8 * |before| && Marked(before, bits, lo, k)
    ensures Marked(before, bits[k / 8 := bits[k / 8] | Mask(k % 8)], lo, k + 1)
    ensures IsSet(bits, k) <==> IsSet(before, k)
  {
    forall m | 0 <= m < 8 * |before| {
      SetAt(bits, k, m);
    }
  }

  lemma MarkEight(before: seq<bv8>, bits: seq<bv8>, lo: nat, k: nat)
    requires lo <= k && k + 8 <= 8 * |before| && k % 8 == 0 && Marked(before, bits, lo, k)
    ensures Marked(before, bits[k / 8 := 0xff], lo, k + 8)
    ensures bits[k / 8] == 0 <==> AllClear(before, k, k + 8)
  {
    forall m | 0 <= m < 8 * |before| {
      FillAt(bits, k, m);
    }
    ByteClear(bits, k);
  }

  lemma ReleaseOne(before: seq<bv8>, bits: seq<bv8>, k: nat, hi: nat)
    requires k < hi <= 8 * |before| && Released(before, bits, k + 1, hi)
    ensures Released(before, bits[k / 8 := bits[k / 8] & !Mask(k % 8)], k, hi)
  {
    forall m | 0 <= m < 8 * |before| {
      ClearAt(bits, k, m);
    }
  }

  /** Blocks of a group that lie past the end of the image. */
  function Overrun(first: nat, size: nat, lenBlocks: nat): nat {
    if first + size > lenBlocks then first + size - lenBlocks else 0
  }

  lemma OverrunWraps(first: nat, size: nat, lenBlocks: nat)
    requires lenBlocks + size < 0x1_0000_0000 && Overrun(first, size, lenBlocks) < size
    ensures var w := (first + size - lenBlocks) % 0x1_0000_0000;
            && (Overrun(first, size, lenBlocks) > 0 ==>
                  w == Overrun(first, size, lenBlocks) && (size - w) % 0x1_0000_0000 == size - w)
            && (Overrun(first, size, lenBlocks) == 0 ==> w == 0 || w > size)
  {
    var d := first + size - lenBlocks;
    if d < 0 {
      assert d % 0x1_0000_0000 == d + 0x1_0000_0000;
    }
  }

  lemma InitialBits(bits0: seq<bv8>, bits1: seq<bv8>, bits2: seq<bv8>, n: nat, header: nat, overrun: nat)
    requires n <= 8 * |bits0| && header + overrun < n
    requires AllClear(bits0, 0, 8 * |bits0|) && Marked(bits0, bits1, 0, header)
    requires if overrun > 0 then Marked(bits1, bits2, n - overrun, n) else bits2 == bits1
    ensures ClearInterval(bits2, n, header, n - overrun)
  {}

  lemma AllZero(bits: seq<bv8>)
    requires forall i :: 0 <= i < |bits| ==> bits[i] == 0
    ensures AllClear(bits, 0, 8 * |bits|)
  {
    forall k: nat | k < 8 * |bits|
      ensures !IsSet(bits, k)
    {
      ZeroByte(bits[k / 8]);
    }
  }

  lemma TakeFromFront(before: seq<bv8>, after: seq<bv8>, n: nat, lo: nat, mid: nat, hi: nat)
    requires ClearInterval(before, n, lo, hi) && lo <= mid <= hi && Marked(before, after, lo, mid)
    ensures ClearInterval(after, n, mid, hi)
  {}

  lemma GiveToFront(before: seq<bv8>, after: seq<bv8>, n: nat, lo: nat, mid: nat, hi: nat)
    requires ClearInterval(before, n, mid, hi) && lo <= mid && Released(before, after, lo, mid)
    ensures ClearInterval(after, n, lo, hi)
  {}

  class BlockGroup {
    const firstBlock: nat
    const headerBlocks: nat
    const size: nat                // blocks_per_group
    const overrun: nat             // blocks of it that lie past the end of the image
    const bitmap: array<bv8>
    var dataBlocksUsed: nat
    var freeBlocks: nat
    var firstFreeBlock: nat

    /** The header, everything allocated so far and the overrun are marked; the rest is one run of
        free blocks starting at firstFreeBlock. */
    ghost predicate Valid()
      reads this, bitmap
    {
      && headerBlocks <= firstFreeBlock && firstFreeBlock + freeBlocks + overrun == size
      && ClearInterval(bitmap[..], size, firstFreeBlock, firstFreeBlock + freeBlocks)
    }

    /** init_bg: mark the header and, in the last group, what lies past the end of the image. The
        overrun is computed in 32 bits, so for the other groups it wraps round to more blocks than a
        group has and reserving it is refused. */
    constructor (first: nat, blocksPerGroup: nat, blockSize: nat, lenBlocks: nat,
                 inodeTableBlocks: nat, superBlocks: nat)
      requires blocksPerGroup <= 8 * blockSize && lenBlocks + blocksPerGroup < 0x1_0000_0000
      requires 2 + inodeTableBlocks + superBlocks < blocksPerGroup
      requires first + 2 + inodeTableBlocks + superBlocks < lenBlocks
      ensures Valid() && fresh(bitmap)
      ensures firstBlock == first && size == blocksPerGroup && overrun == Overrun(first, size, lenBlocks)
      ensures headerBlocks == firstFreeBlock == 2 + inodeTableBlocks + superBlocks
      ensures dataBlocksUsed == 0
    {
      firstBlock, size, headerBlocks := first, blocksPerGroup, 2 + inodeTableBlocks + superBlocks;
      overrun := Overrun(first, blocksPerGroup, lenBlocks);
      bitmap := new bv8[blockSize](_ => 0);
      dataBlocksUsed, freeBlocks, firstFreeBlock := 0, blocksPerGroup, 0;
      new;
      ghost var bits0 := bitmap[..];
      AllZero(bits0);
      var r := ReserveBlocks(0, headerBlocks);
      ghost var bits1 := bitmap[..];
      ReserveOverrun(lenBlocks, bits0);
    }

    /** The second half of init_bg. */
    method ReserveOverrun(lenBlocks: nat, ghost bits0: seq<bv8>)
      requires size <= 8 * bitmap.Length && lenBlocks + size < 0x1_0000_0000
      requires overrun == Overrun(firstBlock, size, lenBlocks) && 0 < headerBlocks && headerBlocks + overrun < size
      requires freeBlocks == size - headerBlocks && firstFreeBlock == headerBlocks
      requires AllClear(bits0, 0, 8 * |bits0|) && Marked(bits0, bitmap[..], 0, headerBlocks)
      modifies bitmap, `freeBlocks, `firstFreeBlock
      ensures Valid() && firstFreeBlock == headerBlocks
    {
      ghost var bits1 := bitmap[..];
      var overrun32: nat := (firstBlock + size - lenBlocks) % 0x1_0000_0000;
      OverrunWraps(firstBlock, size, lenBlocks);
      if overrun32 > 0 {
        var start: nat := (size - overrun32) % 0x1_0000_0000;
        var r := ReserveBlocks(start, overrun32);
        InitialBits(bits0, bits1, bitmap[..], size, headerBlocks, overrun);
      } else {
        InitialBits(bits0, bits1, bits1, size, headerBlocks, overrun);
      }
    }

    /** reserve_blocks: refused with -1, without changing the counters, if there are not enough free
        blocks or one of them is marked already. */
    method ReserveBlocks(start: nat, num: nat) returns (r: int)
      requires num <= freeBlocks ==> start + num <= 8 * bitmap.Length
      modifies bitmap, `freeBlocks, `firstFreeBlock
      ensures r == 0 || r == -1
      ensures r == 0 <==> num <= old(freeBlocks) && AllClear(old(bitmap[..]), start, start + num)
      ensures r == 0 ==> Marked(old(bitmap[..]), bitmap[..], start, start + num)
      ensures r == 0 ==> freeBlocks == old(freeBlocks) - num
      ensures r == 0 ==> firstFreeBlock == if start == old(firstFreeBlock) then start + num else old(firstFreeBlock)
      ensures r != 0 ==> freeBlocks == old(freeBlocks) && firstFreeBlock == old(firstFreeBlock)
      ensures num > old(freeBlocks) ==> bitmap[..] == old(bitmap[..])
    {
      if num > freeBlocks {
        return -1;
      }
      var ok := MarkBits(start, num);
      if !ok {
        return -1;
      }
      freeBlocks := freeBlocks - num;
      if start == firstFreeBlock {
        firstFreeBlock := start + num;
      }
      r := 0;
    }

    /** ext4_allocate_blocks_from_block_group: the first len free blocks, as an absolute block number,
        or -1. */
    method Allocate(len: nat) returns (block: int)
      requires Valid()
      modifies bitmap, `freeBlocks, `firstFreeBlock, `dataBlocksUsed
      ensures Valid()
      ensures len <= old(freeBlocks) ==>
                && block == firstBlock + old(firstFreeBlock)
                && firstFreeBlock == old(firstFreeBlock) + len && freeBlocks == old(freeBlocks) - len
                && dataBlocksUsed == old(dataBlocksUsed) + len
      ensures len > old(freeBlocks) ==>
                && block == -1
                && firstFreeBlock == old(firstFreeBlock) && freeBlocks == old(freeBlocks)
                && dataBlocksUsed == old(dataBlocksUsed)
    {
      if freeBlocks < len {
        return -1;
      }
      var first := firstFreeBlock;
      ghost var bits := bitmap[..];
      var r := ReserveBlocks(first, len);
      TakeFromFront(bits, bitmap[..], size, first, first + len, first + len + freeBlocks);
      dataBlocksUsed := dataBlocksUsed + len;
      block := firstBlock + first;
    }

    /** free_blocks: give the last numBlocks allocated blocks back. */
    method Free(numBlocks: nat)
      requires Valid() && numBlocks <= firstFreeBlock - headerBlocks
      modifies bitmap, `freeBlocks, `firstFreeBlock
      ensures Valid()
      ensures firstFreeBlock == old(firstFreeBlock) - numBlocks && freeBlocks == old(freeBlocks) + numBlocks
    {
      ghost var bits, hi := bitmap[..], firstFreeBlock;
      var block: int, i := firstFreeBlock - 1, 0;
      while i < numBlocks
        invariant i <= numBlocks && block == hi - 1 - i
        invariant Released(bits, bitmap[..], hi - i, hi)
        invariant freeBlocks == old(freeBlocks) && firstFreeBlock == hi
      {
        ClearBit(block, hi, bits);
        i, block := i + 1, block - 1;
      }
      GiveToFront(bits, bitmap[..], size, hi - numBlocks, hi, hi + freeBlocks);
      freeBlocks := freeBlocks + numBlocks;
      firstFreeBlock := firstFreeBlock - numBlocks;
    }

    method ClearBit(block: nat, ghost hi: nat, ghost before: seq<bv8>)
      requires block < hi <= 8 * |before| && |before| == bitmap.Length && Released(before, bitmap[..], block + 1, hi)
      modifies bitmap
      ensures Released(before, bitmap[..], block, hi)
    {
      ReleaseOne(before, bitmap[..], block, hi);
      bitmap[block / 8] := bitmap[block / 8] & !Mask(block % 8);
    }

    /** The bit loops of reserve_blocks: single bits up to a byte boundary, whole bytes, single bits. */
    method MarkBits(start: nat, num: nat) returns (ok: bool)
      requires start + num <= 8 * bitmap.Length
      modifies bitmap
      ensures ok <==> AllClear(old(bitmap[..]), start, start + num)
      ensures ok ==> Marked(old(bitmap[..]), bitmap[..], start, start + num)
    {
      ghost var before := bitmap[..];
      var i, block := 0, start;
      while i < num && block % 8 != 0
        invariant i <= num && block == start + i && Taken(before, bitmap[..], start, block)
      {
        ok := MarkBit(block, start, before);
        if !ok {
          NotAllClear(before, start, block, block + 1, start + num);
          return;
        }
        i, block := i + 1, block + 1;
      }
      ok, i, block := MarkBytes(start, num, i, block, before);
      if !ok {
        return;
      }
      while i < num
        invariant i <= num && block == start + i && Taken(before, bitmap[..], start, block)
      {
        ok := MarkBit(block, start, before);
        if !ok {
          NotAllClear(before, start, block, block + 1, start + num);
          return;
        }
        i, block := i + 1, block + 1;
      }
      ok := true;
    }

    /** The loop over whole bytes. */
    method MarkBytes(start: nat, num: nat, i0: nat, block0: nat, ghost before: seq<bv8>)
      returns (ok: bool, i: nat, block: nat)
      requires |before| == bitmap.Length && start + num <= 8 * bitmap.Length
      requires i0 <= num && block0 == start + i0 && (i0 < num ==> block0 % 8 == 0)
      requires Taken(before, bitmap[..], start, block0)
      modifies bitmap
      ensures !ok ==> !AllClear(before, start, start + num)
      ensures ok ==> i <= num && block == start + i && Taken(before, bitmap[..], start, block)
    {
      i, block := i0, block0;
      while i + 8 <= num / 8 * 8
        invariant i <= num && block == start + i && Taken(before, bitmap[..], start, block)
        invariant i < num ==> block % 8 == 0
      {
        ok := MarkByte(block, start, before);
        if !ok {
          NotAllClear(before, start, block, block + 8, start + num);
          return;
        }
        i, block := i + 8, block + 8;
      }
      ok := true;
    }

    /** bitmap_set_bit. */
    method MarkBit(block: nat, ghost start: nat, ghost before: seq<bv8>) returns (ok: bool)
      requires |before| == bitmap.Length && start <= block < 8 * bitmap.Length
      requires Taken(before, bitmap[..], start, block)
      modifies bitmap
      ensures ok <==> AllClear(before, block, block + 1)
      ensures ok ==> Taken(before, bitmap[..], start, block + 1)
    {
      MarkOne(before, bitmap[..], start, block);
      if TestBit(bitmap[block / 8], block % 8) {
        assert IsSet(before, block);
        return false;
      }
      bitmap[block / 8] := bitmap[block / 8] | Mask(block % 8);
      ok := true;
    }

    /** bitmap_set_8_bits. */
    method MarkByte(block: nat, ghost start: nat, ghost before: seq<bv8>) returns (ok: bool)
      requires |before| == bitmap.Length && start <= block && block + 8 <= 8 * bitmap.Length && block % 8 == 0
      requires Taken(before, bitmap[..], start, block)
      modifies bitmap
      ensures ok <==> AllClear(before, block, block + 8)
      ensures ok ==> Taken(before, bitmap[..], start, block + 8)
    {
      MarkEight(before, bitmap[..], start, block);
      var was := bitmap[block / 8];
      bitmap[block / 8] := 0xff;
      ok := was == 0;
    }
  }
}
