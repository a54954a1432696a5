/** Block-mapped inodes of indirect.c: the number of indirect blocks computed beforehand, and the
    number the nested reservation loops take. */
module Indirect {
  import opened Rounding

  const NDIR_BLOCKS: nat := 12
  const TWO32: nat := 0x1_0000_0000

  /** The capacities of indirect blocks, as ext4_utils.c derives them from the block size. The last
      one is the square of the second, in 32 bits. */
  datatype Capacities = Capacities(perInd: nat, perDind: nat, perTind: nat)

  function CapacitiesOf(blockSize: nat): Capacities {
    var p := blockSize / 4;
    var q := p * p % TWO32;
    Capacities(p, q, q * q % TWO32)
  }

  predicate IsBlockSize(blockSize: nat) {
    blockSize in {4, 8, 16, 32, 64, 128, 256, 512, 1024, 2048, 4096}
  }

  /** DIV_ROUND_UP on 32-bit operands. */
  function DivRoundUp32(x: nat, y: nat): nat
    requires y > 0
  {
    (x + y - 1) % TWO32 / y
  }

  // ---------------------------------------------------------------- what the loops reserve

  /** Indirect and double-indirect blocks under one triple-indirect block. */
  function UnderTind(len: nat, p: nat, q: nat): nat
    requires p > 0 && q > 0
  {
    if len == 0 then 0 else 1 + DivRoundUp(Min(q, len), p) + UnderTind(len - Min(q, len), p, q)
  }

  /** Data blocks the inode cannot map. */
  function LeftOver(len: nat, c: Capacities): nat {
    var mapped := NDIR_BLOCKS + c.perInd + c.perDind + c.perTind;
    if len > mapped then len - mapped else 0
  }

  /** All blocks reserved for a file of len blocks. */
  function Reserved(len: nat, c: Capacities): nat
    requires c.perInd > 0 && c.perDind > 0
  {
    var ind := if len <= NDIR_BLOCKS then 0 else len - NDIR_BLOCKS;
    var dind := if ind <= c.perInd then 0 else ind - c.perInd;
    var tind := if dind <= c.perDind then 0 else dind - c.perDind;
    (if ind > 0 then 1 else 0)
    + (if dind > 0 then 1 + DivRoundUp(Min(c.perDind, dind), c.perInd) else 0)
    + (if tind > 0 then 1 + UnderTind(Min(c.perTind, tind), c.perInd, c.perDind) else 0)
  }

  /** The allocation that blocks are reserved from: how many it has set aside for indirect blocks, and
      how many data blocks its cursor has moved past. */
  class Reservations {
    const c: Capacities
    var reserved: nat
    var passed: nat

    constructor (c: Capacities)
      ensures this.c == c && reserved == 0 && passed == 0
    {
      this.c := c;
      reserved, passed := 0, 0;
    }

    /** reserve_indirect_block. */
    method ReserveIndirect(len: nat)
      modifies this
      ensures reserved == old(reserved) + 1 && passed == old(passed) + len
    {
      reserved := reserved + 1;
      passed := passed + len;
    }

    /** reserve_dindirect_block. */
    method ReserveDindirect(len0: nat)
      requires c.perInd > 0
      modifies this
      ensures reserved == old(reserved) + 1 + DivRoundUp(len0, c.perInd) && passed == old(passed) + len0
    {
      var len: nat := len0;
      reserved := reserved + 1;
      while len > 0
        invariant len <= len0 && passed == old(passed) + len0 - len
        invariant reserved + DivRoundUp(len, c.perInd) == old(reserved) + 1 + DivRoundUp(len0, c.perInd)
      {
        var indBlockLen := Min(c.perInd, len);
        ReserveIndirect(indBlockLen);
        len := len - indBlockLen;
      }
    }

    /** reserve_tindirect_block. */
    method ReserveTindirect(len0: nat)
      requires c.perInd > 0 && c.perDind > 0
      modifies this
      ensures reserved == old(reserved) + 1 + UnderTind(len0, c.perInd, c.perDind) && passed == old(passed) + len0
    {
      var len: nat := len0;
      reserved := reserved + 1;
      while len > 0
        invariant len <= len0 && passed == old(passed) + len0 - len
        invariant reserved + UnderTind(len, c.perInd, c.perDind)
                  == old(reserved) + 1 + UnderTind(len0, c.perInd, c.perDind)
      {
        var dindBlockLen := Min(c.perDind, len);
        ReserveDindirect(dindBlockLen);
        len := len - dindBlockLen;
      }
    }

    /** reserve_all_indirect_blocks; left is the number of blocks its closing message reports. */
    method ReserveAll(len0: nat) returns (left: nat)
      requires c.perInd > 0 && c.perDind > 0
      modifies this
      ensures reserved == old(reserved) + Reserved(len0, c)
      ensures left == LeftOver(len0, c)
      ensures len0 > NDIR_BLOCKS ==> passed == old(passed) + len0 - left
    {
      left := 0;
      var len: nat := len0;
      if len <= NDIR_BLOCKS {
        return;
      }
      len := len - NDIR_BLOCKS;
      passed := passed + NDIR_BLOCKS;
      var indBlockLen := Min(c.perInd, len);
      ReserveIndirect(indBlockLen);
      len := len - indBlockLen;
      if len == 0 {
        return;
      }
      var dindBlockLen := Min(c.perDind, len);
      ReserveDindirect(dindBlockLen);
      len := len - dindBlockLen;
      if len == 0 {
        return;
      }
      var tindBlockLen := Min(c.perTind, len);
      ReserveTindirect(tindBlockLen);
      left := len - tindBlockLen;
    }
  }

  // ---------------------------------------------------------------- the formula

  /** k full blocks of p come off the front. */
  lemma {:induction false} DivRoundUpDrop(x: nat, p: nat, k: nat)
    requires p > 0 && x >= k * p
    ensures DivRoundUp(x, p) == k + DivRoundUp(x - k * p, p)
    decreases k
  {
    if k > 0 {
      assert k * p == (k - 1) * p + p;
      DivRoundUpDrop(x, p, k - 1);
    }
  }

  lemma {:induction false} UnderTindClosed(len: nat, p: nat)
    requires p > 0
    ensures p * p > 0 && UnderTind(len, p, p * p) == DivRoundUp(len, p * p) + DivRoundUp(len, p)
    decreases len
  {
    assert p * p > 0;
    var q := p * p;
    if len > 0 {
      UnderTindClosed(len - Min(q, len), p);
      if len > q {
        DivRoundUpDrop(len, p, p);
        DivRoundUpDrop(q, p, p);
      }
    }
  }

  predicate Bounded(c: Capacities) {
    0 < c.perInd <= 1024 && c.perInd <= c.perDind <= 0x10_0000 && c.perTind <= 0x1000_0000
  }

  predicate Sane(c: Capacities) {
    Bounded(c) && c.perDind == c.perInd * c.perInd
  }

  lemma CapacitiesAt(blockSize: nat, p: nat, q: nat, t: nat)
    requires blockSize == 4 * p && q == p * p < TWO32 && t == q * q % TWO32
    ensures CapacitiesOf(blockSize) == Capacities(p, q, t)
  {}

  lemma BlockSizes(blockSize: nat)
    requires IsBlockSize(blockSize)
    ensures var c := CapacitiesOf(blockSize);
            Sane(c) && (c.perTind == 0 <==> blockSize >= 1024)
  {
    if blockSize == 4 {
      CapacitiesAt(4, 1, 1, 1);
    } else if blockSize == 8 {
      CapacitiesAt(8, 2, 4, 16);
    } else if blockSize == 16 {
      CapacitiesAt(16, 4, 16, 256);
    } else if blockSize == 32 {
      CapacitiesAt(32, 8, 64, 4096);
    } else if blockSize == 64 {
      CapacitiesAt(64, 16, 256, 65536);
    } else if blockSize == 128 {
      CapacitiesAt(128, 32, 1024, 1048576);
    } else if blockSize == 256 {
      CapacitiesAt(256, 64, 4096, 16777216);
    } else if blockSize == 512 {
      CapacitiesAt(512, 128, 16384, 268435456);
    } else if blockSize == 1024 {
      CapacitiesAt(1024, 256, 65536, 0);
    } else if blockSize == 2048 {
      CapacitiesAt(2048, 512, 262144, 0);
    } else if blockSize == 4096 {
      CapacitiesAt(4096, 1024, 1048576, 0);
    }
  }

  /** What indirect_blocks_needed comes to: a number, its critical error, or a division by zero. */
  datatype Needed = Blocks(n: nat) | TooLarge | DivisionByZero

  /** Main result: indirect_blocks_needed is the number of blocks the loops reserve, for exactly the
      lengths they leave nothing of. From a block size of 1024 on there is no triple-indirect part,
      because the capacity of a triple-indirect block wraps to 0: longer files make the formula divide
      by it. */
  method NeededFor(len: nat, blockSize: nat) returns (r: Needed)
    requires IsBlockSize(blockSize) && len < TWO32
    ensures var c := CapacitiesOf(blockSize);
            && c.perInd > 0 && c.perDind > 0
            && r == if LeftOver(len, c) == 0 then Blocks(Reserved(len, c))
                    else if blockSize >= 1024 then DivisionByZero
                    else TooLarge
  {
    BlockSizes(blockSize);
    r := IndirectBlocksNeeded(len, CapacitiesOf(blockSize));
  }

  /** A file of 65805 blocks of 1024 bytes is the first one to divide by zero. */
  method DivisionReached() returns (last: Needed, next: Needed)
    ensures last.Blocks? && next == DivisionByZero
  {
    BlockSizes(1024);
    last := NeededFor(65804, 1024);
    next := NeededFor(65805, 1024);
  }

  /** indirect_blocks_needed. */
  method IndirectBlocksNeeded(len0: nat, c: Capacities) returns (r: Needed)
    requires Sane(c) && len0 < TWO32
    ensures r == if LeftOver(len0, c) == 0 then Blocks(Reserved(len0, c))
                 else if c.perTind == 0 then DivisionByZero
                 else TooLarge
  {
    var len: nat, ind: nat := len0, 0;
    if len <= NDIR_BLOCKS {
      return Blocks(ind);
    }
    len := len - NDIR_BLOCKS;
    ind := Add32(ind, DivRoundUp32(len, c.perInd));
    if len <= c.perInd {
      FirstLevel(len, c);
      return Blocks(ind);
    }
    len := len - c.perInd;
    ind := Add32(ind, DivRoundUp32(len, c.perDind));
    if len <= c.perDind {
      SecondLevel(len, c);
      return Blocks(ind);
    }
    len := len - c.perDind;
    if c.perTind == 0 {
      return DivisionByZero;
    }
    ind := Add32(ind, DivRoundUp32(len, c.perTind));
    if len <= c.perTind {
      ThirdLevel(len, c);
      return Blocks(ind);
    }
    r := TooLarge;
  }

  function Add32(x: nat, y: nat): nat { (x + y) % TWO32 }

  lemma FirstLevel(len: nat, c: Capacities)
    requires Bounded(c) && 0 < len <= c.perInd
    ensures DivRoundUp32(len, c.perInd) == 1 == Reserved(NDIR_BLOCKS + len, c)
  {
    NoWrap(len, c.perInd);
  }

  /** len is what the indirect block does not map. */
  lemma SecondLevel(len: nat, c: Capacities)
    requires Bounded(c) && 0 < len <= c.perDind
    ensures Add32(Add32(0, DivRoundUp32(len + c.perInd, c.perInd)), DivRoundUp32(len, c.perDind))
            == Reserved(NDIR_BLOCKS + c.perInd + len, c)
  {
    SecondRounded(len, c);
    ReservedInTwo(len, c);
    AddTwo(1 + DivRoundUp(len, c.perInd), 1);
  }

  lemma ReservedInTwo(len: nat, c: Capacities)
    requires 0 < c.perInd && 0 < c.perDind && 0 < len <= c.perDind
    ensures Reserved(NDIR_BLOCKS + c.perInd + len, c) == 2 + DivRoundUp(len, c.perInd)
  {}

  lemma AddTwo(x: nat, y: nat)
    requires x + y < TWO32
    ensures Add32(Add32(0, x), y) == x + y
  {}

  lemma SecondRounded(len: nat, c: Capacities)
    requires Bounded(c) && 0 < len <= c.perDind
    ensures DivRoundUp32(len, c.perDind) == 1
    ensures DivRoundUp32(len + c.perInd, c.perInd) == 1 + DivRoundUp(len, c.perInd) <= 1 + len
  {
    NoWrap(len, c.perDind);
    NoWrap(len + c.perInd, c.perInd);
    DivRoundUpAtMost(len, c.perInd);
  }

  /** len is what the indirect and the double-indirect block do not map. */
  lemma ThirdLevel(len: nat, c: Capacities)
    requires Sane(c) && 0 < len <= c.perTind
    ensures var all := DivRoundUp32(len + c.perDind + c.perInd, c.perInd);
            var upper := DivRoundUp32(len + c.perDind, c.perDind);
            Add32(Add32(Add32(0, all), upper), DivRoundUp32(len, c.perTind))
            == Reserved(NDIR_BLOCKS + c.perInd + c.perDind + len, c)
  {
    DivRoundUpDrop(len + c.perDind, c.perInd, c.perInd);
    DivRoundUpDrop(c.perDind, c.perInd, c.perInd);
    UnderTindClosed(len, c.perInd);
    ThirdLevelSum(len, c);
  }

  lemma ThirdLevelSum(len: nat, c: Capacities)
    requires Bounded(c) && 0 < len <= c.perTind
    requires DivRoundUp(len + c.perDind, c.perInd) == c.perInd + DivRoundUp(len, c.perInd)
    requires DivRoundUp(c.perDind, c.perInd) == c.perInd
    requires UnderTind(len, c.perInd, c.perDind) == DivRoundUp(len, c.perDind) + DivRoundUp(len, c.perInd)
    ensures var all := DivRoundUp32(len + c.perDind + c.perInd, c.perInd);
            var upper := DivRoundUp32(len + c.perDind, c.perDind);
            Add32(Add32(Add32(0, all), upper), DivRoundUp32(len, c.perTind))
            == Reserved(NDIR_BLOCKS + c.perInd + c.perDind + len, c)
  {
    Rounded(len, c);
    ReservedWhenFull(len, c);
    AddThree(1 + c.perInd + DivRoundUp(len, c.perInd), 1 + DivRoundUp(len, c.perDind), 1);
  }

  lemma Rounded(len: nat, c: Capacities)
    requires Bounded(c) && 0 < len <= c.perTind
    requires DivRoundUp(len + c.perDind, c.perInd) == c.perInd + DivRoundUp(len, c.perInd)
    ensures DivRoundUp32(len, c.perTind) == 1
    ensures DivRoundUp32(len + c.perDind, c.perDind) == 1 + DivRoundUp(len, c.perDind) <= 1 + len
    ensures DivRoundUp32(len + c.perDind + c.perInd, c.perInd) == 1 + c.perInd + DivRoundUp(len, c.perInd)
    ensures DivRoundUp(len, c.perInd) <= len
  {
    DivRoundUpAtMost(len, c.perInd);
    DivRoundUpAtMost(len, c.perDind);
    NoWrap(len, c.perTind);
    NoWrap(len + c.perDind, c.perDind);
    NoWrap(len + c.perDind + c.perInd, c.perInd);
  }

  lemma ReservedWhenFull(len: nat, c: Capacities)
    requires 0 < c.perInd && 0 < c.perDind && 0 < len <= c.perTind
    ensures Reserved(NDIR_BLOCKS + c.perInd + c.perDind + len, c)
            == 3 + DivRoundUp(c.perDind, c.perInd) + UnderTind(len, c.perInd, c.perDind)
  {}

  lemma AddThree(x: nat, y: nat, z: nat)
    requires x + y + z < TWO32
    ensures Add32(Add32(Add32(0, x), y), z) == x + y + z
  {}

  lemma {:induction false} DivRoundUpAtMost(len: nat, p: nat)
    requires p > 0
    ensures DivRoundUp(len, p) <= len
    decreases len
  {
    if len > 0 {
      DivRoundUpAtMost(len - Min(len, p), p);
    }
  }

  lemma NoWrap(x: nat, y: nat)
    requires y > 0 && x + y <= TWO32
    ensures DivRoundUp32(x, y) == DivRoundUp(x, y)
  {
    assert (x + y - 1) % TWO32 == x + y - 1;
    DivRoundUpFormula(x, y);
  }
}
