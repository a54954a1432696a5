/** The layout of a new image: ext4_create_fs_aux_info of ext4_utils.c and the defaults of make_ext4fs.c,
    and what follows for the first files put on it. */
module ImageLayouts {
  import opened AllocateSpec
  import opened AllocateCount
  import opened Allocate
  import opened Extents
  import opened Rounding
  import FileImages

  // ---------------------------------------------------------------- where super blocks are kept

  function Pow(b: nat, k: nat): nat {
    if k == 0 then 1 else b * Pow(b, k - 1)
  }

  ghost predicate IsPower(a: nat, b: nat) {
    exists k: nat :: k >= 1 && a == Pow(b, k)
  }

  /** What is left of a after division by b, again and again. */
  predicate DividesDown(a: nat, b: nat)
    requires b >= 2
  {
    if a > b then a % b == 0 && DividesDown(a / b, b) else a == b
  }

  lemma DividesDownPower(a: nat, b: nat)
    requires b >= 2
    ensures DividesDown(a, b) <==> IsPower(a, b)
  {
    if DividesDown(a, b) {
      var k := PowerOfDown(a, b);
    }
    if k: nat :| k >= 1 && a == Pow(b, k) {
      DownOfPower(b, k);
    }
  }

  lemma DownStep(a: nat, b: nat)
    requires b >= 2 && a > b
    ensures DividesDown(a, b) <==> a % b == 0 && DividesDown(a / b, b)
    ensures a / b < a
  {}

  lemma {:induction false} PowerOfDown(a: nat, b: nat) returns (k: nat)
    requires b >= 2 && DividesDown(a, b)
    ensures k >= 1 && a == Pow(b, k)
  {
    if a > b {
      DownStep(a, b);
      var j := PowerOfDown(a / b, b);
      k := j + 1;
      ExactQuotient(a, b);
    } else {
      k := 1;
      assert Pow(b, 1) == b * Pow(b, 0);
    }
  }

  lemma ExactQuotient(a: nat, b: nat)
    requires b > 0 && a % b == 0
    ensures a == b * (a / b)
  {}

  lemma {:induction false} DownOfPower(b: nat, k: nat)
    requires b >= 2 && k >= 1
    ensures DividesDown(Pow(b, k), b) && Pow(b, k) >= b
  {
    assert Pow(b, 1) == b * Pow(b, 0);
    if k > 1 {
      var q := Pow(b, k - 1);
      DownOfPower(b, k - 1);
      DivMultiple(q, b);
      LargerMultiple(q, b);
    }
  }

  lemma LargerMultiple(q: nat, b: nat)
    requires q >= 1 && b >= 2
    ensures b * q >= b && (q > 1 ==> b * q > b)
  {
    TimesMonotone(1, q, b);
    TimesMonotone(2, q, b);
  }

  lemma DivMultiple(q: nat, b: nat)
    requires b > 0
    ensures (b * q) % b == 0 && b * q / b == q
  {
    var d := b * q / b;
    assert d * b <= b * q < d * b + b;
    TimesMonotone(d + 1, q, b);
    TimesMonotone(q + 1, d, b);
  }

  lemma DownEnd(a: nat, b: nat)
    requires b >= 2 && a <= b
    ensures DividesDown(a, b) <==> a == b
  {}

  /** is_power_of. */
  method IsPowerOf(a0: nat, b: nat) returns (r: bool)
    requires b >= 2
    ensures r <==> IsPower(a0, b)
  {
    ghost var down := DividesDown(a0, b);
    var a: nat := a0;
    while a > b
      invariant DividesDown(a, b) <==> down
    {
      DownStep(a, b);
      if a % b != 0 {
        DividesDownPower(a0, b);
        return false;
      }
      a := a / b;
    }
    DownEnd(a, b);
    DividesDownPower(a0, b);
    r := a == b;
  }

  /** ext4_bg_has_super_block, with the sparse_super feature that make_ext4fs always sets. */
  predicate HasSuperBlock(bg: nat) {
    bg == 0 || bg == 1 || DividesDown(bg, 3) || DividesDown(bg, 5) || DividesDown(bg, 7)
  }

  /** How many blocks the super block and the group descriptors take. */
  function SuperBlocks(groups: nat, blockSize: nat): nat
    requires blockSize > 0
  {
    var desc := DivRoundUp(groups * 32, blockSize);
    var all := DivRoundUp(groups * 1024 * 32, blockSize);
    var reserve: nat := if all >= desc then all - desc else 0;
    1 + desc + Min(reserve, blockSize / 4)
  }

  // ---------------------------------------------------------------- ext4_create_fs_aux_info

  /** The fields of info that the layout depends on; len is in bytes. */
  datatype FsInfo = FsInfo(len: nat, blockSize: nat, blocksPerGroup: nat, inodesPerGroup: nat, inodeSize: nat) {
    /** An image of at least one block behind the first data block. */
    predicate Valid() {
      blockSize > 0 && blocksPerGroup > 0 && LenBlocks() > FirstDataBlock()
    }

    function FirstDataBlock(): nat { if blockSize > 1024 then 0 else 1 }

    function LenBlocks(): nat
      requires blockSize > 0
    {
      len / blockSize
    }

    function InodeTableBlocks(): nat
      requires blockSize > 0
    {
      DivRoundUp(inodesPerGroup * inodeSize, blockSize)
    }

    /** The number of groups before the last one is looked at. */
    function Groups(): nat
      requires Valid()
    {
      DivRoundUp(LenBlocks() - FirstDataBlock(), blocksPerGroup)
    }

    function SuperOf(bg: nat): nat
      requires Valid()
    {
      if HasSuperBlock(bg) then SuperBlocks(Groups(), blockSize) else 0
    }

    /** The header of the last group. */
    function LastHeader(): nat
      requires Valid()
    {
      2 + InodeTableBlocks() + if Groups() > 0 then SuperOf(Groups() - 1) else 0
    }

    /** The test that drops the last group. */
    predicate DropsLast()
      requires Valid()
    {
      0 < LenBlocks() % blocksPerGroup < LastHeader()
    }

    /** What is left after that test; an image without a group has none to lose. */
    function GroupsLeft(): nat
      requires Valid()
    {
      if DropsLast() && Groups() > 0 then Groups() - 1 else Groups()
    }

    function BlocksLeft(): nat
      requires Valid()
    {
      if DropsLast() && Groups() > 0 then RoundDown(LenBlocks(), blocksPerGroup) else LenBlocks()
    }
  }

  function RoundDown(n: nat, g: nat): nat
    requires g > 0
  {
    n - n % g
  }

  /** The layout that is computed. */
  function LayoutOf(info: FsInfo): (l: Layout)
    requires info.Valid()
  {
    Layout(info.FirstDataBlock(), info.blocksPerGroup, info.blockSize, info.BlocksLeft(), info.InodeTableBlocks(),
           seq(info.GroupsLeft(), i requires 0 <= i => info.SuperOf(i)))
  }

  /** make_ext4fs without a journal, with the given length and block size and nothing else. */
  function Defaults(len: nat, blockSize: nat): FsInfo
    requires blockSize > 0
  {
    var blocks, perGroup := DivRoundUp(len, blockSize), blockSize * 8;
    var groups := DivRoundUp(blocks, perGroup);
    FsInfo(len, blockSize, perGroup, if groups == 0 then 0 else DivRoundUp(blocks / 4, groups), 256)
  }

  /** The number of blocks in the last group. */
  function LastSize(info: FsInfo): nat
    requires info.Valid()
  {
    (info.LenBlocks() - info.FirstDataBlock() - 1) % info.blocksPerGroup + 1
  }

  /** With block sizes above 1024 the last group is dropped if and only if its header does not fit. With
      1024 and below the test leaves out the block before the first group, and is wrong exactly for a
      last group that is full, which it drops, and for one that lacks one block for its header, which it
      keeps. */
  lemma DropsLastExactly(info: FsInfo)
    requires info.Valid() && info.LastHeader() <= info.blocksPerGroup
    ensures info.blockSize > 1024 ==> (info.DropsLast() <==> LastSize(info) < info.LastHeader())
    ensures info.blockSize <= 1024 ==>
              ((info.DropsLast() <==> LastSize(info) < info.LastHeader())
               <==> LastSize(info) != info.blocksPerGroup && LastSize(info) != info.LastHeader() - 1)
  {
    var n, g := info.LenBlocks(), info.blocksPerGroup;
    if info.blockSize > 1024 {
      NextModulo(n - 1, g);
    } else {
      NextModulo(n - 2, g);
      NextModulo(n - 1, g);
    }
  }

  /** A full last group that is dropped: the image gets one block smaller, and all other blocks of the
      group are part of the image but of no group. */
  lemma FullGroupLost(info: FsInfo)
    requires info.Valid() && info.LastHeader() <= info.blocksPerGroup
    requires info.blockSize <= 1024 && LastSize(info) == info.blocksPerGroup
    ensures info.DropsLast() && info.BlocksLeft() == info.LenBlocks() - 1
    ensures 1 + info.GroupsLeft() * info.blocksPerGroup + (info.blocksPerGroup - 1) == info.BlocksLeft()
  {
    DropsLastExactly(info);
    var q := FullLast(info.LenBlocks(), info.blocksPerGroup);
    DivRoundUpFormula(info.LenBlocks() - 1, info.blocksPerGroup);
  }

  lemma FullLast(n: nat, g: nat) returns (q: nat)
    requires n >= 2 && g >= 2 && (n - 2) % g + 1 == g
    ensures n % g == 1 && q >= 1 && (n - 1 + g - 1) / g == q
    ensures 1 + (q - 1) * g + (g - 1) == n - 1
  {
    NextModulo(n - 2, g);
    NextModulo(n - 1, g);
    q := (n - 1) / g;
    ExactQuotient(n - 1, g);
    QuotientIs(q, g - 1, g);
    OneLess(q, g);
  }

  lemma OneLess(q: nat, g: nat)
    requires q * g > 0
    ensures q >= 1 && (q - 1) * g == q * g - g
  {}

  lemma QuotientIs(q: nat, r: nat, g: nat)
    requires r < g
    ensures (q * g + r) / g == q
  {
    var n := q * g + r;
    var d := n / g;
    assert d * g <= n < d * g + g;
    TimesMonotone(d + 1, q, g);
    TimesMonotone(q + 1, d, g);
  }

  lemma NextModulo(n: nat, g: nat)
    requires g > 0
    ensures (n + 1) % g == if n % g + 1 == g then 0 else n % g + 1
  {
    var q, r := n / g, n % g;
    assert n + 1 == q * g + (r + 1);
    if r + 1 == g {
      assert n + 1 == (q + 1) * g;
      DivMultiple(q + 1, g);
    } else {
      ModuloIs(q, r + 1, g);
    }
  }

  // ---------------------------------------------------------------- two images

  lemma {:induction false} FirstOfFormula(first: nat, size: nat, i: nat)
    ensures FirstOf(first, size, i) == first + size * i
  {
    if i > 0 {
      FirstOfFormula(first, size, i - 1);
    }
  }

  /** What DIV_ROUND_UP gives. */
  lemma DivRoundUpIs(x: nat, y: nat, q: nat)
    requires y > 0 && (x + y - 1) / y == q
    ensures DivRoundUp(x, y) == q
  {
    DivRoundUpFormula(x, y);
  }

  /** 688 MiB in blocks of 1024 bytes: 86 groups of 8192 blocks, the last one a block short. */
  predicate Small(len: nat, blockSize: nat) {
    len == 688 * 1024 * 1024 && blockSize == 1024
  }

  lemma SmallDefaults(len: nat, blockSize: nat)
    requires Small(len, blockSize)
    ensures Defaults(len, blockSize) == FsInfo(len, blockSize, 8192, 2048, 256)
  {
    DivRoundUpIs(len, 1024, 704512);
    var blocks := DivRoundUp(len, blockSize);
    DivRoundUpIs(blocks, 8192, 86);
    DivRoundUpIs(blocks / 4, 86, 2048);
  }

  lemma SmallFields(info: FsInfo)
    requires Small(info.len, info.blockSize) && info == FsInfo(info.len, info.blockSize, 8192, 2048, 256)
    ensures info.Valid() && info.LenBlocks() == 704512 && info.FirstDataBlock() == 1
    ensures info.Groups() == 86 && !info.DropsLast() && info.InodeTableBlocks() == 512
    ensures SuperBlocks(info.Groups(), info.blockSize) == 260
  {
    var blocks: nat := info.LenBlocks() - 1;
    DivRoundUpIs(blocks, info.blocksPerGroup, 86);
    DivRoundUpIs(info.inodesPerGroup * info.inodeSize, info.blockSize, 512);
    var groups := info.Groups();
    DivRoundUpIs(groups * 32, info.blockSize, 3);
    DivRoundUpIs(groups * 1024 * 32, info.blockSize, 2752);
  }

  /** The groups of that image: headers of 514 blocks, or 774 where a super block is kept. */
  predicate SmallLayout(l: Layout) {
    && l.firstDataBlock == 1 && l.blocksPerGroup == 8192 && l.blockSize == 1024 && l.lenBlocks == 704512
    && l.inodeTableBlocks == 512 && |l.superBlocks| == 86
    && forall i :: 0 <= i < 86 ==> l.superBlocks[i] == if HasSuperBlock(i) then 260 else 0
  }

  lemma SmallLayoutOf(len: nat, blockSize: nat)
    requires Small(len, blockSize)
    ensures Defaults(len, blockSize).Valid() && SmallLayout(LayoutOf(Defaults(len, blockSize)))
  {
    SmallDefaults(len, blockSize);
    SmallFields(Defaults(len, blockSize));
  }

  lemma SmallLayoutValid(l: Layout)
    requires SmallLayout(l)
    ensures l.Valid() && GroupsOk(GroupsOf(l))
    ensures forall i :: 0 <= i < 86 ==> GroupsOf(l)[i].free == (if i == 85 then 8191 else 8192) - l.Header(i)
    ensures forall i :: 0 <= i < 86 ==> l.Header(i) == if HasSuperBlock(i) then 774 else 514
  {
    forall i | 0 <= i < 86
      ensures RoomFor(l.First(i), 8192, 704512, l.Header(i))
      ensures l.First(i) == 1 + 8192 * i && l.Header(i) <= 774
    {
      FirstOfFormula(1, 8192, i);
    }
    GroupsOfOk(l);
  }

  /** The groups once the resize inode has its block and the root directory its own. */
  function FirstFilesOn(l: Layout): (gs: seq<Group>)
    requires l.Valid()
    ensures GroupsOk(gs)
  {
    GroupsOfOk(l);
    Run(GroupsOf(l), [AllocateBlocks(1), AllocateLess(2)]).gs
  }

  /** All groups but the first one are untouched, and each has 7415 to 7678 free blocks. */
  ghost predicate SmallFree(gs: seq<Group>) {
    && |gs| == 86 && gs[85].used == 0 && Untouched(gs) == 85
    && forall i :: 0 <= i < 86 ==> 7415 <= gs[i].free <= 7678
  }

  lemma SmallImageFree(l: Layout)
    requires SmallLayout(l) && l.Valid()
    ensures SmallFree(FirstFilesOn(l))
  {
    SmallLayoutValid(l);
    var gs0 := GroupsOf(l);
    FirstGroupServes(gs0);
    var g := gs0[0].Take(1).Take(2).GiveBack(1);
    AllUntouched(gs0);
    UntouchedUpdate(gs0, 0, g);
  }

  /** A file that takes all that is left on such groups apart from the first one overruns. */
  lemma SmallImageOverruns(gs: seq<Group>)
    requires GroupsOk(gs) && SmallFree(gs)
    ensures UntouchedFree(gs) > 0
    ensures var n: nat := UntouchedFree(gs) - 1; OutcomeOf(AllocateFile(gs, n), n, 1024) == Overrun
  {
    FreeAtLeast(gs, 7415);
    var n: nat := UntouchedFree(gs) - 1;
    assert gs[..86] == gs;
    OverrunOnLast(gs, n, 1024);
  }

  /** Main witness: on the image that make_ext4fs makes of 688 MiB with blocks of 1024 bytes and no journal,
      a file that takes what is left apart from the first group gets 85 extents. 84 fit into its extent
      block, and the loop writes on behind it. */
  lemma OverrunReached(len: nat, blockSize: nat)
    requires Small(len, blockSize)
    ensures var info := Defaults(len, blockSize);
            && info.Valid() && LayoutOf(info).Valid()
            && var gs := FirstFilesOn(LayoutOf(info));
               && UntouchedFree(gs) > 0
               && var n: nat := UntouchedFree(gs) - 1;
                  OutcomeOf(AllocateFile(gs, n), n, blockSize) == Overrun
  {
    SmallLayoutOf(len, blockSize);
    var l := LayoutOf(Defaults(len, blockSize));
    SmallLayoutValid(l);
    SmallImageFree(l);
    SmallImageOverruns(FirstFilesOn(l));
  }

  /** The groups behind the first one on that image: 7418 free blocks in the next, 7678 in the one after. */
  ghost predicate SmallNext(gs: seq<Group>) {
    SmallFree(gs) && gs[0].used != 0 && gs[1].used == 0 && gs[2].used == 0 && gs[1].free == 7418 && gs[2].free == 7678
  }

  lemma SmallImageNext(l: Layout)
    requires SmallLayout(l) && l.Valid()
    ensures SmallNext(FirstFilesOn(l))
  {
    SmallImageFree(l);
    SmallLayoutValid(l);
    FirstGroupServes(GroupsOf(l));
    assert HasSuperBlock(1) && !HasSuperBlock(2);
  }

  lemma UpToThird(gs: seq<Group>)
    requires |gs| >= 3 && gs[0].used != 0 && gs[1].used == 0 && gs[2].used == 0
    ensures FirstUntouched(gs, 0) == 1 && Untouched(gs[..3]) == 2
    ensures UntouchedFree(gs[..2]) == gs[1].free && UntouchedFree(gs[..3]) == gs[1].free + gs[2].free
  {
    assert gs[..0] == [];
    NextPrefix(gs, 0);
    NextPrefix(gs, 1);
    NextPrefix(gs, 2);
  }

  lemma NextPrefix(gs: seq<Group>, i: nat)
    requires i < |gs|
    ensures Untouched(gs[..i + 1]) == Untouched(gs[..i]) + if gs[i].used == 0 then 1 else 0
    ensures UntouchedFree(gs[..i + 1]) == UntouchedFree(gs[..i]) + if gs[i].used == 0 then gs[i].free else 0
  {
    assert gs[..i + 1][..i] == gs[..i];
  }

  /** 10000 blocks on such groups: two regions, the second of them from file block 7417 on. */
  lemma SmallImageSplits(gs: seq<Group>, n: nat)
    requires GroupsOk(gs) && SmallNext(gs) && n == 10000
    ensures var f := AllocateFile(gs, n);
            && OutcomeOf(f, n, 1024).Done?
            && |f.rs| == 2 && ExtentsFrom(f.rs, 0)[1].eeBlock == 7417
  {
    UpToThird(gs);
    AllocateCounts(gs, 3, n + 1);
    FreeMonotone(gs, 3, |gs|);
    assert gs[..|gs|] == gs;
    SecondExtent(gs, n);
  }

  lemma SmallPageLoss(gs: seq<Group>, fileLen: nat, blockSize: nat, totalBlks: nat, pageSize: nat)
    requires GroupsOk(gs) && SmallNext(gs) && blockSize == 1024 && fileLen == 10000 * 1024 && pageSize == 4096
    ensures var r := OutcomeOf(FileImages.MakeFile(gs, fileLen, blockSize), DivRoundUp(fileLen, blockSize), blockSize);
            && r.Done? && |r.inode.extents| == 2
            && !FileImages.Shown(r.inode.extents[1], fileLen, blockSize, totalBlks, pageSize)
  {
    DivRoundUpIs(fileLen, blockSize, 10000);
    var n := DivRoundUp(fileLen, blockSize);
    SmallImageSplits(gs, n);
    MidPage(ExtentsFrom(AllocateFile(gs, n).rs, 0)[1], fileLen, blockSize, totalBlks, pageSize);
  }

  lemma MidPage(e: Extent, fileLen: nat, blockSize: nat, totalBlks: nat, pageSize: nat)
    requires e.eeBlock == 7417 && blockSize == 1024 && pageSize == 4096
    ensures !FileImages.Shown(e, fileLen, blockSize, totalBlks, pageSize)
  {}

  /** A file of 10000 KiB on the image above loses what lies in its second extent, on a host with pages of
      4096 bytes. */
  lemma PageLossReached(len: nat, blockSize: nat, fileLen: nat, pageSize: nat)
    requires Small(len, blockSize) && fileLen == 10000 * 1024 && pageSize == 4096
    ensures var info := Defaults(len, blockSize);
            && info.Valid() && LayoutOf(info).Valid()
            && var gs := FirstFilesOn(LayoutOf(info));
               var n := DivRoundUp(fileLen, blockSize);
               var r := OutcomeOf(FileImages.MakeFile(gs, fileLen, blockSize), n, blockSize);
               && r.Done? && |r.inode.extents| == 2
               && !FileImages.Shown(r.inode.extents[1], fileLen, blockSize, info.LenBlocks(), pageSize)
  {
    SmallLayoutOf(len, blockSize);
    var l := LayoutOf(Defaults(len, blockSize));
    SmallLayoutValid(l);
    SmallImageNext(l);
    SmallPageLoss(FirstFilesOn(l), fileLen, blockSize, Defaults(len, blockSize).LenBlocks(), pageSize);
  }

  /** It happens with 16 MiB and 1 KiB in blocks of 1024 bytes. */
  lemma FullGroupReached(len: nat, blockSize: nat)
    requires len == 16385 * 1024 && blockSize == 1024
    ensures var info := Defaults(len, blockSize);
            && info.Valid() && info.LastHeader() <= info.blocksPerGroup
            && LastSize(info) == info.blocksPerGroup == 8192
  {
    var info := Defaults(len, blockSize);
    DivRoundUpIs(len, 1024, 16385);
    var blocks := DivRoundUp(len, blockSize);
    DivRoundUpIs(blocks, 8192, 3);
    DivRoundUpIs(blocks / 4, 3, 1366);
    assert info == FsInfo(len, 1024, 8192, 1366, 256);
    TwoGroupHeader(info);
  }

  lemma TwoGroupHeader(info: FsInfo)
    requires info == FsInfo(info.len, 1024, 8192, 1366, 256) && info.len == 16385 * 1024
    ensures info.Valid() && info.LastHeader() <= 8192 && LastSize(info) == 8192
  {
    var blocks: nat := info.LenBlocks() - 1;
    DivRoundUpIs(blocks, info.blocksPerGroup, 2);
    DivRoundUpIs(info.inodesPerGroup * info.inodeSize, info.blockSize, 342);
    var groups := info.Groups();
    DivRoundUpIs(groups * 32, info.blockSize, 1);
    DivRoundUpIs(groups * 1024 * 32, info.blockSize, 64);
  }

  /** 8 MiB in blocks of 4096 bytes: one group of 2048 blocks. */
  predicate OneGroupImage(len: nat, blockSize: nat) {
    len == 8 * 1024 * 1024 && blockSize == 4096
  }

  lemma OneGroupDefaults(len: nat, blockSize: nat)
    requires OneGroupImage(len, blockSize)
    ensures Defaults(len, blockSize) == FsInfo(len, blockSize, 32768, 512, 256)
  {
    DivRoundUpIs(len, 4096, 2048);
    var blocks := DivRoundUp(len, blockSize);
    DivRoundUpIs(blocks, 32768, 1);
    DivRoundUpIs(blocks / 4, 1, 512);
  }

  lemma OneGroupFields(info: FsInfo)
    requires OneGroupImage(info.len, info.blockSize) && info == FsInfo(info.len, info.blockSize, 32768, 512, 256)
    ensures info.Valid() && info.LenBlocks() == 2048 && info.FirstDataBlock() == 0
    ensures info.Groups() == 1 && info.InodeTableBlocks() == 32
    ensures SuperBlocks(info.Groups(), info.blockSize) == 9 && !info.DropsLast()
  {
    var blocks: nat := info.LenBlocks();
    DivRoundUpIs(blocks, info.blocksPerGroup, 1);
    DivRoundUpIs(info.inodesPerGroup * info.inodeSize, info.blockSize, 32);
    var groups := info.Groups();
    DivRoundUpIs(groups * 32, info.blockSize, 1);
    DivRoundUpIs(groups * 1024 * 32, info.blockSize, 8);
  }

  lemma OneGroupLayout(len: nat, blockSize: nat)
    requires OneGroupImage(len, blockSize)
    ensures var info := Defaults(len, blockSize);
            && info.Valid() && LayoutOf(info).Valid() && GroupsOf(LayoutOf(info)) == [Group(0, 43, 2048, 43, 2005, 0)]
  {
    var info := Defaults(len, blockSize);
    OneGroupDefaults(len, blockSize);
    OneGroupFields(info);
    assert LayoutOf(info).superBlocks == [9];
    OneGroupOf(LayoutOf(info));
  }

  lemma OneGroupOf(l: Layout)
    requires l == Layout(0, 32768, 4096, 2048, 32, [9])
    ensures l.Valid() && GroupsOf(l) == [Group(0, 43, 2048, 43, 2005, 0)]
  {
    assert l.First(0) == 0 && l.Header(0) == 43;
    assert RoomFor(l.First(0), l.blocksPerGroup, l.lenBlocks, l.Header(0));
    assert GroupOf(l, 0) == Group(0, 43, 2048, 43, 2005, 0);
  }

  /** On that image a request for one block more than there is takes all 2005 and fails. */
  lemma FailureReached(len: nat, blockSize: nat)
    requires OneGroupImage(len, blockSize)
    ensures var info := Defaults(len, blockSize);
            && info.Valid() && LayoutOf(info).Valid()
            && var gs := GroupsOf(LayoutOf(info));
               && GroupsOk(gs) && !AllocateSpec.Allocate(gs, 2006).ok
               && TotalFree(gs) == 2005 && TotalFree(AllocateSpec.Allocate(gs, 2006).gs) == 0
  {
    OneGroupLayout(len, blockSize);
    FailureTakesBlocks(Group(0, 43, 2048, 43, 2005, 0));
  }
}
