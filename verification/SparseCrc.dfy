/** sparse_crc32.c: the CRC-32 of the sparse image format, byte by byte with a table. */
module SparseCrc {

  /** The generator polynomial of IEEE 802.3, bit-reversed. */
  const POLYNOMIAL: bv32 := 0xedb88320

  function Bit(c: bv32): bv32 {
    if c & 1 == 1 then (c >> 1) ^ POLYNOMIAL else c >> 1
  }

  function Xor(x: bv32, y: bv32): bv32 { x ^ y }

  /** n steps of the division. */
  function Steps(n: nat, c: bv32): bv32 {
    if n == 0 then c else Steps(n - 1, Bit(c))
  }

  /** Eight bits of the division, without a table. */
  function Byte(c: bv32): bv32 { Steps(8, c) }

  function Tab(i: bv8): bv32 { Byte(i as bv32) }

  // ---------------------------------------------------------------- the check sum

  /** A check sum, or the register it is computed in. */
  datatype Sum = Sum(v: bv32)

  /** A step of the loop. */
  function Lookup(c: bv32, b: bv8): bv32 {
    Xor(Tab((Xor(c, b as bv32) & 0xff) as bv8), c >> 8)
  }

  function Next(c: Sum, b: bv8): Sum { Sum(Lookup(c.v, b)) }

  function Fold(c: Sum, buf: seq<bv8>): Sum {
    if buf == [] then c else Next(Fold(c, buf[..|buf| - 1]), buf[|buf| - 1])
  }

  function Inverted(c: Sum): Sum { Sum(c.v ^ 0xffff_ffff) }

  function Crc(c: Sum, buf: seq<bv8>): Sum {
    Inverted(Fold(Inverted(c), buf))
  }

  /** sparse_crc32. */
  method Crc32(c: Sum, buf: seq<bv8>) returns (r: Sum)
    ensures r == Crc(c, buf)
  {
    var crc := Inverted(c);
    var p := 0;
    while p < |buf|
      invariant p <= |buf| && crc == Fold(Inverted(c), buf[..p])
    {
      FoldNext(Inverted(c), buf, p);
      crc := Next(crc, buf[p]);
      p := p + 1;
    }
    assert buf[..p] == buf;
    r := Inverted(crc);
  }

  lemma FoldNext(c: Sum, buf: seq<bv8>, p: nat)
    requires p < |buf|
    ensures Fold(c, buf[..p + 1]) == Next(Fold(c, buf[..p]), buf[p])
  {
    assert buf[..p + 1][..p] == buf[..p];
  }

  lemma InvertedTwice(c: Sum)
    ensures Inverted(Inverted(c)) == c
  {}

  lemma {:induction false} FoldConcat(c: Sum, x: seq<bv8>, y: seq<bv8>)
    ensures Fold(c, x + y) == Fold(Fold(c, x), y)
  {
    if y == [] {
      assert x + y == x;
    } else {
      var n := |y| - 1;
      FoldConcat(c, x, y[..n]);
      assert (x + y)[..|x + y| - 1] == x + y[..n];
    }
  }

  /** A check sum computed piece by piece is that of the whole. */
  lemma CrcConcat(c: Sum, x: seq<bv8>, y: seq<bv8>)
    ensures Crc(Crc(c, x), y) == Crc(c, x + y)
  {
    InvertedTwice(Fold(Inverted(c), x));
    FoldConcat(Inverted(c), x, y);
  }

  lemma CrcEmpty(c: Sum)
    ensures Crc(c, []) == c
  {
    InvertedTwice(c);
  }

  // ---------------------------------------------------------------- the division, bit by bit

  /** n applications of f. */
  function Iterate<T>(f: T -> T, n: nat, c: T): T {
    if n == 0 then c else Iterate(f, n - 1, f(c))
  }

  lemma EightTimes<T>(f: T -> T, c: T)
    ensures Iterate(f, 8, c) == f(f(f(f(f(f(f(f(c))))))))
  {
    assert Iterate(f, 4, f(f(f(f(c))))) == f(f(f(f(f(f(f(f(c))))))));
  }

  lemma {:induction false} StepsIterate(n: nat, c: bv32)
    ensures Steps(n, c) == Iterate(Bit, n, c)
  {
    if n > 0 {
      StepsIterate(n - 1, Bit(c));
    }
  }

  lemma ByteUnfolds(c: bv32)
    ensures Byte(c) == Bit(Bit(Bit(Bit(Bit(Bit(Bit(Bit(c))))))))
  {
    StepsIterate(8, c);
    EightTimes(Bit, c);
  }

  function Low(x: bv32): bv32 { x & 1 }
  function Half(x: bv32): bv32 { x >> 1 }

  lemma XorParts(x: bv32, y: bv32)
    ensures (x ^ y) >> 1 == (x >> 1) ^ (y >> 1) && (x ^ y) & 1 == (x & 1) ^ (y & 1)
    ensures x & 1 == 0 || x & 1 == 1
  {}

  lemma XorRules(x: bv32, y: bv32, p: bv32)
    ensures (x ^ p) ^ (y ^ p) == x ^ y && (x ^ p) ^ y == (x ^ y) ^ p && x ^ (y ^ p) == (x ^ y) ^ p
  {}

  /** A step of the division is linear. */
  lemma BitLinear(x: bv32, y: bv32)
    ensures Bit(Xor(x, y)) == Xor(Bit(x), Bit(y))
  {
    XorParts(x, y);
    XorParts(y, x);
    XorRules(x >> 1, y >> 1, POLYNOMIAL);
  }

  /** The lowest n bits of a message are mixed in one by one, each before a step. */
  function Feed<T>(f: T -> T, xor: (T, T) -> T, low: T -> T, half: T -> T, n: nat, c: T, b: T): T {
    if n == 0 then c else Feed(f, xor, low, half, n - 1, f(xor(c, low(b))), half(b))
  }

  /** If one step does not care about the bits above the lowest, n steps do not care about those above
      the lowest n. */
  lemma {:induction false} IterateFeed<T(!new)>(f: T -> T, xor: (T, T) -> T, low: T -> T, half: T -> T,
                                                n: nat, c: T, b: T)
    requires forall u, v :: f(xor(u, v)) == xor(f(xor(u, low(v))), half(v))
    ensures Iterate(f, n, xor(c, b)) == xor(Feed(f, xor, low, half, n, c, b), Iterate(half, n, b))
  {
    if n > 0 {
      IterateFeed(f, xor, low, half, n - 1, f(xor(c, low(b))), half(b));
    }
  }

  lemma {:induction false} IterateLinear<T(!new)>(f: T -> T, xor: (T, T) -> T, n: nat, x: T, y: T)
    requires forall u, v :: f(xor(u, v)) == xor(f(u), f(v))
    ensures Iterate(f, n, xor(x, y)) == xor(Iterate(f, n, x), Iterate(f, n, y))
  {
    if n > 0 {
      IterateLinear(f, xor, n - 1, f(x), f(y));
    }
  }

  lemma AllLinear()
    ensures forall u: bv32, v: bv32 :: Bit(Xor(u, v)) == Xor(Bit(u), Bit(v))
  {
    forall u: bv32, v: bv32 {
      BitLinear(u, v);
    }
  }

  lemma ByteLinear(x: bv32, y: bv32)
    ensures Byte(Xor(x, y)) == Xor(Byte(x), Byte(y))
  {
    AllLinear();
    IterateLinear(Bit, Xor, 8, x, y);
    StepsIterate(8, Xor(x, y));
    StepsIterate(8, x);
    StepsIterate(8, y);
  }

  lemma LowHigh(b: bv32)
    ensures b == Xor(Low(b), b & 0xffff_fffe)
  {}

  lemma BitHigh(b: bv32)
    ensures Bit(b & 0xffff_fffe) == Half(b)
  {}

  lemma XorRegroup(c: bv32, l: bv32, h: bv32, cl: bv32, lh: bv32)
    requires cl == c ^ l && lh == l ^ h
    ensures c ^ lh == cl ^ h
  {}

  lemma XorAssoc(c: bv32, l: bv32, h: bv32)
    ensures Xor(c, Xor(l, h)) == Xor(Xor(c, l), h)
  {
    XorRegroup(c, l, h, Xor(c, l), Xor(l, h));
  }

  lemma StepParts(c: bv32, l: bv32, h: bv32)
    ensures Bit(Xor(c, Xor(l, h))) == Xor(Bit(Xor(c, l)), Bit(h))
  {
    XorAssoc(c, l, h);
    BitLinear(Xor(c, l), h);
  }

  lemma StepSeesLow(c: bv32, b: bv32)
    ensures Bit(Xor(c, b)) == Xor(Bit(Xor(c, Low(b))), Half(b))
  {
    StepParts(c, Low(b), b & 0xffff_fffe);
    LowHigh(b);
    BitHigh(b);
  }

  lemma AllSeeLow()
    ensures forall u: bv32, v: bv32 :: Bit(Xor(u, v)) == Xor(Bit(Xor(u, Low(v))), Half(v))
  {
    forall u: bv32, v: bv32 {
      StepSeesLow(u, v);
    }
  }

  /** The register after the eight bits of a byte, the least significant one first. */
  function FeedByte(c: bv32, b: bv8): bv32 { Feed(Bit, Xor, Low, Half, 8, c, b as bv32) }

  lemma EightHalves(b: bv32)
    ensures Iterate(Half, 8, b) == b >> 8
  {
    EightTimes(Half, b);
  }

  lemma ByteIsFeed(c: bv32, b: bv8)
    ensures Byte(Xor(c, b as bv32)) == FeedByte(c, b)
  {
    AllSeeLow();
    IterateFeed(Bit, Xor, Low, Half, 8, c, b as bv32);
    StepsIterate(8, Xor(c, b as bv32));
    EightHalves(b as bv32);
    NothingAbove(b);
    XorZero(FeedByte(c, b));
  }

  lemma NothingAbove(b: bv8)
    ensures (b as bv32) >> 8 == 0
  {}

  lemma XorZero(x: bv32)
    ensures Xor(x, 0) == x
  {}

  /** Zero bits at the lower end are shifted out. */
  lemma ByteShifts(x: bv32)
    requires x & 0xff == 0
    ensures Byte(x) == x >> 8
  {
    ByteUnfolds(x);
  }

  lemma SplitByte(z: bv32)
    ensures z == Xor(z & 0xff, z & 0xffff_ff00)
  {}

  lemma HighShifted(z: bv32)
    ensures (z & 0xffff_ff00) & 0xff == 0 && (z & 0xffff_ff00) >> 8 == z >> 8
  {}

  lemma ByteHigh(z: bv32)
    ensures Byte(z & 0xffff_ff00) == z >> 8
  {
    HighShifted(z);
    ByteShifts(z & 0xffff_ff00);
  }

  lemma ByteLowHigh(z: bv32)
    ensures Byte(z) == Xor(Byte(z & 0xff), Byte(z & 0xffff_ff00))
  {
    SplitByte(z);
    ByteLinear(z & 0xff, z & 0xffff_ff00);
  }

  lemma ByteSplit(z: bv32)
    ensures Byte(z) == Xor(Byte(z & 0xff), z >> 8)
  {
    ByteLowHigh(z);
    ByteHigh(z);
  }

  lemma AboveByte(c: bv32, b: bv8)
    ensures Xor(c, b as bv32) >> 8 == c >> 8
  {}

  lemma ByteAsIndex(z: bv32)
    ensures ((z & 0xff) as bv8) as bv32 == z & 0xff
  {}

  lemma TabOf(z: bv32)
    ensures Tab((z & 0xff) as bv8) == Byte(z & 0xff)
  {
    ByteAsIndex(z);
  }

  /** A step with the table is eight steps of the division. */
  lemma LookupIsByte(c: bv32, b: bv8)
    ensures Lookup(c, b) == Byte(Xor(c, b as bv32))
  {
    TabOf(Xor(c, b as bv32));
    ByteSplit(Xor(c, b as bv32));
    AboveByte(c, b);
  }

  lemma LookupIsFeed(c: bv32, b: bv8)
    ensures Lookup(c, b) == FeedByte(c, b)
  {
    LookupIsByte(c, b);
    ByteIsFeed(c, b);
  }

  /** The register after all bits of a message. */
  function Divide(c: Sum, buf: seq<bv8>): Sum {
    if buf == [] then c else Sum(FeedByte(Divide(c, buf[..|buf| - 1]).v, buf[|buf| - 1]))
  }

  lemma {:induction false} FoldIsDivision(c: Sum, buf: seq<bv8>)
    ensures Fold(c, buf) == Divide(c, buf)
  {
    if buf != [] {
      var n := |buf| - 1;
      FoldIsDivision(c, buf[..n]);
      LookupIsFeed(Fold(c, buf[..n]).v, buf[n]);
    }
  }

  /** Main result: the check sum computed with the table is that of the division by the polynomial, bit by
      bit. */
  lemma CrcIsDivision(c: Sum, buf: seq<bv8>)
    ensures Crc(c, buf) == Inverted(Divide(Inverted(c), buf))
  {
    FoldIsDivision(Inverted(c), buf);
  }

  // ---------------------------------------------------------------- the table, as listed

  lemma TabUnfolds(i: bv8)
    ensures Tab(i) == Bit(Bit(Bit(Bit(Bit(Bit(Bit(Bit(i as bv32))))))))
  {
    ByteUnfolds(i as bv32);
  }

  lemma TableRow0()
    ensures Tab(0) == 0x00000000 && Tab(1) == 0x77073096 && Tab(2) == 0xee0e612c && Tab(3) == 0x990951ba
    ensures Tab(4) == 0x076dc419 && Tab(5) == 0x706af48f && Tab(6) == 0xe963a535 && Tab(7) == 0x9e6495a3
    ensures Tab(8) == 0x0edb8832 && Tab(9) == 0x79dcb8a4 && Tab(10) == 0xe0d5e91e && Tab(11) == 0x97d2d988
    ensures Tab(12) == 0x09b64c2b && Tab(13) == 0x7eb17cbd && Tab(14) == 0xe7b82d07 && Tab(15) == 0x90bf1d91
    ensures Tab(16) == 0x1db71064 && Tab(17) == 0x6ab020f2 && Tab(18) == 0xf3b97148 && Tab(19) == 0x84be41de
    ensures Tab(20) == 0x1adad47d && Tab(21) == 0x6ddde4eb && Tab(22) == 0xf4d4b551 && Tab(23) == 0x83d385c7
    ensures Tab(24) == 0x136c9856 && Tab(25) == 0x646ba8c0 && Tab(26) == 0xfd62f97a && Tab(27) == 0x8a65c9ec
    ensures Tab(28) == 0x14015c4f && Tab(29) == 0x63066cd9 && Tab(30) == 0xfa0f3d63 && Tab(31) == 0x8d080df5
  {
    forall i: bv8 {
      TabUnfolds(i);
    }
  }

  lemma TableRow1()
    ensures Tab(32) == 0x3b6e20c8 && Tab(33) == 0x4c69105e && Tab(34) == 0xd56041e4 && Tab(35) == 0xa2677172
    ensures Tab(36) == 0x3c03e4d1 && Tab(37) == 0x4b04d447 && Tab(38) == 0xd20d85fd && Tab(39) == 0xa50ab56b
    ensures Tab(40) == 0x35b5a8fa && Tab(41) == 0x42b2986c && Tab(42) == 0xdbbbc9d6 && Tab(43) == 0xacbcf940
    ensures Tab(44) == 0x32d86ce3 && Tab(45) == 0x45df5c75 && Tab(46) == 0xdcd60dcf && Tab(47) == 0xabd13d59
    ensures Tab(48) == 0x26d930ac && Tab(49) == 0x51de003a && Tab(50) == 0xc8d75180 && Tab(51) == 0xbfd06116
    ensures Tab(52) == 0x21b4f4b5 && Tab(53) == 0x56b3c423 && Tab(54) == 0xcfba9599 && Tab(55) == 0xb8bda50f
    ensures Tab(56) == 0x2802b89e && Tab(57) == 0x5f058808 && Tab(58) == 0xc60cd9b2 && Tab(59) == 0xb10be924
    ensures Tab(60) == 0x2f6f7c87 && Tab(61) == 0x58684c11 && Tab(62) == 0xc1611dab && Tab(63) == 0xb6662d3d
  {
    forall i: bv8 {
      TabUnfolds(i);
    }
  }

  lemma TableRow2()
    ensures Tab(64) == 0x76dc4190 && Tab(65) == 0x01db7106 && Tab(66) == 0x98d220bc && Tab(67) == 0xefd5102a
    ensures Tab(68) == 0x71b18589 && Tab(69) == 0x06b6b51f && Tab(70) == 0x9fbfe4a5 && Tab(71) == 0xe8b8d433
    ensures Tab(72) == 0x7807c9a2 && Tab(73) == 0x0f00f934 && Tab(74) == 0x9609a88e && Tab(75) == 0xe10e9818
    ensures Tab(76) == 0x7f6a0dbb && Tab(77) == 0x086d3d2d && Tab(78) == 0x91646c97 && Tab(79) == 0xe6635c01
    ensures Tab(80) == 0x6b6b51f4 && Tab(81) == 0x1c6c6162 && Tab(82) == 0x856530d8 && Tab(83) == 0xf262004e
    ensures Tab(84) == 0x6c0695ed && Tab(85) == 0x1b01a57b && Tab(86) == 0x8208f4c1 && Tab(87) == 0xf50fc457
    ensures Tab(88) == 0x65b0d9c6 && Tab(89) == 0x12b7e950 && Tab(90) == 0x8bbeb8ea && Tab(91) == 0xfcb9887c
    ensures Tab(92) == 0x62dd1ddf && Tab(93) == 0x15da2d49 && Tab(94) == 0x8cd37cf3 && Tab(95) == 0xfbd44c65
  {
    forall i: bv8 {
      TabUnfolds(i);
    }
  }

  lemma TableRow3()
    ensures Tab(96) == 0x4db26158 && Tab(97) == 0x3ab551ce && Tab(98) == 0xa3bc0074 && Tab(99) == 0xd4bb30e2
    ensures Tab(100) == 0x4adfa541 && Tab(101) == 0x3dd895d7 && Tab(102) == 0xa4d1c46d && Tab(103) == 0xd3d6f4fb
    ensures Tab(104) == 0x4369e96a && Tab(105) == 0x346ed9fc && Tab(106) == 0xad678846 && Tab(107) == 0xda60b8d0
    ensures Tab(108) == 0x44042d73 && Tab(109) == 0x33031de5 && Tab(110) == 0xaa0a4c5f && Tab(111) == 0xdd0d7cc9
    ensures Tab(112) == 0x5005713c && Tab(113) == 0x270241aa && Tab(114) == 0xbe0b1010 && Tab(115) == 0xc90c2086
    ensures Tab(116) == 0x5768b525 && Tab(117) == 0x206f85b3 && Tab(118) == 0xb966d409 && Tab(119) == 0xce61e49f
    ensures Tab(120) == 0x5edef90e && Tab(121) == 0x29d9c998 && Tab(122) == 0xb0d09822 && Tab(123) == 0xc7d7a8b4
    ensures Tab(124) == 0x59b33d17 && Tab(125) == 0x2eb40d81 && Tab(126) == 0xb7bd5c3b && Tab(127) == 0xc0ba6cad
  {
    forall i: bv8 {
      TabUnfolds(i);
    }
  }

  lemma TableRow4()
    ensures Tab(128) == 0xedb88320 && Tab(129) == 0x9abfb3b6 && Tab(130) == 0x03b6e20c && Tab(131) == 0x74b1d29a
    ensures Tab(132) == 0xead54739 && Tab(133) == 0x9dd277af && Tab(134) == 0x04db2615 && Tab(135) == 0x73dc1683
    ensures Tab(136) == 0xe3630b12 && Tab(137) == 0x94643b84 && Tab(138) == 0x0d6d6a3e && Tab(139) == 0x7a6a5aa8
    ensures Tab(140) == 0xe40ecf0b && Tab(141) == 0x9309ff9d && Tab(142) == 0x0a00ae27 && Tab(143) == 0x7d079eb1
    ensures Tab(144) == 0xf00f9344 && Tab(145) == 0x8708a3d2 && Tab(146) == 0x1e01f268 && Tab(147) == 0x6906c2fe
    ensures Tab(148) == 0xf762575d && Tab(149) == 0x806567cb && Tab(150) == 0x196c3671 && Tab(151) == 0x6e6b06e7
    ensures Tab(152) == 0xfed41b76 && Tab(153) == 0x89d32be0 && Tab(154) == 0x10da7a5a && Tab(155) == 0x67dd4acc
    ensures Tab(156) == 0xf9b9df6f && Tab(157) == 0x8ebeeff9 && Tab(158) == 0x17b7be43 && Tab(159) == 0x60b08ed5
  {
    forall i: bv8 {
      TabUnfolds(i);
    }
  }

  lemma TableRow5()
    ensures Tab(160) == 0xd6d6a3e8 && Tab(161) == 0xa1d1937e && Tab(162) == 0x38d8c2c4 && Tab(163) == 0x4fdff252
    ensures Tab(164) == 0xd1bb67f1 && Tab(165) == 0xa6bc5767 && Tab(166) == 0x3fb506dd && Tab(167) == 0x48b2364b
    ensures Tab(168) == 0xd80d2bda && Tab(169) == 0xaf0a1b4c && Tab(170) == 0x36034af6 && Tab(171) == 0x41047a60
    ensures Tab(172) == 0xdf60efc3 && Tab(173) == 0xa867df55 && Tab(174) == 0x316e8eef && Tab(175) == 0x4669be79
    ensures Tab(176) == 0xcb61b38c && Tab(177) == 0xbc66831a && Tab(178) == 0x256fd2a0 && Tab(179) == 0x5268e236
    ensures Tab(180) == 0xcc0c7795 && Tab(181) == 0xbb0b4703 && Tab(182) == 0x220216b9 && Tab(183) == 0x5505262f
    ensures Tab(184) == 0xc5ba3bbe && Tab(185) == 0xb2bd0b28 && Tab(186) == 0x2bb45a92 && Tab(187) == 0x5cb36a04
    ensures Tab(188) == 0xc2d7ffa7 && Tab(189) == 0xb5d0cf31 && Tab(190) == 0x2cd99e8b && Tab(191) == 0x5bdeae1d
  {
    forall i: bv8 {
      TabUnfolds(i);
    }
  }

  lemma TableRow6()
    ensures Tab(192) == 0x9b64c2b0 && Tab(193) == 0xec63f226 && Tab(194) == 0x756aa39c && Tab(195) == 0x026d930a
    ensures Tab(196) == 0x9c0906a9 && Tab(197) == 0xeb0e363f && Tab(198) == 0x72076785 && Tab(199) == 0x05005713
    ensures Tab(200) == 0x95bf4a82 && Tab(201) == 0xe2b87a14 && Tab(202) == 0x7bb12bae && Tab(203) == 0x0cb61b38
    ensures Tab(204) == 0x92d28e9b && Tab(205) == 0xe5d5be0d && Tab(206) == 0x7cdcefb7 && Tab(207) == 0x0bdbdf21
    ensures Tab(208) == 0x86d3d2d4 && Tab(209) == 0xf1d4e242 && Tab(210) == 0x68ddb3f8 && Tab(211) == 0x1fda836e
    ensures Tab(212) == 0x81be16cd && Tab(213) == 0xf6b9265b && Tab(214) == 0x6fb077e1 && Tab(215) == 0x18b74777
    ensures Tab(216) == 0x88085ae6 && Tab(217) == 0xff0f6a70 && Tab(218) == 0x66063bca && Tab(219) == 0x11010b5c
    ensures Tab(220) == 0x8f659eff && Tab(221) == 0xf862ae69 && Tab(222) == 0x616bffd3 && Tab(223) == 0x166ccf45
  {
    forall i: bv8 {
      TabUnfolds(i);
    }
  }

  lemma TableRow7()
    ensures Tab(224) == 0xa00ae278 && Tab(225) == 0xd70dd2ee && Tab(226) == 0x4e048354 && Tab(227) == 0x3903b3c2
    ensures Tab(228) == 0xa7672661 && Tab(229) == 0xd06016f7 && Tab(230) == 0x4969474d && Tab(231) == 0x3e6e77db
    ensures Tab(232) == 0xaed16a4a && Tab(233) == 0xd9d65adc && Tab(234) == 0x40df0b66 && Tab(235) == 0x37d83bf0
    ensures Tab(236) == 0xa9bcae53 && Tab(237) == 0xdebb9ec5 && Tab(238) == 0x47b2cf7f && Tab(239) == 0x30b5ffe9
    ensures Tab(240) == 0xbdbdf21c && Tab(241) == 0xcabac28a && Tab(242) == 0x53b39330 && Tab(243) == 0x24b4a3a6
    ensures Tab(244) == 0xbad03605 && Tab(245) == 0xcdd70693 && Tab(246) == 0x54de5729 && Tab(247) == 0x23d967bf
    ensures Tab(248) == 0xb3667a2e && Tab(249) == 0xc4614ab8 && Tab(250) == 0x5d681b02 && Tab(251) == 0x2a6f2b94
    ensures Tab(252) == 0xb40bbe37 && Tab(253) == 0xc30c8ea1 && Tab(254) == 0x5a05df1b && Tab(255) == 0x2d02ef8d
  {
    forall i: bv8 {
      TabUnfolds(i);
    }
  }
}
