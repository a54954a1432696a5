/**
 The packed form of a file allocation table: the decode loop of readfat with checkclnum, the
 encode loop of writefat, and their round trip. Buffers hold the sectors of one FAT.
 */
module FatCodec {
  import opened FatChains
  import opened Rounding

  type Byte = b: int | 0 <= b < 256

  datatype Kind = Fat12 | Fat16 | Fat32

  const ENTRIES12 := 0x1000
  const ENTRIES16 := 0x1_0000
  const ENTRIES32 := 0x1000_0000

  /** ClustMask + 1: the number of different packed entries. */
  function Span(kind: Kind): int {
    match kind
    case Fat12 => ENTRIES12
    case Fat16 => ENTRIES16
    case Fat32 => ENTRIES32
  }

  /** Bytes before the entry of the first cluster. */
  function HeaderLen(kind: Kind): nat {
    match kind
    case Fat12 => 3
    case Fat16 => 4
    case Fat32 => 8
  }

  /** CLUST_RSRVD & ClustMask. */
  function RsrvdMark(kind: Kind): int { CLUST_RSRVD % Span(kind) }

  /** What the boot sector check guarantees for a table of n entries. */
  predicate Addressable(kind: Kind, n: nat) { n <= RsrvdMark(kind) }

  /** NumFatEntries for a FAT of the given number of bytes. */
  function NumFatEntries(kind: Kind, bytes: nat): nat {
    match kind
    case Fat12 => bytes * 2 / 3
    case Fat16 => bytes / 2
    case Fat32 => bytes / 4
  }

  // ---------------------------------------------------------------- packed entries

  /** The byte at offset i, or 0 past the end. */
  function ByteAt(buf: seq<Byte>, i: nat): Byte { if i < |buf| then buf[i] else 0 }

  /** Entry c of a packed table: 12 bits at bit 12c, 16 bits at byte 2c, or the low 28 of the 32 bits
      at byte 4c, least significant first. */
  function RawMark(kind: Kind, buf: seq<Byte>, c: nat): (r: int)
    ensures 0 <= r < Span(kind)
  {
    match kind
    case Fat12 =>
      var v := ByteAt(buf, c * 3 / 2) + 0x100 * ByteAt(buf, c * 3 / 2 + 1);
      if c % 2 == 0 then v % 0x1000 else v / 0x10
    case Fat16 => ByteAt(buf, 2 * c) + 0x100 * ByteAt(buf, 2 * c + 1)
    case Fat32 =>
      (ByteAt(buf, 4 * c) + 0x100 * ByteAt(buf, 4 * c + 1)
       + 0x1_0000 * ByteAt(buf, 4 * c + 2) + 0x100_0000 * ByteAt(buf, 4 * c + 3)) % ENTRIES32
  }

  /** The bits one entry takes up. */
  function Width(kind: Kind): nat {
    match kind
    case Fat12 => 12
    case Fat16 => 16
    case Fat32 => 32
  }

  /** The bytes as one number, least significant first. */
  function Number(s: seq<Byte>): nat {
    if s == [] then 0 else s[0] + 0x100 * Number(s[1..])
  }

  lemma NumberTail(buf: seq<Byte>, p: nat)
    requires p <= |buf|
    ensures Number(buf[p..]) == ByteAt(buf, p) + 0x100 * (if p < |buf| then Number(buf[p + 1..]) else 0)
  {
    if p < |buf| {
      assert buf[p..][1..] == buf[p + 1..];
    }
  }

  /** Four bytes and the rest. */
  lemma NumberOfFour(buf: seq<Byte>, p: nat) returns (rest: nat)
    requires p <= |buf|
    ensures Number(buf[p..]) == ByteAt(buf, p) + 0x100 * ByteAt(buf, p + 1) + 0x1_0000 * ByteAt(buf, p + 2)
                                + 0x100_0000 * ByteAt(buf, p + 3) + 0x1_0000_0000 * rest
  {
    rest := if p + 4 <= |buf| then Number(buf[p + 4..]) else 0;
    NumberTail(buf, p);
    if p + 1 <= |buf| {
      NumberTail(buf, p + 1);
    }
    if p + 2 <= |buf| {
      NumberTail(buf, p + 2);
    }
    if p + 3 <= |buf| {
      NumberTail(buf, p + 3);
    }
  }

  lemma TimesAdd(a: nat, b: nat, unit: nat)
    ensures (a + b) * unit == unit * a + unit * b
  {}

  /** The low digits of a number do not depend on the high ones. */
  lemma LowDigits(x: nat, y: nat, z: nat, unit: nat)
    requires unit > 0 && x == y + unit * z
    ensures x % unit == y % unit
  {
    assert y == unit * (y / unit) + y % unit;
    TimesAdd(y / unit, z, unit);
    ModuloIs(y / unit + z, y % unit, unit);
  }

  /** The fields of 12 bits at bit 0 and at bit 4. */
  lemma Fields12(x: nat, v: nat, above: nat)
    requires x == v + 0x1_0000 * above && v < 0x1_0000
    ensures x % 0x1000 == v % 0x1000 && x / 0x10 % 0x1000 == v / 0x10
  {
    LowDigits(x, v, 0x10 * above, 0x1000);
    assert x / 0x10 == v / 0x10 + 0x1000 * above;
    LowDigits(x / 0x10, v / 0x10, above, 0x1000);
  }

  /** Where entry c starts: at a byte, or at half a byte. */
  lemma FieldStarts(kind: Kind, c: nat)
    ensures var byte, bit := Width(kind) * c / 8, Width(kind) * c % 8;
            match kind
            case Fat12 => byte == c * 3 / 2 && bit == 4 * (c % 2)
            case Fat16 => byte == 2 * c && bit == 0
            case Fat32 => byte == 4 * c && bit == 0
  {
    match kind
    case Fat12 => assert 12 * c == 8 * (c * 3 / 2) + 4 * (c % 2);
    case _ =>
  }

  function Two(buf: seq<Byte>, p: nat): nat {
    ByteAt(buf, p) + 0x100 * ByteAt(buf, p + 1)
  }

  /** The field that starts at the given bit, cut to the bits of a mark. */
  function Field(kind: Kind, x: nat, bit: nat): nat {
    x / (if bit == 0 then 1 else 0x10) % Span(kind)
  }

  lemma FieldOfPairs(kind: Kind, x: nat, low: nat, high: nat, rest: nat)
    requires low < 0x1_0000 && high < 0x1_0000 && x == low + 0x1_0000 * (high + 0x1_0000 * rest)
    ensures kind == Fat12 ==> Field(kind, x, 0) == low % 0x1000 && Field(kind, x, 4) == low / 0x10
    ensures kind == Fat16 ==> Field(kind, x, 0) == low
    ensures kind == Fat32 ==> Field(kind, x, 0) == (low + 0x1_0000 * high) % ENTRIES32
  {
    match kind
    case Fat12 => Fields12(x, low, high + 0x1_0000 * rest);
    case Fat16 => LowDigits(x, low, high + 0x1_0000 * rest, 0x1_0000);
    case Fat32 => LowDigits(x, low + 0x1_0000 * high, 0x10 * rest, ENTRIES32);
  }

  lemma RawOfPairs(kind: Kind, buf: seq<Byte>, c: nat)
    ensures var p := Width(kind) * c / 8;
            RawMark(kind, buf, c)
            == match kind
               case Fat12 => if c % 2 == 0 then Two(buf, p) % 0x1000 else Two(buf, p) / 0x10
               case Fat16 => Two(buf, p)
               case Fat32 => (Two(buf, p) + 0x1_0000 * Two(buf, p + 2)) % ENTRIES32
  {
    FieldStarts(kind, c);
  }

  /** The packed entries are one number of consecutive fields, all of the same width: entry c is the field that
      starts at bit Width * c. */
  lemma EntriesAreFields(kind: Kind, buf: seq<Byte>, c: nat)
    requires Width(kind) * c / 8 <= |buf|
    ensures RawMark(kind, buf, c) == Field(kind, Number(buf[Width(kind) * c / 8..]), Width(kind) * c % 8)
  {
    var p := Width(kind) * c / 8;
    var rest := NumberOfFour(buf, p);
    FieldStarts(kind, c);
    RawOfPairs(kind, buf, c);
    FieldOfPairs(kind, Number(buf[p..]), Two(buf, p), Two(buf, p + 2), rest);
  }

  /** The loops over the table handle one entry per turn, or two 12-bit entries: the entry turn k
      starts with, and the byte it starts at. */
  function TurnEntry(kind: Kind, k: nat): nat {
    match kind
    case Fat12 => 2 + 2 * k
    case _ => 2 + k
  }

  function TurnOffset(kind: Kind, k: nat): nat {
    match kind
    case Fat12 => 3 + 3 * k
    case Fat16 => 4 + 2 * k
    case Fat32 => 8 + 4 * k
  }

  /** The number of turns over a table of n entries. */
  function Turns(kind: Kind, n: nat): nat
    requires n >= CLUST_FIRST
  {
    if kind == Fat12 then (n - 1) / 2 else n - 2
  }

  // ---------------------------------------------------------------- checkclnum

  /** A mark read from disk, widened to 32 bits if it is a reserved one. */
  function Widen(kind: Kind, raw: int): (r: Cl)
    requires 0 <= raw < Span(kind)
  {
    if raw >= RsrvdMark(kind) then raw + (0x1_0000_0000 - Span(kind)) else raw
  }

  /** checkclnum, answering yes: anything that is not a legal mark is truncated to EOF. */
  function CheckClnum(kind: Kind, n: nat, raw: int): (r: Cl)
    requires 0 <= raw < Span(kind)
    ensures LegalMark(n, r)
  {
    var w := Widen(kind, raw);
    if w == CLUST_FREE || w == CLUST_BAD then w
    else if w < CLUST_FIRST || (w >= n && w < CLUST_EOFS) then CLUST_EOF
    else w
  }

  /** Whether checkclnum leaves the mark alone. */
  predicate Accepted(kind: Kind, n: nat, raw: int)
    requires 0 <= raw < Span(kind)
  {
    CheckClnum(kind, n, raw) == Widen(kind, raw)
  }

  /** The packed marks of a bad cluster, and from which value on they mean the end of a chain. */
  function RawBad(kind: Kind): int { Span(kind) - 9 }

  function RawEofs(kind: Kind): int { Span(kind) - 8 }

  /** What becomes of every mark: free, bad, in range and end of chain are kept, and nothing else is; all the
      rest, the reserved marks among them, become EOF. */
  lemma MarkRead(kind: Kind, n: nat, raw: int)
    requires 0 <= raw < Span(kind) && n <= CLUST_RSRVD
    ensures var r, inRange := CheckClnum(kind, n, raw), CLUST_FIRST <= raw < n && raw < RsrvdMark(kind);
            && (r == CLUST_FREE <==> raw == 0) && (r == CLUST_BAD <==> raw == RawBad(kind))
            && (InRange(n, r) <==> inRange) && (inRange ==> r == raw)
            && (raw >= RawEofs(kind) ==> r % Span(kind) == raw && r >= CLUST_EOFS)
            && (raw != 0 && raw != RawBad(kind) && !inRange && raw < RawEofs(kind) ==> r == CLUST_EOF)
            && (Accepted(kind, n, raw) <==> raw == 0 || raw == RawBad(kind) || inRange || raw >= RawEofs(kind))
  {
    match kind
    case Fat12 =>
    case Fat16 =>
    case Fat32 =>
  }

  /** How many of the packed entries from CLUST_FIRST up to hi are the given one. */
  function RawCount(kind: Kind, buf: seq<Byte>, hi: nat, raw: int): nat {
    if hi <= CLUST_FIRST then 0
    else RawCount(kind, buf, hi - 1, raw) + (if RawMark(kind, buf, hi - 1) == raw then 1 else 0)
  }

  /** The counters count what was free and bad in the buffer. */
  lemma {:induction false} CountIsRaw(kind: Kind, buf: seq<Byte>, fat: seq<Cl>, hi: nat)
    requires hi <= |fat| <= CLUST_RSRVD
    requires forall c :: CLUST_FIRST <= c < hi ==> fat[c] == CheckClnum(kind, |fat|, RawMark(kind, buf, c))
    ensures Count(fat, hi, CLUST_FREE) == RawCount(kind, buf, hi, 0)
    ensures Count(fat, hi, CLUST_BAD) == RawCount(kind, buf, hi, RawBad(kind))
  {
    if hi > CLUST_FIRST {
      CountIsRaw(kind, buf, fat, hi - 1);
      MarkRead(kind, |fat|, RawMark(kind, buf, hi - 1));
    }
  }

  /** How many of the entries from CLUST_FIRST up to hi carry the mark. */
  function Count(nx: seq<Cl>, hi: nat, mark: Cl): (r: nat)
    requires hi <= |nx|
  {
    if hi <= CLUST_FIRST then 0
    else Count(nx, hi - 1, mark) + (if nx[hi - 1] == mark then 1 else 0)
  }

  // ---------------------------------------------------------------- readfat

  /** The counters kept while reading: NumFree, NumBad, and whether a mark was truncated. */
  datatype Counters = Counters(numFree: nat, numBad: nat, modified: bool)

  /** The marks a buffer decodes to, and whether each was accepted as it stood. */
  datatype Target = Target(marks: seq<Cl>, ok: seq<bool>)

  ghost function TargetOf(kind: Kind, buf: seq<Byte>, n: nat): Target {
    Target(seq(n, c requires c >= 0 => CheckClnum(kind, n, RawMark(kind, buf, c))),
           seq(n, c requires c >= 0 => Accepted(kind, n, RawMark(kind, buf, c))))
  }

  ghost predicate IsTarget(kind: Kind, buf: seq<Byte>, n: nat, t: Target) {
    && |t.marks| == n == |t.ok|
    && forall c: nat {:trigger RawMark(kind, buf, c)} :: c < n ==>
         && t.marks[c] == CheckClnum(kind, n, RawMark(kind, buf, c))
         && t.ok[c] == Accepted(kind, n, RawMark(kind, buf, c))
  }

  lemma TargetOfIsTarget(kind: Kind, buf: seq<Byte>, n: nat)
    ensures IsTarget(kind, buf, n, TargetOf(kind, buf, n))
  {}

  /** The entries below cl have been decoded into fat and counted. */
  ghost predicate DecodedUpTo(t: Target, fat: seq<Cl>, cl: nat, r: Counters) {
    && |fat| == |t.marks| == |t.ok| && cl <= |fat|
    && (forall c :: CLUST_FIRST <= c < cl ==> fat[c] == t.marks[c])
    && r.numFree == Count(fat, cl, CLUST_FREE) && r.numBad == Count(fat, cl, CLUST_BAD)
    && (r.modified <==> exists c :: CLUST_FIRST <= c < cl && !t.ok[c])
  }

  /** The decode loop of readfat, into a table of as many entries as fat has. */
  method ReadFat(kind: Kind, buf: seq<Byte>, fat: array<Cl>) returns (r: Counters)
    requires CLUST_FIRST <= fat.Length <= CLUST_RSRVD && NumFatEntries(kind, |buf|) >= fat.Length
    modifies fat
    ensures DecodedUpTo(TargetOf(kind, buf, fat.Length), fat[..], fat.Length, r)
    ensures LegalTable(fat[..])
    ensures r.numFree == RawCount(kind, buf, fat.Length, 0)
    ensures r.numBad == RawCount(kind, buf, fat.Length, RawBad(kind))
  {
    ghost var t := TargetOf(kind, buf, fat.Length);
    TargetOfIsTarget(kind, buf, fat.Length);
    r := Counters(0, 0, false);
    var p := HeaderLen(kind);
    var cl: nat := CLUST_FIRST;
    ghost var k: nat := 0;
    while cl < fat.Length
      invariant cl < fat.Length ==> cl == TurnEntry(kind, k) && p == TurnOffset(kind, k)
      invariant DecodedUpTo(t, fat[..], cl, r)
    {
      cl, p, r := ReadEntries(kind, buf, p, fat, cl, r, t, k);
      k := k + 1;
    }
    CountIsRaw(kind, buf, fat[..], fat.Length);
  }

  /** One turn of the decode loop: one entry, or up to two of 12 bits. */
  method ReadEntries(kind: Kind, buf: seq<Byte>, p: nat, fat: array<Cl>, cl: nat, r: Counters,
                     ghost t: Target, ghost k: nat)
    returns (cl': nat, p': nat, r': Counters)
    requires CLUST_FIRST <= cl < fat.Length <= CLUST_RSRVD && fat.Length <= NumFatEntries(kind, |buf|)
    requires cl == TurnEntry(kind, k) && p == TurnOffset(kind, k)
    requires IsTarget(kind, buf, fat.Length, t) && DecodedUpTo(t, fat[..], cl, r)
    modifies fat
    ensures cl < cl' <= fat.Length
    ensures cl' < fat.Length ==> cl' == TurnEntry(kind, k + 1) && p' == TurnOffset(kind, k + 1)
    ensures DecodedUpTo(t, fat[..], cl', r')
  {
    r' := StoreMark(kind, buf, p, false, fat, cl, r, t, k);
    cl' := cl + 1;
    match kind {
      case Fat32 => p' := p + 4;
      case Fat16 => p' := p + 2;
      case Fat12 =>
        p' := p;
        if cl' >= fat.Length {
          return;
        }
        r' := StoreMark(kind, buf, p, true, fat, cl', r', t, k);
        cl', p' := cl' + 1, p + 3;
    }
  }

  /** The shifts and masks of the decode loop; second selects the upper half of a 12-bit pair. */
  function Load(kind: Kind, buf: seq<Byte>, p: nat, second: bool): int
    requires p + (match kind { case Fat12 => if second then 2 else 1 case Fat16 => 1 case Fat32 => 3 }) < |buf|
  {
    var b0: int, b1: int := buf[p], buf[p + 1];
    match kind
    case Fat32 => (b0 + b1 * 0x100 + buf[p + 2] as int * 0x1_0000 + buf[p + 3] as int * 0x100_0000) % ENTRIES32
    case Fat16 => b0 + b1 * 0x100
    case Fat12 => if second then (b1 / 0x10 + buf[p + 2] as int * 0x10) % 0x1000 else (b0 + b1 * 0x100) % 0x1000
  }

  /** The loop's pointer always stands at the right entry, inside the buffer. */
  lemma LoadIsRaw(kind: Kind, buf: seq<Byte>, n: nat, k: nat, second: bool)
    requires second ==> kind == Fat12
    requires TurnEntry(kind, k) + (if second then 1 else 0) < n <= NumFatEntries(kind, |buf|)
    ensures var p := TurnOffset(kind, k);
            && p + (match kind { case Fat12 => if second then 2 else 1 case Fat16 => 1 case Fat32 => 3 }) < |buf|
            && Load(kind, buf, p, second)
               == RawMark(kind, buf, TurnEntry(kind, k) + (if second then 1 else 0))
  {
    if kind == Fat12 {
      LoadIsRaw12(buf, n, k, second);
    }
  }

  lemma LoadIsRaw12(buf: seq<Byte>, n: nat, k: nat, second: bool)
    requires 2 + 2 * k + (if second then 1 else 0) < n <= NumFatEntries(Fat12, |buf|)
    ensures var p, c := 3 + 3 * k, 2 + 2 * k + (if second then 1 else 0);
            && p + (if second then 2 else 1) < |buf|
            && Load(Fat12, buf, p, second) == RawMark(Fat12, buf, c)
  {
    Room12(|buf|, n, k, second);
    Raw12(buf, k);
    if second {
      Upper12(buf[4 + 3 * k], buf[5 + 3 * k]);
    }
  }

  lemma Room12(bytes: nat, n: nat, k: nat, second: bool)
    requires 2 + 2 * k + (if second then 1 else 0) < n <= NumFatEntries(Fat12, bytes)
    ensures 3 + 3 * k + (if second then 2 else 1) < bytes
  {}

  lemma Upper12(b1: Byte, b2: Byte)
    ensures (b1 / 0x10 + b2 as int * 0x10) % 0x1000 == (b1 + 0x100 * b2) / 0x10
  {}

  /** The two entries in three bytes. */
  lemma Raw12(buf: seq<Byte>, k: nat)
    ensures RawMark(Fat12, buf, 2 + 2 * k) == (ByteAt(buf, 3 + 3 * k) + 0x100 * ByteAt(buf, 4 + 3 * k)) % 0x1000
    ensures RawMark(Fat12, buf, 3 + 2 * k) == (ByteAt(buf, 4 + 3 * k) + 0x100 * ByteAt(buf, 5 + 3 * k)) / 0x10
  {
    Offsets12(k);
  }

  lemma Offsets12(k: nat)
    ensures (2 + 2 * k) * 3 / 2 == 3 + 3 * k && (3 + 2 * k) * 3 / 2 == 4 + 3 * k
    ensures (2 + 2 * k) % 2 == 0 && (3 + 2 * k) % 2 == 1
  {}

  /** One entry: check the mark, count it, store it. */
  method StoreMark(kind: Kind, buf: seq<Byte>, p: nat, second: bool, fat: array<Cl>, cl: nat, r: Counters,
                   ghost t: Target, ghost k: nat)
    returns (r': Counters)
    requires CLUST_FIRST <= cl < fat.Length <= CLUST_RSRVD && fat.Length <= NumFatEntries(kind, |buf|)
    requires second ==> kind == Fat12
    requires cl == TurnEntry(kind, k) + (if second then 1 else 0) && p == TurnOffset(kind, k)
    requires IsTarget(kind, buf, fat.Length, t) && DecodedUpTo(t, fat[..], cl, r)
    modifies fat
    ensures DecodedUpTo(t, fat[..], cl + 1, r')
  {
    LoadIsRaw(kind, buf, fat.Length, k, second);
    var raw := Load(kind, buf, p, second);
    var mark := CheckClnum(kind, fat.Length, raw);
    DecodedNext(t, fat[..], cl, r);
    fat[cl] := mark;
    r' := Counters(r.numFree + (if mark == CLUST_FREE then 1 else 0),
                   r.numBad + (if mark == CLUST_BAD then 1 else 0),
                   r.modified || !Accepted(kind, fat.Length, raw));
  }

  lemma DecodedNext(t: Target, fat: seq<Cl>, cl: nat, r: Counters)
    requires CLUST_FIRST <= cl < |fat| && DecodedUpTo(t, fat, cl, r)
    ensures var mark := t.marks[cl];
            DecodedUpTo(t, fat[cl := mark], cl + 1,
                        Counters(r.numFree + (if mark == CLUST_FREE then 1 else 0),
                                 r.numBad + (if mark == CLUST_BAD then 1 else 0),
                                 r.modified || !t.ok[cl]))
  {
    CountPrefix(fat, fat[cl := t.marks[cl]], cl, CLUST_FREE);
    CountPrefix(fat, fat[cl := t.marks[cl]], cl, CLUST_BAD);
  }

  lemma {:induction false} CountPrefix(x: seq<Cl>, y: seq<Cl>, hi: nat, mark: Cl)
    requires hi <= |x| && hi <= |y| && x[..hi] == y[..hi]
    ensures Count(x, hi, mark) == Count(y, hi, mark)
  {
    if hi > CLUST_FIRST {
      assert x[..hi - 1] == x[..hi][..hi - 1] == y[..hi - 1];
      assert x[hi - 1] == x[..hi][hi - 1] == y[hi - 1];
      CountPrefix(x, y, hi - 1, mark);
    }
  }

  // ---------------------------------------------------------------- writefat

  /** The entry the encode loop reads at index c. For an odd number of 12-bit entries it reads one
      past the table; beyond is whatever is found there. */
  function EntryAt(nx: seq<Cl>, beyond: Cl, c: nat): Cl { if c < |nx| then nx[c] else beyond }

  function LowByte(x: int): Byte { x % 0x100 }

  /** The bytes one turn of the encode loop emits: one entry x, or two 12-bit entries x and y. */
  function EntryBytes(kind: Kind, x: Cl, y: Cl): (r: seq<Byte>)
    ensures |r| == match kind { case Fat12 => 3 case Fat16 => 2 case Fat32 => 4 }
  {
    match kind
    case Fat32 => [LowByte(x), LowByte(x / 0x100), LowByte(x / 0x1_0000), x / 0x100_0000 % 0x10]
    case Fat16 => [LowByte(x), LowByte(x / 0x100)]
    case Fat12 => [LowByte(x), x / 0x100 % 0x10 + y % 0x10 * 0x10, LowByte(y / 0x10)]
  }

  /** Everything written before turn k, the signature included. */
  function Packed(kind: Kind, header: seq<Byte>, nx: seq<Cl>, beyond: Cl, k: nat): (r: seq<Byte>)
    requires |header| == HeaderLen(kind)
    ensures |r| == TurnOffset(kind, k)
    ensures header <= r
  {
    if k == 0 then header
    else Packed(kind, header, nx, beyond, k - 1) + TurnBytes(kind, nx, beyond, k - 1)
  }

  function TurnBytes(kind: Kind, nx: seq<Cl>, beyond: Cl, k: nat): seq<Byte> {
    var c := TurnEntry(kind, k);
    EntryBytes(kind, EntryAt(nx, beyond, c), EntryAt(nx, beyond, c + 1))
  }

  function Zeros(n: nat): seq<Byte> { seq(n, i => 0) }

  /** The whole buffer writefat produces. */
  function Image(kind: Kind, header: seq<Byte>, nx: seq<Cl>, beyond: Cl, bytes: nat): seq<Byte>
    requires |nx| >= CLUST_FIRST && |header| == HeaderLen(kind)
    requires TurnOffset(kind, Turns(kind, |nx|)) <= bytes
  {
    var packed := Packed(kind, header, nx, beyond, Turns(kind, |nx|));
    packed + Zeros(bytes - |packed|)
  }

  /** The entries written before turn k. */
  function Done(kind: Kind, n: nat, k: nat): nat {
    var c := TurnEntry(kind, k);
    if c <= n then c else n
  }

  /** Progress of the encode loop: the buffer, filled with the entries of the first k turns, and the
      free entries counted. */
  datatype Writing = Writing(buf: seq<Byte>, k: nat, numFree: nat) {
    ghost predicate Valid(kind: Kind, header: seq<Byte>, nx: seq<Cl>, beyond: Cl)
      requires |nx| >= CLUST_FIRST
    {
      && |header| == HeaderLen(kind) && k <= Turns(kind, |nx|)
      && TurnOffset(kind, k) <= |buf|
      && buf == Packed(kind, header, nx, beyond, k) + Zeros(|buf| - TurnOffset(kind, k))
      && numFree == Count(nx, Done(kind, |nx|, k), CLUST_FREE)
    }
  }

  /** The loop of writefat over memory that has room for all it stores. NumFree is recounted. */
  method Encode(kind: Kind, header: seq<Byte>, nx: seq<Cl>, beyond: Cl, bytes: nat)
    returns (buf: array<Byte>, numFree: nat)
    requires |nx| >= CLUST_FIRST && |header| == HeaderLen(kind)
    requires TurnOffset(kind, Turns(kind, |nx|)) <= bytes
    ensures buf[..] == Image(kind, header, nx, beyond, bytes)
    ensures numFree == Count(nx, |nx|, CLUST_FREE)
  {
    buf := new Byte[bytes](i => if 0 <= i < |header| then header[i] else 0);
    numFree := 0;
    var p: nat, cl: nat := |header|, CLUST_FIRST;
    assert buf[..] == header + Zeros(bytes - p);
    ghost var w := Writing(buf[..], 0, numFree);
    WritingInitially(kind, header, nx, beyond, w);
    while cl < |nx|
      invariant w == Writing(buf[..], w.k, numFree) && |w.buf| == bytes
      invariant cl == TurnEntry(kind, w.k) && p == TurnOffset(kind, w.k)
      invariant w.Valid(kind, header, nx, beyond)
      decreases |nx| - cl
    {
      numFree, w := WriteEntries(kind, header, nx, beyond, buf, cl, p, numFree, w);
      match kind {
        case Fat12 => cl, p := cl + 2, p + 3;
        case Fat16 => cl, p := cl + 1, p + 2;
        case Fat32 => cl, p := cl + 1, p + 4;
      }
    }
    WrittenAll(kind, header, nx, beyond, w);
  }

  lemma WrittenAll(kind: Kind, header: seq<Byte>, nx: seq<Cl>, beyond: Cl, w: Writing)
    requires |nx| >= CLUST_FIRST && w.Valid(kind, header, nx, beyond) && TurnEntry(kind, w.k) >= |nx|
    requires TurnOffset(kind, Turns(kind, |nx|)) <= |w.buf|
    ensures w.buf == Image(kind, header, nx, beyond, |w.buf|) && w.numFree == Count(nx, |nx|, CLUST_FREE)
  {
    assert w.k == Turns(kind, |nx|);
  }

  lemma WritingInitially(kind: Kind, header: seq<Byte>, nx: seq<Cl>, beyond: Cl, w: Writing)
    requires |nx| >= CLUST_FIRST && |header| == HeaderLen(kind)
    requires TurnOffset(kind, Turns(kind, |nx|)) <= |w.buf|
    requires w == Writing(header + Zeros(|w.buf| - |header|), 0, 0)
    ensures w.Valid(kind, header, nx, beyond)
  {}

  /** One turn of the encode loop. */
  method WriteEntries(kind: Kind, ghost header: seq<Byte>, nx: seq<Cl>, beyond: Cl, buf: array<Byte>,
                      cl: nat, p: nat, numFree: nat, ghost w: Writing)
    returns (numFree': nat, ghost w': Writing)
    requires |nx| >= CLUST_FIRST && w.Valid(kind, header, nx, beyond) && cl < |nx|
    requires w == Writing(buf[..], w.k, numFree) && TurnOffset(kind, Turns(kind, |nx|)) <= buf.Length
    requires cl == TurnEntry(kind, w.k) && p == TurnOffset(kind, w.k)
    modifies buf
    ensures w'.Valid(kind, header, nx, beyond)
    ensures w' == Writing(buf[..], w.k + 1, numFree')
  {
    numFree' := CountFree(kind, nx, cl, numFree);
    w' := WrittenNext(kind, header, nx, beyond, w);
    PutEntry(kind, buf, p, Packed(kind, header, nx, beyond, w.k),
             EntryAt(nx, beyond, cl), EntryAt(nx, beyond, cl + 1));
  }

  method CountFree(kind: Kind, nx: seq<Cl>, cl: nat, numFree: nat) returns (r: nat)
    requires cl < |nx|
    ensures r == numFree + FreeInTurn(kind, nx, cl)
  {
    r := numFree;
    if nx[cl] == CLUST_FREE {
      r := r + 1;
    }
    if kind == Fat12 && cl + 1 < |nx| && nx[cl + 1] == CLUST_FREE {
      r := r + 1;
    }
  }

  lemma WrittenNext(kind: Kind, header: seq<Byte>, nx: seq<Cl>, beyond: Cl, w: Writing) returns (w': Writing)
    requires |nx| >= CLUST_FIRST && |header| == HeaderLen(kind) && TurnEntry(kind, w.k) < |nx|
    requires TurnOffset(kind, Turns(kind, |nx|)) <= |w.buf|
    requires w.numFree == Count(nx, Done(kind, |nx|, w.k), CLUST_FREE)
    ensures w'.Valid(kind, header, nx, beyond)
    ensures var p, b := TurnOffset(kind, w.k), TurnBytes(kind, nx, beyond, w.k);
            && p + |b| <= |w.buf| == |w'.buf|
            && w' == Writing(Packed(kind, header, nx, beyond, w.k) + b + Zeros(|w.buf| - p - |b|), w.k + 1,
                             w.numFree + FreeInTurn(kind, nx, TurnEntry(kind, w.k)))
  {
    var p, b := TurnOffset(kind, w.k), TurnBytes(kind, nx, beyond, w.k);
    TurnInside(kind, |nx|, w.k);
    w' := Writing(Packed(kind, header, nx, beyond, w.k) + b + Zeros(|w.buf| - p - |b|), w.k + 1,
                  w.numFree + FreeInTurn(kind, nx, TurnEntry(kind, w.k)));
    NextValid(kind, header, nx, beyond, w', w.k, |w.buf|);
  }

  lemma NextValid(kind: Kind, header: seq<Byte>, nx: seq<Cl>, beyond: Cl, w: Writing, k: nat, len: nat)
    requires |nx| >= CLUST_FIRST && |header| == HeaderLen(kind) && w.k == k + 1 <= Turns(kind, |nx|)
    requires TurnEntry(kind, k) < |nx| && TurnOffset(kind, k + 1) <= len
    requires w.numFree == Count(nx, Done(kind, |nx|, k), CLUST_FREE) + FreeInTurn(kind, nx, TurnEntry(kind, k))
    requires var b, p := TurnBytes(kind, nx, beyond, k), TurnOffset(kind, k);
             p + |b| <= len && w.buf == Packed(kind, header, nx, beyond, k) + b + Zeros(len - p - |b|)
    ensures w.Valid(kind, header, nx, beyond) && |w.buf| == len
  {
    CountTurn(kind, nx, k);
    NextBuffer(kind, header, nx, beyond, k, len);
  }

  lemma NextBuffer(kind: Kind, header: seq<Byte>, nx: seq<Cl>, beyond: Cl, k: nat, len: nat)
    requires |header| == HeaderLen(kind) && TurnOffset(kind, k + 1) <= len
    ensures var b, p := TurnBytes(kind, nx, beyond, k), TurnOffset(kind, k);
            && p + |b| == TurnOffset(kind, k + 1)
            && |Packed(kind, header, nx, beyond, k) + b + Zeros(len - p - |b|)| == len
            && Packed(kind, header, nx, beyond, k) + b + Zeros(len - p - |b|)
               == Packed(kind, header, nx, beyond, k + 1) + Zeros(len - TurnOffset(kind, k + 1))
  {
    PackedNext(kind, header, nx, beyond, k);
  }

  lemma PackedNext(kind: Kind, header: seq<Byte>, nx: seq<Cl>, beyond: Cl, k: nat)
    requires |header| == HeaderLen(kind)
    ensures Packed(kind, header, nx, beyond, k + 1)
            == Packed(kind, header, nx, beyond, k) + TurnBytes(kind, nx, beyond, k)
    ensures |TurnBytes(kind, nx, beyond, k)| == TurnOffset(kind, k + 1) - TurnOffset(kind, k)
  {}

  lemma TurnInside(kind: Kind, n: nat, k: nat)
    requires n >= CLUST_FIRST && TurnEntry(kind, k) < n
    ensures k + 1 <= Turns(kind, n)
    ensures TurnOffset(kind, k + 1) <= TurnOffset(kind, Turns(kind, n))
  {}

  /** What one turn adds to NumFree. */
  function FreeInTurn(kind: Kind, nx: seq<Cl>, cl: nat): nat
    requires cl < |nx|
  {
    (if nx[cl] == CLUST_FREE then 1 else 0)
    + (if kind == Fat12 && cl + 1 < |nx| && nx[cl + 1] == CLUST_FREE then 1 else 0)
  }

  lemma CountTurn(kind: Kind, nx: seq<Cl>, k: nat)
    requires TurnEntry(kind, k) < |nx|
    ensures Count(nx, Done(kind, |nx|, k + 1), CLUST_FREE)
            == Count(nx, Done(kind, |nx|, k), CLUST_FREE) + FreeInTurn(kind, nx, TurnEntry(kind, k))
  {
    var cl := TurnEntry(kind, k);
    assert Count(nx, cl + 1, CLUST_FREE) == Count(nx, cl, CLUST_FREE) + (if nx[cl] == CLUST_FREE then 1 else 0);
  }

  /** The stores of one turn, through a pointer that moves over a zeroed buffer. */
  method PutEntry(kind: Kind, buf: array<Byte>, p: nat, ghost before: seq<Byte>, x: Cl, y: Cl)
    requires |before| == p && p + |EntryBytes(kind, x, y)| <= buf.Length
    requires buf[..] == before + Zeros(buf.Length - p)
    modifies buf
    ensures var b := EntryBytes(kind, x, y);
            buf[..] == before + b + Zeros(buf.Length - p - |b|)
  {
    match kind {
      case Fat32 =>
        buf[p], buf[p + 1], buf[p + 2] := LowByte(x), LowByte(x / 0x100), LowByte(x / 0x1_0000);
        buf[p + 3] := buf[p + 3] / 0x10 * 0x10;
        buf[p + 3] := buf[p + 3] + x / 0x100_0000 % 0x10;
      case Fat16 =>
        buf[p], buf[p + 1] := LowByte(x), LowByte(x / 0x100);
      case Fat12 =>
        buf[p], buf[p + 1] := LowByte(x), x / 0x100 % 0x10 + y % 0x10 * 0x10;
        buf[p + 2] := LowByte(y / 0x10);
    }
    var b := EntryBytes(kind, x, y);
    assert buf[..] == before + b + Zeros(buf.Length - p - |b|);
  }

  /** One byte is stored behind the buffer. */
  predicate OneTooMany(kind: Kind, n: nat, bytes: nat) {
    kind == Fat12 && n % 2 == 1 && 2 * bytes == 3 * n + 1
  }

  /** The encoded table fits into a FAT that has room for its entries, except that an odd number of
      12-bit entries can need one byte more than there is; only then is an entry past the table
      read. */
  lemma EncodedSize(kind: Kind, n: nat, bytes: nat)
    requires n >= CLUST_FIRST && NumFatEntries(kind, bytes) >= n
    ensures TurnOffset(kind, Turns(kind, n)) <= bytes
            <==> !OneTooMany(kind, n, bytes)
    ensures OneTooMany(kind, n, bytes) ==> TurnOffset(kind, Turns(kind, n)) == bytes + 1
    ensures TurnEntry(kind, Turns(kind, n)) == n <==> !(kind == Fat12 && n % 2 == 1)
  {}

  /** A table of 341 entries in one sector of 512 bytes is such a case. */
  lemma OneTooManyReached()
    ensures Addressable(Fat12, 341) && NumFatEntries(Fat12, 512) == 341 && OneTooMany(Fat12, 341, 512)
  {}

  /** writefat up to the disk writes. The buffer has the given size; memory is the buffer and, where the
      loop leaves it, the byte behind. */
  method WriteFat(kind: Kind, header: seq<Byte>, nx: seq<Cl>, beyond: Cl, bytes: nat)
    returns (memory: array<Byte>, numFree: nat, overrun: bool)
    requires |nx| >= CLUST_FIRST && |header| == HeaderLen(kind) && NumFatEntries(kind, bytes) >= |nx|
    ensures overrun <==> OneTooMany(kind, |nx|, bytes)
    ensures memory.Length == if overrun then bytes + 1 else bytes
    ensures TurnOffset(kind, Turns(kind, |nx|)) <= memory.Length
    ensures memory[..] == Image(kind, header, nx, beyond, memory.Length)
    ensures numFree == Count(nx, |nx|, CLUST_FREE)
  {
    EncodedSize(kind, |nx|, bytes);
    var n := |nx|;
    overrun := TurnOffset(kind, Turns(kind, n)) > bytes;
    memory, numFree := Encode(kind, header, nx, beyond, if overrun then bytes + 1 else bytes);
  }

  // ---------------------------------------------------------------- round trip

  /** The bytes of later turns do not matter for an entry. */
  lemma RawMarkPrefix(kind: Kind, x: seq<Byte>, y: seq<Byte>, c: nat, k: nat)
    requires c < TurnEntry(kind, k) && |x| == TurnOffset(kind, k)
    ensures RawMark(kind, x + y, c) == RawMark(kind, x, c)
  {
    assert kind == Fat12 ==> c * 3 / 2 + 1 < |x|;
  }

  /** The entries of one turn can be read back. */
  lemma RawMarkLast(kind: Kind, x: seq<Byte>, a: Cl, b: Cl, k: nat)
    requires |x| == TurnOffset(kind, k)
    ensures RawMark(kind, x + EntryBytes(kind, a, b), TurnEntry(kind, k)) == a % Span(kind)
    ensures kind == Fat12 ==> RawMark(kind, x + EntryBytes(kind, a, b), TurnEntry(kind, k) + 1) == b % Span(kind)
  {
    match kind {
      case Fat12 => RawPair(x, a, b, k);
      case Fat16 =>
        Split16(a);
      case Fat32 =>
        Split32(a);
    }
  }

  lemma RawPair(x: seq<Byte>, a: Cl, b: Cl, k: nat)
    requires |x| == 3 + 3 * k
    ensures RawMark(Fat12, x + EntryBytes(Fat12, a, b), 2 + 2 * k) == a % Span(Fat12)
    ensures RawMark(Fat12, x + EntryBytes(Fat12, a, b), 3 + 2 * k) == b % Span(Fat12)
  {
    var bytes := EntryBytes(Fat12, a, b);
    var buf := x + bytes;
    var p := |x|;
    Raw12(buf, k);
    assert ByteAt(buf, p) == bytes[0] && ByteAt(buf, p + 1) == bytes[1] && ByteAt(buf, p + 2) == bytes[2];
    Pair12(a, b);
  }

  lemma Pair12(a: int, b: int)
    requires a >= 0 && b >= 0
    ensures var b0, b1, b2 := a % 0x100, a / 0x100 % 0x10 + b % 0x10 * 0x10, b / 0x10 % 0x100;
            (b0 + 0x100 * b1) % 0x1000 == a % 0x1000 && (b1 + 0x100 * b2) / 0x10 == b % 0x1000
  {
    Split12(a, b);
    Multiple12(a % 0x1000, b % 0x10);
    var upper := b % 0x10 + 0x10 * (b / 0x10 % 0x100);
    Quotient12(a / 0x100 % 0x10, upper);
  }

  lemma Multiple12(low: int, k: int)
    requires 0 <= low < 0x1000
    ensures (low + 0x1000 * k) % 0x1000 == low
  {}

  lemma Quotient12(low: int, k: int)
    requires 0 <= low < 0x10
    ensures (low + 0x10 * k) / 0x10 == k
  {}

  lemma Split12(a: int, b: int)
    requires a >= 0 && b >= 0
    ensures a % 0x100 + 0x100 * (a / 0x100 % 0x10) == a % 0x1000
    ensures b % 0x10 + 0x10 * (b / 0x10 % 0x100) == b % 0x1000
  {
    SplitModulo(a, 0x100, 0x10, 0x1000);
    SplitModulo(b, 0x10, 0x100, 0x1000);
  }

  lemma Split16(a: int)
    requires a >= 0
    ensures a % 0x100 + 0x100 * (a / 0x100 % 0x100) == a % 0x1_0000
  {
    SplitModulo(a, 0x100, 0x100, 0x1_0000);
  }

  lemma Split32(a: int)
    requires a >= 0
    ensures a % 0x100 + 0x100 * (a / 0x100 % 0x100) + 0x1_0000 * (a / 0x1_0000 % 0x100)
            + 0x100_0000 * (a / 0x100_0000 % 0x10) == a % 0x1000_0000
  {
    var high := a / 0x1_0000;
    HighBytes(a);
    Split16(a);
    SplitModulo(high, 0x100, 0x10, 0x1000);
    SplitModulo(a, 0x1_0000, 0x1000, 0x1000_0000);
  }

  lemma HighBytes(a: int)
    requires a >= 0
    ensures a / 0x1_0000 / 0x100 == a / 0x100_0000
  {
  }

  lemma {:induction false} PackedMarks(kind: Kind, header: seq<Byte>, nx: seq<Cl>, beyond: Cl, k: nat, c: nat)
    requires |header| == HeaderLen(kind) && CLUST_FIRST <= c < TurnEntry(kind, k)
    ensures RawMark(kind, Packed(kind, header, nx, beyond, k), c) == EntryAt(nx, beyond, c) % Span(kind)
  {
    var j: nat := k - 1;
    if c < TurnEntry(kind, j) {
      PackedMarks(kind, header, nx, beyond, j, c);
      EarlierMarks(kind, header, nx, beyond, j, c);
    } else {
      LastMarks(kind, header, nx, beyond, j, c);
    }
  }

  lemma EarlierMarks(kind: Kind, header: seq<Byte>, nx: seq<Cl>, beyond: Cl, k: nat, c: nat)
    requires |header| == HeaderLen(kind) && c < TurnEntry(kind, k)
    ensures RawMark(kind, Packed(kind, header, nx, beyond, k + 1), c)
            == RawMark(kind, Packed(kind, header, nx, beyond, k), c)
  {
    PackedNext(kind, header, nx, beyond, k);
    RawMarkPrefix(kind, Packed(kind, header, nx, beyond, k), TurnBytes(kind, nx, beyond, k), c, k);
  }

  lemma LastMarks(kind: Kind, header: seq<Byte>, nx: seq<Cl>, beyond: Cl, k: nat, c: nat)
    requires |header| == HeaderLen(kind) && TurnEntry(kind, k) <= c < TurnEntry(kind, k + 1)
    ensures RawMark(kind, Packed(kind, header, nx, beyond, k + 1), c) == EntryAt(nx, beyond, c) % Span(kind)
  {
    var d := TurnEntry(kind, k);
    RawMarkLast(kind, Packed(kind, header, nx, beyond, k), EntryAt(nx, beyond, d), EntryAt(nx, beyond, d + 1), k);
    assert c == d || (kind == Fat12 && c == d + 1);
  }

  /** A legal mark of an addressable table survives packing and widening unchanged. */
  lemma WidenPacked(kind: Kind, n: nat, mark: Cl)
    requires Addressable(kind, n) && LegalMark(n, mark)
    ensures CheckClnum(kind, n, mark % Span(kind)) == mark && Accepted(kind, n, mark % Span(kind))
  {
    CutMark(kind, n, mark);
  }

  /** A cut mark widens to itself. */
  lemma CutMark(kind: Kind, n: nat, mark: Cl)
    requires Addressable(kind, n) && LegalMark(n, mark)
    ensures Widen(kind, mark % Span(kind)) == mark
  {
    if mark < CLUST_RSRVD {
      assert mark % Span(kind) == mark;
    } else {
      assert mark % Span(kind) == mark - (0x1_0000_0000 - Span(kind));
    }
  }

  /** Main result: reading what writefat wrote gives back the same table, whatever the signature,
      nothing is truncated, and the counters are right. */
  method WriteThenRead(kind: Kind, header: seq<Byte>, nx: seq<Cl>, beyond: Cl, bytes: nat)
    returns (fat: array<Cl>, r: Counters)
    requires |nx| >= CLUST_FIRST && LegalTable(nx) && Addressable(kind, |nx|)
    requires |header| == HeaderLen(kind) && NumFatEntries(kind, bytes) >= |nx|
    ensures fat.Length == |nx| && fat[CLUST_FIRST..] == nx[CLUST_FIRST..]
    ensures !r.modified
    ensures r.numFree == Count(nx, |nx|, CLUST_FREE) && r.numBad == Count(nx, |nx|, CLUST_BAD)
  {
    var memory, numFree, overrun := WriteFat(kind, header, nx, beyond, bytes);
    fat := new Cl[|nx|](_ => 0);
    r := ReadFat(kind, memory[..bytes], fat);
    ImageTarget(kind, header, nx, beyond, memory.Length, bytes);
    assert memory[..bytes] == memory[..][..bytes];
    ReadBack(TargetOf(kind, memory[..bytes], |nx|), nx, fat[..], r);
  }

  /** The byte behind the buffer is no part of the last entry. */
  lemma BehindUnread(kind: Kind, buf: seq<Byte>, n: nat, bytes: nat, c: nat)
    requires c < n && bytes <= |buf| && NumFatEntries(kind, bytes) >= n
    ensures RawMark(kind, buf[..bytes], c) == RawMark(kind, buf, c)
  {
    match kind {
      case Fat12 =>
        assert c * 3 / 2 + 1 < bytes;
      case Fat16 =>
      case Fat32 =>
    }
  }

  lemma EntryReadBack(kind: Kind, header: seq<Byte>, nx: seq<Cl>, beyond: Cl, bytes: nat, c: Cl)
    requires InRange(|nx|, c) && LegalTable(nx) && Addressable(kind, |nx|)
    requires |header| == HeaderLen(kind) && TurnOffset(kind, Turns(kind, |nx|)) <= bytes
    ensures var raw := RawMark(kind, Image(kind, header, nx, beyond, bytes), c);
            CheckClnum(kind, |nx|, raw) == nx[c] && Accepted(kind, |nx|, raw)
  {
    var last := Turns(kind, |nx|);
    var packed := Packed(kind, header, nx, beyond, last);
    PackedMarks(kind, header, nx, beyond, last, c);
    RawMarkPrefix(kind, packed, Zeros(bytes - |packed|), c, last);
    WidenPacked(kind, |nx|, nx[c]);
  }

  lemma ImageTarget(kind: Kind, header: seq<Byte>, nx: seq<Cl>, beyond: Cl, room: nat, bytes: nat)
    requires LegalTable(nx) && Addressable(kind, |nx|) && |nx| >= CLUST_FIRST
    requires |header| == HeaderLen(kind) && TurnOffset(kind, Turns(kind, |nx|)) <= room
    requires bytes <= room && NumFatEntries(kind, bytes) >= |nx|
    ensures var t := TargetOf(kind, Image(kind, header, nx, beyond, room)[..bytes], |nx|);
            forall c :: CLUST_FIRST <= c < |nx| ==> t.marks[c] == nx[c] && t.ok[c]
  {
    var image := Image(kind, header, nx, beyond, room);
    var t := TargetOf(kind, image[..bytes], |nx|);
    forall c | CLUST_FIRST <= c < |nx|
      ensures t.marks[c] == nx[c] && t.ok[c]
    {
      EntryReadBack(kind, header, nx, beyond, room, c);
      BehindUnread(kind, image, |nx|, bytes, c);
    }
  }

  lemma ReadBack(t: Target, nx: seq<Cl>, fat: seq<Cl>, r: Counters)
    requires DecodedUpTo(t, fat, |nx|, r) && |fat| == |nx| >= CLUST_FIRST
    requires forall c :: CLUST_FIRST <= c < |nx| ==> t.marks[c] == nx[c] && t.ok[c]
    ensures fat[CLUST_FIRST..] == nx[CLUST_FIRST..] && !r.modified
    ensures r.numFree == Count(nx, |nx|, CLUST_FREE) && r.numBad == Count(nx, |nx|, CLUST_BAD)
  {
    CountSame(fat, nx, |nx|, CLUST_FREE);
    CountSame(fat, nx, |nx|, CLUST_BAD);
  }

  lemma {:induction false} CountSame(x: seq<Cl>, y: seq<Cl>, hi: nat, mark: Cl)
    requires hi <= |x| && hi <= |y|
    requires forall c :: CLUST_FIRST <= c < hi ==> x[c] == y[c]
    ensures Count(x, hi, mark) == Count(y, hi, mark)
  {
    if hi > CLUST_FIRST {
      CountSame(x, y, hi - 1, mark);
    }
  }
}
