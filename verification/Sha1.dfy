/** The streaming interface of sha1.c. */
module Sha1Stream {
  import opened ByteSeqs
  import opened Sha1Spec
  import opened Sha1Transform

  const TWO32: nat := 0x1_0000_0000
  const TWO64: nat := 0x1_0000_0000_0000_0000

  // ---------------------------------------------------------------- the length in two words

  /** The low and the high word of the bit count. */
  datatype Count = Count(lo: nat, hi: nat) {
    predicate Valid() { lo < TWO32 && hi < TWO32 }

    function Bits(): nat { hi * TWO32 + lo }

    /** How many bytes are waiting in the buffer. */
    function Fill(): nat { lo / 8 % 64 }

    /** The first statement of SHA1Update. */
    function Plus(len: nat): Count {
      var lo' := (lo + len * 8 % TWO32) % TWO32;
      Count(lo', if lo' < lo then (hi + len / 0x2000_0000 + 1) % TWO32 else hi)
    }
  }

  /** The high bits of a length of 2^29 bytes or more are only added when the low word overflows. */
  lemma CountExact(c: Count, len: nat)
    requires c.Valid() && len < TWO32
    ensures c.Plus(len).Valid()
    ensures c.Plus(len).Bits() == (c.Bits() + 8 * len) % TWO64
            <==> len < 0x2000_0000 || c.lo + len * 8 % TWO32 >= TWO32
  {
    var high, low := len / 0x2000_0000, len * 8 % TWO32;
    SplitLength(len);
    var lo := c.lo + low;
    if lo >= TWO32 {
      assert c.Plus(len) == Count(lo - TWO32, (c.hi + high + 1) % TWO32);
      TwoWords(c.hi + high + 1, lo - TWO32);
    } else {
      assert c.Plus(len) == Count(lo, c.hi);
      TwoWords(c.hi + high, lo);
      assert high > 0 ==> (c.hi + high) % TWO32 != c.hi;
    }
  }

  lemma SplitLength(len: nat)
    requires len < TWO32
    ensures 8 * len == len / 0x2000_0000 * TWO32 + len * 8 % TWO32 && len / 0x2000_0000 < 8
  {}

  lemma TwoWords(h: nat, l: nat)
    requires l < TWO32
    ensures (h * TWO32 + l) % TWO64 == h % TWO32 * TWO32 + l
  {
    var q, r := h / TWO32, h % TWO32;
    assert h * TWO32 + l == q * TWO64 + (r * TWO32 + l);
  }

  /** The low word alone says how much is waiting, and it is always right. */
  predicate LowRight(c: Count, n: nat) {
    c.Valid() && c.lo == 8 * n % TWO32
  }

  predicate Exact(c: Count, n: nat) {
    c.Valid() && c.Bits() == 8 * n % TWO64
  }

  lemma FillOfCount(c: Count, n: nat)
    requires LowRight(c, n)
    ensures c.Fill() == n % 64
  {
    var q := 8 * n / TWO32;
    var w := n - q * 0x2000_0000;
    assert c.lo == 8 * w;
    LowBits(w, q * 0x80_0000);
  }

  lemma LowBits(w: nat, k: nat)
    ensures (w + 64 * k) % 64 == w % 64
  {}

  lemma LowOnwards(c: Count, n: nat, len: nat)
    requires LowRight(c, n) && len < TWO32
    ensures LowRight(c.Plus(len), n + len)
  {
    CountExact(c, len);
    LowModulo(8 * n, 8 * len);
  }

  lemma LowModulo(x: nat, y: nat)
    ensures (x % TWO32 + y % TWO32) % TWO32 == (x + y) % TWO32
  {}

  lemma CountOnwards(c: Count, n: nat, len: nat)
    requires Exact(c, n) && len < TWO32
    ensures Exact(c.Plus(len), n + len) <==> len < 0x2000_0000 || c.lo + len * 8 % TWO32 >= TWO32
  {
    CountExact(c, len);
    AddModulo(8 * n, 8 * len);
    BitsModulo(c, 8 * n, 8 * len);
  }

  lemma BitsModulo(c: Count, x: nat, y: nat)
    requires c.Bits() == x % TWO64
    ensures (c.Bits() + y) % TWO64 == (x + y) % TWO64
  {
    AddModulo(x, y);
  }

  lemma AddModulo(x: nat, y: nat)
    ensures (x % TWO64 + y) % TWO64 == (x + y) % TWO64
  {}

  lemma Remainder(n: nat, whole: nat, rest: nat)
    requires n == whole + rest && whole % 64 == 0 && rest < 64
    ensures n % 64 == rest
  {}

  lemma Rejoin(msg: seq<bv8>, data: seq<bv8>, i: nat)
    requires i <= |data|
    ensures msg + data[..i] + data[i..] == msg + data
  {}

  lemma Regroup(x: seq<bv8>, y: seq<bv8>, z: seq<bv8>)
    ensures x + y + z == x + (y + z)
  {}

  // ---------------------------------------------------------------- the context

  class Context {
    var state: State
    var count: Count
    const buffer: array<bv8>
    ghost var blocks: seq<bv8>     // what has gone into the state

    ghost predicate Valid()
      reads this, buffer
    {
      && buffer.Length == 64 && count.Valid() && |blocks| % 64 == 0
      && state == HashBlocks(INITIAL, blocks)
      && LowRight(count, |blocks| + count.Fill())
    }

    /** Everything that has been put in. */
    ghost function Message(): seq<bv8>
      reads this, buffer
      requires Valid()
    {
      blocks + buffer[..count.Fill()]
    }

    /** SHA1Init. */
    constructor ()
      ensures Valid() && Message() == [] && count == Count(0, 0) && fresh(buffer)
    {
      state, count := INITIAL, Count(0, 0);
      buffer := new bv8[64];
      blocks := [];
    }

    method CopyIn(at: nat, data: seq<bv8>)
      requires buffer.Length == 64 && at + |data| <= 64
      modifies buffer
      ensures buffer[..at] == old(buffer[..at]) && buffer[at..at + |data|] == data
    {
      forall k | 0 <= k < |data| {
        buffer[at + k] := data[k];
      }
    }

    /** SHA1Update. The test for a full buffer adds two 32-bit numbers; if that wraps round, the data is
        copied into the buffer as it is and leaves it. */
    method Update(data: seq<bv8>) returns (overrun: bool)
      requires Valid() && |data| < TWO32
      modifies this, buffer
      ensures count == old(count).Plus(|data|)
      ensures overrun <==> old(count).Fill() + |data| >= TWO32
      ensures !overrun ==> Valid() && Message() == old(Message()) + data
    {
      ghost var msg := Message();
      var j := count.Fill();
      assert |msg| == |blocks| + j;
      LowOnwards(count, |msg|, |data|);
      count := count.Plus(|data|);
      if j + |data| >= TWO32 {
        return true;
      }
      ghost var rest := Distribute(j, data, msg);
      Remainder(|msg| + |data|, |blocks|, rest);
      FillOfCount(count, |msg| + |data|);
      assert count.Fill() == rest;
      overrun := false;
    }

    /** The rest of SHA1Update: the data goes into the state and the buffer. */
    method Distribute(j: nat, data: seq<bv8>, ghost msg: seq<bv8>) returns (ghost rest: nat)
      requires buffer.Length == 64 && j < 64 && msg == blocks + buffer[..j]
      requires |blocks| % 64 == 0 && state == HashBlocks(INITIAL, blocks)
      modifies `state, `blocks, buffer
      ensures |blocks| % 64 == 0 && state == HashBlocks(INITIAL, blocks)
      ensures rest < 64 && |blocks| + rest == |msg| + |data| && blocks + buffer[..rest] == msg + data
    {
      if j + |data| > 63 {
        var i := FillBlocks(j, data);
        CopyIn(0, data[i..]);
        rest := |data| - i;
        Rejoin(msg, data, i);
      } else {
        ghost var waiting := buffer[..j];
        CopyIn(j, data);
        rest := j + |data|;
        assert buffer[..rest] == waiting + data;
        Regroup(blocks, waiting, data);
      }
    }

    /** The first branch of SHA1Update: i bytes of the data have gone into the state. */
    method FillBlocks(j: nat, data: seq<bv8>) returns (i: nat)
      requires buffer.Length == 64 && j < 64 && j + |data| > 63
      requires |blocks| % 64 == 0 && state == HashBlocks(INITIAL, blocks)
      modifies `state, `blocks, buffer
      ensures |blocks| % 64 == 0 && state == HashBlocks(INITIAL, blocks)
      ensures i <= |data| < i + 64 && blocks == old(blocks + buffer[..j]) + data[..i]
    {
      ghost var msg := blocks + buffer[..j];
      i := 64 - j;
      CopyIn(j, data[..i]);
      assert buffer[..] == buffer[..j] + data[..i];
      Absorb(buffer[..]);
      i := AbsorbBlocks(data, i, msg);
    }

    /** SHA1Transform of a block. */
    method Absorb(m: seq<bv8>)
      requires |m| == 64 && |blocks| % 64 == 0 && state == HashBlocks(INITIAL, blocks)
      modifies `state, `blocks
      ensures |blocks| % 64 == 0 && state == HashBlocks(INITIAL, blocks) && blocks == old(blocks) + m
    {
      HashOneMore(INITIAL, blocks, m);
      state := Transform(state, m);
      blocks := blocks + m;
    }

    /** The loop over the complete blocks of the data. */
    method AbsorbBlocks(data: seq<bv8>, i0: nat, ghost msg: seq<bv8>) returns (i: nat)
      requires |blocks| % 64 == 0 && state == HashBlocks(INITIAL, blocks)
      requires i0 <= |data| && blocks == msg + data[..i0]
      modifies `state, `blocks
      ensures |blocks| % 64 == 0 && state == HashBlocks(INITIAL, blocks)
      ensures i0 <= i <= |data| < i + 64 && blocks == msg + data[..i]
    {
      i := i0;
      while i + 63 < |data|
        invariant i0 <= i <= |data|
        invariant |blocks| % 64 == 0 && state == HashBlocks(INITIAL, blocks) && blocks == msg + data[..i]
      {
        AbsorbBlock(data, i, msg);
        i := i + 64;
      }
    }

    method AbsorbBlock(data: seq<bv8>, i: nat, ghost msg: seq<bv8>)
      requires |blocks| % 64 == 0 && state == HashBlocks(INITIAL, blocks)
      requires i + 64 <= |data| && blocks == msg + data[..i]
      modifies `state, `blocks
      ensures |blocks| % 64 == 0 && state == HashBlocks(INITIAL, blocks) && blocks == msg + data[..i + 64]
    {
      assert data[..i] + data[i..i + 64] == data[..i + 64];
      Absorb(data[i..i + 64]);
    }

    /** SHA1Final: what the padding has to be is computed from the count before it. */
    method Final() returns (digest: seq<bv8>)
      requires Valid()
      modifies this, buffer
      ensures digest == CountedDigest(old(Message()), old(count))
      ensures old(Exact(count, |Message()|)) && old(|Message()|) < 0x2000_0000_0000_0000
              ==> digest == Sha1(old(Message()))
    {
      ghost var msg, c := Message(), count;
      var finalCount := FinalCount(count);
      FillBelow(count, 1);
      var overrun := Update([0x80]);
      PadWithZeros(msg);
      LengthField(c.Bits());
      FillBelow(count, 8);
      overrun := Update(finalCount);
      assert Message() == PadWith(msg, c.Bits());
      AllAbsorbed(msg, c.Bits());
      digest := WriteDigest(state);
      CountedExactly(msg, c);
    }

    /** After the padding, everything has gone into the state. */
    ghost method AllAbsorbed(msg: seq<bv8>, bits: nat)
      requires Valid() && Message() == PadWith(msg, bits)
      ensures state == HashBlocks(INITIAL, PadWith(msg, bits))
    {
      PadLength(msg, bits);
      FillOfCount(count, |Message()|);
      assert buffer[..0] == [] && blocks + [] == blocks;
    }

    /** Zero bytes one at a time, until eight bytes are left in the buffer. */
    method PadWithZeros(ghost msg: seq<bv8>)
      requires Valid() && Message() == msg + [0x80]
      modifies this, buffer
      ensures Valid() && Message() == msg + [0x80] + Zeros(PadZeros(|msg| + 1))
    {
      ghost var k, n := 0, |msg| + 1;
      PaddedBy(msg, 0);
      FillOfCount(count, n);
      while count.Fill() != 56
        invariant Valid() && k <= PadZeros(n) && count.Fill() == (n + k) % 64
        invariant Message() == PaddedPart(msg, k)
        decreases PadZeros(n) - k
      {
        PadExact(n, k);
        PaddedBy(msg, k);
        FillBelow(count, 1);
        var overrun := Update([0]);
        k := k + 1;
        FillOfCount(count, n + k);
      }
      PadExact(n, k);
    }
  }

  lemma FillBelow(c: Count, len: nat)
    requires c.Valid() && len < 0x8000_0000
    ensures c.Fill() + len < TWO32
  {}

  /** The digest that is computed with this count for the length. */
  function CountedDigest(msg: seq<bv8>, c: Count): seq<bv8> {
    Digest(HashBlocks(INITIAL, PadWith(msg, c.Bits())))
  }

  lemma CountedExactly(msg: seq<bv8>, c: Count)
    ensures Exact(c, |msg|) && |msg| < 0x2000_0000_0000_0000 ==> CountedDigest(msg, c) == Sha1(msg)
  {
    ExactBits(c, |msg|);
  }

  lemma ExactBits(c: Count, n: nat)
    ensures Exact(c, n) && n < 0x2000_0000_0000_0000 ==> c.Bits() == 8 * n
  {}

  function PaddedPart(msg: seq<bv8>, k: nat): (r: seq<bv8>)
    ensures |r| == |msg| + 1 + k
  {
    msg + [0x80] + Zeros(k)
  }

  lemma PaddedBy(msg: seq<bv8>, k: nat)
    ensures PaddedPart(msg, 0) == msg + [0x80]
    ensures PaddedPart(msg, k + 1) == PaddedPart(msg, k) + [0]
  {
    assert Zeros(k + 1) == Zeros(k) + [0];
    assert Zeros(0) == [];
  }

  // ---------------------------------------------------------------- bytes of words

  lemma TwoFours<T>(a: seq<T>, b: seq<T>, i: nat)
    requires |a| == |b| == 4 && i < 8
    ensures (a + b)[i] == (if i >= 4 then b else a)[i % 4]
  {}

  lemma FiveFours<T>(a: seq<T>, b: seq<T>, c: seq<T>, d: seq<T>, e: seq<T>, i: nat)
    requires |a| == |b| == |c| == |d| == |e| == 4 && i < 20
    ensures (a + b + c + d + e)[i]
            == (if i < 4 then a else if i < 8 then b else if i < 12 then c else if i < 16 then d else e)[i % 4]
  {}

  lemma CountWords(count: Count)
    requires count.Valid()
    ensures count.Bits() / TWO32 == count.hi && count.Bits() % TWO32 == count.lo
  {}

  /** The count in eight bytes. */
  method FinalCount(count: Count) returns (r: seq<bv8>)
    requires count.Valid()
    ensures r == Bytes64(count.Bits())
  {
    r := [];
    var i := 0;
    ghost var all := Bytes32(count.hi) + Bytes32(count.lo);
    while i < 8
      invariant i <= 8 && r == all[..i]
    {
      CountByteAt(count, i);
      r := r + [NumberByte(if i >= 4 then count.lo else count.hi, i % 4)];
      i := i + 1;
    }
    CountWords(count);
  }

  lemma CountByteAt(count: Count, i: nat)
    requires count.Valid() && i < 8
    ensures var all, x := Bytes32(count.hi) + Bytes32(count.lo), if i >= 4 then count.lo else count.hi;
            |all| == 8 && all[..i + 1] == all[..i] + [NumberByte(x, i % 4)]
  {
    TwoFours(Bytes32(count.hi), Bytes32(count.lo), i);
    Bytes32At(if i >= 4 then count.lo else count.hi, i % 4);
  }

  lemma Bytes32At(x: nat, k: nat)
    requires k < 4
    ensures Bytes32(x)[k] == NumberByte(x, k)
  {}

  function StateWord(s: State, k: nat): Word {
    if k == 0 then s.a else if k == 1 then s.b else if k == 2 then s.c else if k == 3 then s.d else s.e
  }

  lemma WordBytesAt(w: Word, k: nat)
    requires k < 4
    ensures WordBytes(w)[k] == ByteAt(w, k)
  {}

  lemma DigestAt(s: State, i: nat)
    requires i < 20
    ensures |Digest(s)| == 20 && Digest(s)[i] == ByteAt(StateWord(s, i / 4), i % 4)
  {
    FiveFours(WordBytes(s.a), WordBytes(s.b), WordBytes(s.c), WordBytes(s.d), WordBytes(s.e), i);
    WordBytesAt(StateWord(s, i / 4), i % 4);
  }

  lemma DigestLength(s: State)
    ensures |Digest(s)| == 20
  {}

  /** The loop that writes the digest. */
  method WriteDigest(s: State) returns (digest: seq<bv8>)
    ensures digest == Digest(s)
  {
    digest := [];
    var i := 0;
    while i < 20
      invariant |digest| == i <= 20
      invariant forall k {:trigger digest[k]} :: 0 <= k < i ==> digest[k] == ByteAt(StateWord(s, k / 4), k % 4)
    {
      digest := digest + [ByteAt(StateWord(s, i / 4), i % 4)];
      i := i + 1;
    }
    SameDigest(s, digest);
  }

  lemma SameDigest(s: State, digest: seq<bv8>)
    requires |digest| == 20
    requires forall k {:trigger digest[k]} :: 0 <= k < 20 ==> digest[k] == ByteAt(StateWord(s, k / 4), k % 4)
    ensures digest == Digest(s)
  {
    DigestLength(s);
    forall k | 0 <= k < 20
      ensures digest[k] == Digest(s)[k]
    {
      DigestAt(s, k);
    }
  }

  // ---------------------------------------------------------------- whole messages

  function Concat(pieces: seq<seq<bv8>>): seq<bv8> {
    if pieces == [] then [] else Concat(pieces[..|pieces| - 1]) + pieces[|pieces| - 1]
  }

  /** The count after some pieces. */
  function CountOf(pieces: seq<seq<bv8>>): Count {
    if pieces == [] then Count(0, 0) else CountOf(pieces[..|pieces| - 1]).Plus(|pieces[|pieces| - 1]|)
  }

  /** No piece is so long that it leaves the buffer. */
  predicate NoneOverruns(pieces: seq<seq<bv8>>) {
    pieces == [] ||
    var n := |pieces| - 1;
    NoneOverruns(pieces[..n]) && CountOf(pieces[..n]).Fill() + |pieces[n]| < TWO32
  }

  predicate AllBelow(pieces: seq<seq<bv8>>, len: nat) {
    forall i :: 0 <= i < |pieces| ==> |pieces[i]| < len
  }

  /** With pieces below 2^29 bytes the count is right and nothing overruns. */
  lemma {:induction false} SmallPieces(pieces: seq<seq<bv8>>)
    requires AllBelow(pieces, 0x2000_0000)
    ensures Exact(CountOf(pieces), |Concat(pieces)|) && NoneOverruns(pieces)
  {
    if pieces != [] {
      var n := |pieces| - 1;
      SmallPieces(pieces[..n]);
      CountOnwards(CountOf(pieces[..n]), |Concat(pieces[..n])|, |pieces[n]|);
      FillBelow(CountOf(pieces[..n]), |pieces[n]|);
    }
  }

  /** 2^29 bytes in one piece are counted as none. */
  lemma MiscountReached(piece: seq<bv8>)
    requires |piece| == 0x2000_0000
    ensures AllBelow([piece], TWO32) && NoneOverruns([piece]) && CountOf([piece]) == Count(0, 0)
    ensures !Exact(CountOf([piece]), |Concat([piece])|)
  {
    assert [piece][..0] == [];
    assert Concat([piece]) == [] + piece;
  }

  /** With 63 bytes waiting, a piece of 2^32 - 1 bytes leaves the buffer. */
  lemma OverrunReached(first: seq<bv8>, second: seq<bv8>)
    requires |first| == 63 && |second| == TWO32 - 1
    ensures AllBelow([first, second], TWO32) && !NoneOverruns([first, second])
  {
    assert [first, second][..1] == [first] && [first][..0] == [];
    assert CountOf([first]) == Count(504, 0);
  }

  lemma {:induction false} OverrunStays(pieces: seq<seq<bv8>>, i: nat)
    requires i <= |pieces| && !NoneOverruns(pieces[..i])
    ensures !NoneOverruns(pieces)
    decreases |pieces| - i
  {
    if i < |pieces| {
      assert pieces[..i + 1][..i] == pieces[..i];
      OverrunStays(pieces, i + 1);
    } else {
      assert pieces[..i] == pieces;
    }
  }

  /** Main result: whatever pieces a message is given in, the digest is that of the message with the
      length as counted; and it is the one FIPS 180-4 defines if the count is right, as it is for pieces
      below 2^29 bytes. */
  method Hash(pieces: seq<seq<bv8>>) returns (digest: seq<bv8>, overrun: bool)
    requires AllBelow(pieces, TWO32)
    ensures overrun <==> !NoneOverruns(pieces)
    ensures !overrun ==> digest == CountedDigest(Concat(pieces), CountOf(pieces))
    ensures !overrun && Exact(CountOf(pieces), |Concat(pieces)|) && |Concat(pieces)| < 0x2000_0000_0000_0000
            ==> digest == Sha1(Concat(pieces))
    ensures AllBelow(pieces, 0x2000_0000) && |Concat(pieces)| < 0x2000_0000_0000_0000
            ==> !overrun && digest == Sha1(Concat(pieces))
  {
    var c := new Context();
    var i := 0;
    assert pieces[..0] == [];
    while i < |pieces|
      invariant i <= |pieces| && fresh(c) && fresh(c.buffer) && c.Valid() && c.Message() == Concat(pieces[..i])
      invariant c.count == CountOf(pieces[..i]) && NoneOverruns(pieces[..i])
    {
      assert pieces[..i + 1][..i] == pieces[..i];
      overrun := c.Update(pieces[i]);
      if overrun {
        OverrunStays(pieces, i + 1);
        AtMostSmall(pieces);
        return [], true;
      }
      i := i + 1;
    }
    assert pieces[..i] == pieces;
    digest := c.Final();
    AtMostSmall(pieces);
    overrun := false;
  }

  lemma AtMostSmall(pieces: seq<seq<bv8>>)
    ensures AllBelow(pieces, 0x2000_0000) ==> Exact(CountOf(pieces), |Concat(pieces)|) && NoneOverruns(pieces)
  {
    if AllBelow(pieces, 0x2000_0000) {
      SmallPieces(pieces);
    }
  }
}
