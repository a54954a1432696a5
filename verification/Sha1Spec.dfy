/** SHA-1 as FIPS 180-4 defines it: functions and constants of section 4, padding of section 5.1.1 and
    the computation of section 6.1.2. */
module Sha1Spec {
  import opened ByteSeqs

  /** A 32-bit word. */
  datatype Word = Word(v: bv32)

  function Rotl5(x: Word): Word { Word((x.v << 5) | (x.v >> 27)) }
  function Rotl30(x: Word): Word { Word((x.v << 30) | (x.v >> 2)) }

  function ChBits(x: bv32, y: bv32, z: bv32): bv32 { (x & y) ^ (!x & z) }
  function MajBits(x: bv32, y: bv32, z: bv32): bv32 { (x & y) ^ (x & z) ^ (y & z) }

  function Ch(x: Word, y: Word, z: Word): Word { Word(ChBits(x.v, y.v, z.v)) }
  function Parity(x: Word, y: Word, z: Word): Word { Word(x.v ^ y.v ^ z.v) }
  function Maj(x: Word, y: Word, z: Word): Word { Word(MajBits(x.v, y.v, z.v)) }

  /** Sums are modulo the 32nd power of 2. */
  function Add(x: Word, y: Word): Word { Word(x.v + y.v) }
  function Sum(a: Word, b: Word, c: Word, d: Word, e: Word): Word { Word(a.v + b.v + c.v + d.v + e.v) }

  /** The exclusive or of four words, rotated by one bit. */
  function RotlXor(p: Word, q: Word, r: Word, s: Word): Word {
    var x := p.v ^ q.v ^ r.v ^ s.v;
    Word((x << 1) | (x >> 31))
  }

  /** Section 4.1.1. */
  function Ft(t: nat, x: Word, y: Word, z: Word): Word {
    if t < 20 then Ch(x, y, z)
    else if t < 40 then Parity(x, y, z)
    else if t < 60 then Maj(x, y, z)
    else Parity(x, y, z)
  }

  /** Section 4.2.1. */
  function Kt(t: nat): Word {
    if t < 20 then Word(0x5a827999)
    else if t < 40 then Word(0x6ed9eba1)
    else if t < 60 then Word(0x8f1bbcdc)
    else Word(0xca62c1d6)
  }

  /** The five working variables, and the hash value. */
  datatype State = State(a: Word, b: Word, c: Word, d: Word, e: Word)

  /** Section 5.3.1. */
  const INITIAL := State(Word(0x67452301), Word(0xefcdab89), Word(0x98badcfe), Word(0x10325476), Word(0xc3d2e1f0))

  /** Four bytes, the first one in the high-order place. */
  function BigEndian(b0: bv8, b1: bv8, b2: bv8, b3: bv8): Word {
    Word(((b0 as bv32) << 24) | ((b1 as bv32) << 16) | ((b2 as bv32) << 8) | (b3 as bv32))
  }

  /** Word t of a block of 64 bytes. */
  function BlockWord(m: seq<bv8>, t: nat): Word
    requires |m| == 64 && t < 16
  {
    BigEndian(m[4 * t], m[4 * t + 1], m[4 * t + 2], m[4 * t + 3])
  }

  /** Step 1: the message schedule. */
  function W(m: seq<bv8>, t: nat): Word
    requires |m| == 64
  {
    if t < 16 then BlockWord(m, t)
    else RotlXor(W(m, t - 3), W(m, t - 8), W(m, t - 14), W(m, t - 16))
  }

  /** Step 3, once. */
  function Step(t: nat, s: State, w: Word): State {
    State(Sum(Rotl5(s.a), Ft(t, s.b, s.c, s.d), s.e, Kt(t), w), s.a, Rotl30(s.b), s.c, s.d)
  }

  function Steps(s: State, m: seq<bv8>, n: nat): State
    requires |m| == 64
  {
    if n == 0 then s else Step(n - 1, Steps(s, m, n - 1), W(m, n - 1))
  }

  /** Step 4. */
  function AddState(s: State, t: State): State {
    State(Add(s.a, t.a), Add(s.b, t.b), Add(s.c, t.c), Add(s.d, t.d), Add(s.e, t.e))
  }

  function Compress(s: State, m: seq<bv8>): State
    requires |m| == 64
  {
    AddState(s, Steps(s, m, 80))
  }

  /** The hash value after all complete blocks. */
  function HashBlocks(s: State, msg: seq<bv8>): State
    decreases |msg|
  {
    if |msg| < 64 then s else HashBlocks(Compress(s, msg[..64]), msg[64..])
  }

  // ---------------------------------------------------------------- padding

  /** Byte k of a 32-bit number, the high-order one first. */
  function NumberByte(x: nat, k: nat): bv8 {
    var shifted := if k == 0 then x / 0x100_0000 else if k == 1 then x / 0x1_0000 else if k == 2 then x / 0x100 else x;
    (shifted % 0x100) as bv8
  }

  function Bytes32(x: nat): seq<bv8> {
    [NumberByte(x, 0), NumberByte(x, 1), NumberByte(x, 2), NumberByte(x, 3)]
  }

  function Bytes64(x: nat): seq<bv8> {
    Bytes32(x / 0x1_0000_0000) + Bytes32(x % 0x1_0000_0000)
  }

  /** The smallest number of zero bytes after which n bytes leave room for the length. */
  function PadZeros(n: nat): (k: nat)
    ensures (n + k) % 64 == 56 && k < 64
  {
    (56 - n) % 64
  }

  /** A message of whole bytes, padded with the given length in bits. */
  function PadWith(msg: seq<bv8>, bits: nat): seq<bv8> {
    msg + [0x80] + Zeros(PadZeros(|msg| + 1)) + Bytes64(bits)
  }

  /** Section 5.1.1. */
  function Pad(msg: seq<bv8>): seq<bv8> { PadWith(msg, 8 * |msg|) }

  /** Byte k of a word, the high-order one first. */
  function ByteAt(w: Word, k: nat): bv8 {
    if k == 0 then ((w.v >> 24) & 0xff) as bv8
    else if k == 1 then ((w.v >> 16) & 0xff) as bv8
    else if k == 2 then ((w.v >> 8) & 0xff) as bv8
    else (w.v & 0xff) as bv8
  }

  function WordBytes(w: Word): seq<bv8> {
    [ByteAt(w, 0), ByteAt(w, 1), ByteAt(w, 2), ByteAt(w, 3)]
  }

  function Digest(s: State): seq<bv8> {
    WordBytes(s.a) + WordBytes(s.b) + WordBytes(s.c) + WordBytes(s.d) + WordBytes(s.e)
  }

  function Sha1(msg: seq<bv8>): seq<bv8> {
    Digest(HashBlocks(INITIAL, Pad(msg)))
  }

  // ---------------------------------------------------------------- facts

  lemma {:induction false} HashBlocksConcat(s: State, x: seq<bv8>, y: seq<bv8>)
    requires |x| % 64 == 0
    ensures HashBlocks(s, x + y) == HashBlocks(HashBlocks(s, x), y)
    decreases |x|
  {
    if |x| < 64 {
      assert x == [] && x + y == y;
    } else {
      assert (x + y)[..64] == x[..64] && (x + y)[64..] == x[64..] + y;
      HashBlocksConcat(Compress(s, x[..64]), x[64..], y);
    }
  }

  lemma PadLength(msg: seq<bv8>, bits: nat)
    ensures |PadWith(msg, bits)| == |msg| + 1 + PadZeros(|msg| + 1) + 8 && |PadWith(msg, bits)| % 64 == 0
  {
    LengthField(bits);
    RoomForLength(|msg| + 1 + PadZeros(|msg| + 1));
  }

  lemma RoomForLength(n: nat)
    requires n % 64 == 56
    ensures (n + 8) % 64 == 0
  {}

  lemma LengthField(x: nat)
    ensures |Bytes64(x)| == 8
  {}

  /** The first number of zero bytes that leaves room for the length is the one the padding has. */
  lemma PadExact(n: nat, k: nat)
    requires k <= PadZeros(n)
    ensures (n + k) % 64 == 56 <==> k == PadZeros(n)
  {
    var d := PadZeros(n) - k;
    assert (n + k) % 64 == 56 ==> d % 64 == 0;
  }

  /** One more block. */
  lemma HashOneMore(s: State, blocks: seq<bv8>, m: seq<bv8>)
    requires |blocks| % 64 == 0 && |m| == 64
    ensures HashBlocks(s, blocks + m) == Compress(HashBlocks(s, blocks), m)
  {
    HashBlocksConcat(s, blocks, m);
    assert m[..64] == m && m[64..] == [];
  }
}
