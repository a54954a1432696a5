/** SHA1Transform of sha1.c: the schedule in a circular buffer of 16 words, and the working variables
    renamed instead of moved. */
module Sha1Transform {
  import opened Sha1Spec

  /** The buffer as a little-endian machine reads it. */
  function LittleEndian(b0: bv8, b1: bv8, b2: bv8, b3: bv8): Word {
    BigEndian(b3, b2, b1, b0)
  }

  function RawWord(m: seq<bv8>, t: nat): Word
    requires |m| == 64 && t < 16
  {
    LittleEndian(m[4 * t], m[4 * t + 1], m[4 * t + 2], m[4 * t + 3])
  }

  /** The value of blk0. */
  function Swapped(x: Word): Word {
    Word((((x.v << 24) | (x.v >> 8)) & 0xff00_ff00) | (((x.v << 8) | (x.v >> 24)) & 0x00ff_00ff))
  }

  lemma SwapBits(b0: bv32, b1: bv32, b2: bv32, b3: bv32)
    requires b0 <= 0xff && b1 <= 0xff && b2 <= 0xff && b3 <= 0xff
    ensures var x := (b3 << 24) | (b2 << 16) | (b1 << 8) | b0;
            (((x << 24) | (x >> 8)) & 0xff00_ff00) | (((x << 8) | (x >> 24)) & 0x00ff_00ff)
            == (b0 << 24) | (b1 << 16) | (b2 << 8) | b3
  {}

  lemma SwappedIsBigEndian(m: seq<bv8>, t: nat)
    requires |m| == 64 && t < 16
    ensures Swapped(RawWord(m, t)) == BlockWord(m, t)
  {
    SwapBits(m[4 * t] as bv32, m[4 * t + 1] as bv32, m[4 * t + 2] as bv32, m[4 * t + 3] as bv32);
  }

  // ---------------------------------------------------------------- the round functions

  /** The expressions of the macros R0 and R1, and of R3, in place of Ch and Maj. */
  function ShortChBits(w: bv32, x: bv32, y: bv32): bv32 { (w & (x ^ y)) ^ y }
  function ShortMajBits(w: bv32, x: bv32, y: bv32): bv32 { ((w | x) & y) | (w & x) }

  function ShortCh(w: Word, x: Word, y: Word): Word { Word(ShortChBits(w.v, x.v, y.v)) }
  function ShortMaj(w: Word, x: Word, y: Word): Word { Word(ShortMajBits(w.v, x.v, y.v)) }

  lemma BitByBit(w: bv32, x: bv32, y: bv32)
    ensures (w & (x ^ y)) ^ y == (w & x) ^ (!w & y)
    ensures ((w | x) & y) | (w & x) == (w & x) ^ (w & y) ^ (x & y)
  {}

  lemma ShortBits(w: bv32, x: bv32, y: bv32)
    ensures ShortChBits(w, x, y) == ChBits(w, x, y) && ShortMajBits(w, x, y) == MajBits(w, x, y)
  {
    BitByBit(w, x, y);
  }

  lemma ShortForms(w: Word, x: Word, y: Word)
    ensures ShortCh(w, x, y) == Ch(w, x, y) && ShortMaj(w, x, y) == Maj(w, x, y)
  {
    ShortBits(w.v, x.v, y.v);
  }

  /** The function of round i in the macros R0 to R4. */
  function Mix(i: nat, w: Word, x: Word, y: Word): Word {
    if i < 20 then ShortCh(w, x, y)
    else if i < 40 then Parity(w, x, y)
    else if i < 60 then ShortMaj(w, x, y)
    else Parity(w, x, y)
  }

  /** z, increased as the macros do it. */
  function Increased(z: Word, f: Word, w: Word, k: Word, r: Word): Word {
    Word(z.v + (f.v + w.v + k.v + r.v))
  }

  /** What a macro of round i makes of z. */
  function Mixed(i: nat, v: Word, w: Word, x: Word, y: Word, z: Word, word: Word): Word {
    Increased(z, Mix(i, w, x, y), word, Kt(i), Rotl5(v))
  }

  lemma MixedIsStep(i: nat, v: Word, w: Word, x: Word, y: Word, z: Word, word: Word)
    ensures State(Mixed(i, v, w, x, y, z, word), v, Rotl30(w), x, y) == Step(i, State(v, w, x, y, z), word)
  {
    MixIsFt(i, w, x, y);
    SumOrder(z, Mix(i, w, x, y), word, Kt(i), Rotl5(v));
  }

  lemma MixIsFt(i: nat, w: Word, x: Word, y: Word)
    ensures Mix(i, w, x, y) == Ft(i, w, x, y)
  {
    ShortForms(w, x, y);
  }

  lemma SumOrder(z: Word, f: Word, w: Word, k: Word, r: Word)
    ensures Increased(z, f, w, k, r) == Sum(r, f, z, k, w)
  {}

  // ---------------------------------------------------------------- the circular schedule

  /** What word t of the buffer holds before round i. */
  function Held(m: seq<bv8>, i: nat, t: nat): Word
    requires |m| == 64 && t < 16
  {
    if i == 0 then RawWord(m, t) else if (i - 1) % 16 == t then W(m, i - 1) else Held(m, i - 1, t)
  }

  /** The last 16 words of the schedule are in the buffer. */
  lemma {:induction false} HeldRecent(m: seq<bv8>, i: nat, s: nat)
    requires |m| == 64 && s < i <= s + 16
    ensures Held(m, i, s % 16) == W(m, s)
    decreases i
  {
    if s < i - 1 {
      assert (i - 1) % 16 != s % 16;
      HeldRecent(m, i - 1, s);
    }
  }

  /** Words that are still to come are as they were read. */
  lemma {:induction false} HeldRaw(m: seq<bv8>, i: nat, t: nat)
    requires |m| == 64 && i <= t < 16
    ensures Held(m, i, t) == RawWord(m, t)
  {
    if i > 0 {
      HeldRaw(m, i - 1, t);
    }
  }

  ghost predicate Holds(block: seq<Word>, m: seq<bv8>, i: nat) {
    |block| == 16 && |m| == 64 && forall t {:trigger block[t]} :: 0 <= t < 16 ==> block[t] == Held(m, i, t)
  }

  lemma HoldsNext(block: seq<Word>, m: seq<bv8>, i: nat)
    requires Holds(block, m, i)
    ensures Holds(block[i % 16 := W(m, i)], m, i + 1)
  {}

  lemma Slots(i: nat)
    requires i >= 16
    ensures (i + 13) % 16 == (i - 3) % 16 && (i + 8) % 16 == (i - 8) % 16
    ensures (i + 2) % 16 == (i - 14) % 16 && i % 16 == (i - 16) % 16
  {
    SlotAgain(i - 3);
    SlotAgain(i - 8);
    SlotAgain(i - 14);
    SlotAgain(i - 16);
  }

  lemma SlotAgain(j: nat)
    ensures (j + 16) % 16 == j % 16
  {}

  /** blk0 and blk: word i of the schedule, which replaces word i - 16. */
  method Blk(block: array<Word>, ghost m: seq<bv8>, i: nat) returns (w: Word)
    requires block.Length == 16 && Holds(block[..], m, i)
    modifies block
    ensures w == W(m, i) && Holds(block[..], m, i + 1)
  {
    HoldsNext(block[..], m, i);
    if i < 16 {
      HeldRaw(m, i, i);
      SwappedIsBigEndian(m, i);
      w := Swapped(block[i]);
    } else {
      HeldRecent(m, i, i - 3);
      HeldRecent(m, i, i - 8);
      HeldRecent(m, i, i - 14);
      HeldRecent(m, i, i - 16);
      Slots(i);
      w := RotlXor(block[(i + 13) % 16], block[(i + 8) % 16], block[(i + 2) % 16], block[i % 16]);
    }
    block[i % 16] := w;
  }

  /** The macros R0 to R4: z and w are updated, and all five change places. */
  method Round(block: array<Word>, ghost m: seq<bv8>, i: nat, v: Word, w: Word, x: Word, y: Word, z: Word)
    returns (w': Word, z': Word)
    requires block.Length == 16 && Holds(block[..], m, i)
    modifies block
    ensures Holds(block[..], m, i + 1)
    ensures State(z', v, w', x, y) == Step(i, State(v, w, x, y, z), W(m, i))
  {
    var word := Blk(block, m, i);
    z', w' := Mixed(i, v, w, x, y, z, word), Rotl30(w);
    MixedIsStep(i, v, w, x, y, z, word);
  }

  /** Five rounds, after which the variables are back in their places. */
  method FiveRounds(block: array<Word>, ghost m: seq<bv8>, i: nat, s: State, ghost s0: State) returns (r: State)
    requires block.Length == 16 && Holds(block[..], m, i) && s == Steps(s0, m, i)
    modifies block
    ensures Holds(block[..], m, i + 5) && r == Steps(s0, m, i + 5)
  {
    var a, b, c, d, e := s.a, s.b, s.c, s.d, s.e;
    b, e := Round(block, m, i, a, b, c, d, e);
    assert State(e, a, b, c, d) == Steps(s0, m, i + 1);
    a, d := Round(block, m, i + 1, e, a, b, c, d);
    assert State(d, e, a, b, c) == Steps(s0, m, i + 2);
    e, c := Round(block, m, i + 2, d, e, a, b, c);
    assert State(c, d, e, a, b) == Steps(s0, m, i + 3);
    d, b := Round(block, m, i + 3, c, d, e, a, b);
    assert State(b, c, d, e, a) == Steps(s0, m, i + 4);
    c, a := Round(block, m, i + 4, b, c, d, e, a);
    r := State(a, b, c, d, e);
  }

  /** The copy of the buffer into the workspace. */
  method Load(buffer: seq<bv8>) returns (block: array<Word>)
    requires |buffer| == 64
    ensures fresh(block) && block.Length == 16 && Holds(block[..], buffer, 0)
  {
    block := new Word[16](t requires 0 <= t < 16 => RawWord(buffer, t));
  }

  /** The rounds, five at a time. */
  method Rounds(block: array<Word>, ghost buffer: seq<bv8>, state: State, n: nat, ghost fives: nat)
    returns (s: State)
    requires block.Length == 16 && Holds(block[..], buffer, 0) && n == 5 * fives
    modifies block
    ensures s == Steps(state, buffer, n)
  {
    s := state;
    var i := 0;
    ghost var k := 0;
    while i < n
      invariant i == 5 * k <= n && Holds(block[..], buffer, i)
      invariant s == Steps(state, buffer, i)
    {
      s := FiveRounds(block, buffer, i, s, state);
      i := i + 5;
      k := k + 1;
    }
  }

  /** SHA1Transform: 80 rounds, written out. */
  method Transform(state: State, buffer: seq<bv8>) returns (r: State)
    requires |buffer| == 64
    ensures r == Compress(state, buffer)
  {
    var block := Load(buffer);
    var s := Rounds(block, buffer, state, 80, 16);
    r := AddState(state, s);
  }
}
