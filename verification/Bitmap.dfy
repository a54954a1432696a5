/** Bits of a block bitmap, eight to a byte. */
module Bitmap {

  /** 1 << i. */
  function Mask(i: nat): bv8
    requires i < 8
  {
    match i
    case 0 => 0x01 case 1 => 0x02 case 2 => 0x04 case 3 => 0x08
    case 4 => 0x10 case 5 => 0x20 case 6 => 0x40 case _ => 0x80
  }

  predicate TestBit(b: bv8, i: nat)
    requires i < 8
  {
    b & Mask(i) != 0
  }

  predicate IsSet(bits: seq<bv8>, k: nat)
    requires k < 8 * |bits|
  {
    TestBit(bits[k / 8], k % 8)
  }

  lemma SetBitTest(b: bv8, i: nat, j: nat)
    requires i < 8 && j < 8
    ensures TestBit(b | Mask(i), j) <==> i == j || TestBit(b, j)
  {
    assert Mask(i) & Mask(j) != 0 <==> i == j;
  }

  lemma ClearBitTest(b: bv8, i: nat, j: nat)
    requires i < 8 && j < 8
    ensures TestBit(b & !Mask(i), j) <==> i != j && TestBit(b, j)
  {
    assert Mask(i) & Mask(j) != 0 <==> i == j;
  }

  lemma FullByte(j: nat)
    requires j < 8
    ensures TestBit(0xff, j)
  {}

  lemma ZeroByte(b: bv8)
    ensures b == 0 <==> forall j :: 0 <= j < 8 ==> !TestBit(b, j)
  {
    assert b != 0 ==> TestBit(b, 0) || TestBit(b, 1) || TestBit(b, 2) || TestBit(b, 3)
                      || TestBit(b, 4) || TestBit(b, 5) || TestBit(b, 6) || TestBit(b, 7);
  }

  /** bitmap_set_bit on the whole bitmap. */
  lemma SetAt(bits: seq<bv8>, k: nat, m: nat)
    requires k < 8 * |bits| && m < 8 * |bits|
    ensures IsSet(bits[k / 8 := bits[k / 8] | Mask(k % 8)], m) <==> m == k || IsSet(bits, m)
  {
    if m / 8 == k / 8 {
      SetBitTest(bits[k / 8], k % 8, m % 8);
    }
  }

  lemma ClearAt(bits: seq<bv8>, k: nat, m: nat)
    requires k < 8 * |bits| && m < 8 * |bits|
    ensures IsSet(bits[k / 8 := bits[k / 8] & !Mask(k % 8)], m) <==> m != k && IsSet(bits, m)
  {
    if m / 8 == k / 8 {
      ClearBitTest(bits[k / 8], k % 8, m % 8);
    }
  }

  /** bitmap_set_8_bits on the whole bitmap. */
  lemma FillAt(bits: seq<bv8>, k: nat, m: nat)
    requires k % 8 == 0 && k < 8 * |bits| && m < 8 * |bits|
    ensures IsSet(bits[k / 8 := 0xff], m) <==> k <= m < k + 8 || IsSet(bits, m)
  {
    FullByte(m % 8);
  }

  lemma ByteClear(bits: seq<bv8>, k: nat)
    requires k % 8 == 0 && k < 8 * |bits|
    ensures bits[k / 8] == 0 <==> forall m :: k <= m < k + 8 ==> !IsSet(bits, m)
  {
    ZeroByte(bits[k / 8]);
    if bits[k / 8] != 0 {
      var j :| 0 <= j < 8 && TestBit(bits[k / 8], j);
      assert IsSet(bits, k + j);
    }
  }
}
