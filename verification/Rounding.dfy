/** DIV_ROUND_UP of ext4_utils.h, on numbers that do not overflow, and remainders. */
module Rounding {

  function Min(x: nat, y: nat): nat { if x <= y then x else y }

  /** How many blocks of y hold x. */
  function DivRoundUp(x: nat, y: nat): nat
    requires y > 0
  {
    if x == 0 then 0 else 1 + DivRoundUp(x - Min(x, y), y)
  }

  /** The formula of the macro. */
  lemma {:induction false} DivRoundUpFormula(x: nat, y: nat)
    requires y > 0
    ensures DivRoundUp(x, y) == (x + y - 1) / y
  {
    if x > y {
      DivRoundUpFormula(x - y, y);
      DivPlusOne(x - 1, y);
    } else if x > 0 {
      DivBelow(x - 1, y);
      DivPlusOne(x - 1, y);
    } else {
      DivBelow(y - 1, y);
    }
  }

  lemma DivBelow(x: nat, y: nat)
    requires x < y
    ensures x / y == 0
  {}

  lemma DivPlusOne(x: nat, y: nat)
    requires y > 0
    ensures (x + y) / y == 1 + x / y
  {
    var d, e := x / y, (x + y) / y;
    assert d * y <= x < d * y + y && e * y <= x + y < e * y + y;
    TimesMonotone(d + 2, e, y);
    TimesMonotone(e, d, y);
  }

  lemma TimesMonotone(a: nat, b: nat, y: nat)
    ensures a <= b ==> a * y <= b * y
  {}

  lemma ModuloIs(q: nat, r: nat, g: nat)
    requires r < g
    ensures (q * g + r) % g == r
  {
    var n := q * g + r;
    var d := n / g;
    assert d * g <= n < d * g + g;
    TimesMonotone(d + 1, q, g);
    TimesMonotone(q + 1, d, g);
  }

  /** The remainder of a number in mixed radix, from the remainders of its digits. */
  lemma SplitModulo(a: nat, d: nat, e: nat, m: nat)
    requires d > 0 && e > 0 && m == d * e > 0
    ensures a % d + d * (a / d % e) == a % m
  {
    var q := a / d;
    JoinDigits(a, q, a % d, q / e, q % e, d, e, m);
  }

  lemma JoinDigits(a: nat, q: nat, r: nat, p: nat, s: nat, d: nat, e: nat, m: nat)
    requires a == d * q + r && q == e * p + s && r < d && s < e && m == d * e > 0
    ensures a % m == r + d * s
  {
    DigitsBelow(r, s, d, e);
    Distribute(a, q, r, p, s, d, e);
    ModuloIs(p, r + d * s, m);
  }

  lemma DigitsBelow(r: nat, s: nat, d: nat, e: nat)
    requires r < d && s < e
    ensures r + d * s < d * e
  {
    TimesMonotone(s + 1, e, d);
  }

  lemma Distribute(a: nat, q: nat, r: nat, p: nat, s: nat, d: nat, e: nat)
    requires a == d * q + r && q == e * p + s
    ensures a == p * (d * e) + (r + d * s)
  {
    assert d * (e * p) == p * (d * e);
  }
}
