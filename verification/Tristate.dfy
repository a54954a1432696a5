/** The three values n < m < y of a configuration symbol and their connectives. */
module Tristate {

  type Tri = t: int | 0 <= t <= 2

  const NO: Tri := 0
  const MOD: Tri := 1
  const YES: Tri := 2

  function TriAnd(x: Tri, y: Tri): Tri { if x < y then x else y }

  function TriOr(x: Tri, y: Tri): Tri { if x > y then x else y }

  function TriNot(x: Tri): Tri { 2 - x }

  /** What a comparison yields: never m. */
  function TriBool(b: bool): Tri { if b then YES else NO }

  /** A rewrite that may only disturb an m. */
  predicate OnlyModMayChange(before: Tri, after: Tri) { before != MOD ==> after == before }
}
