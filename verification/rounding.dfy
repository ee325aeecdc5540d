/** Python's built-in round() on an exact real: nearest integer, ties to even. */
module Rounding {

  /** m is the integer Python's round() picks for x: at most one half away,
      and on an exact tie the even one of the two neighbours. */
  predicate IsRoundedHalfEven(x: real, m: int) {
    && -0.5 <= m as real - x <= 0.5
    && ((m as real - x == 0.5 || x - m as real == 0.5) ==> m % 2 == 0)
  }

  function RoundHalfEven(x: real): (r: int)
    ensures IsRoundedHalfEven(x, r)
  {
    var f := x.Floor;
    var frac := x - f as real;
    if frac < 0.5 then f
    else if frac > 0.5 then f + 1
    else if f % 2 == 0 then f
    else f + 1
  }

  /** The rounding rule leaves no choice: at most one integer satisfies it. */
  lemma RoundingIsUnique(x: real, m: int, n: int)
    requires IsRoundedHalfEven(x, m) && IsRoundedHalfEven(x, n)
    ensures m == n
  {
  }
}
