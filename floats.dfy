/**
 * The f64 values that reach the handlers from Discord. Only the cases the
 * source tells apart are kept: a finite number (as an exact real), NaN and the
 * two infinities. Comparisons follow IEEE 754: every comparison with NaN is
 * false, and the infinities compare below and above every finite number.
 */
module Floats {

  datatype F64 = Num(r: real) | NaN | PosInf | NegInf

  /** `f64::is_finite` */
  predicate IsFinite(x: F64)
  {
    x.Num?
  }

  /** `f64::is_nan() || f64::is_infinite()` */
  predicate IsNanOrInfinite(x: F64)
  {
    !x.Num?
  }

  /** `x < c` for a finite constant `c`. */
  predicate Below(x: F64, c: real)
  {
    match x
    case Num(r) => r < c
    case NegInf => true
    case _ => false
  }

  /** `x <= c` for a finite constant `c`. */
  predicate AtMost(x: F64, c: real)
  {
    match x
    case Num(r) => r <= c
    case NegInf => true
    case _ => false
  }

  /** `x == c` for a finite constant `c`. */
  predicate EqualTo(x: F64, c: real)
  {
    x.Num? && x.r == c
  }

  /** `f64::clamp(lo, hi)` on a finite value. */
  function Clamp(x: real, lo: real, hi: real): (r: real)
    requires lo <= hi
    ensures lo <= r <= hi
    ensures lo <= x <= hi ==> r == x
    ensures x < lo ==> r == lo
    ensures x > hi ==> r == hi
  {
    if x < lo then lo else if x > hi then hi else x
  }

  /** `f64::round` on a non-negative value: the nearest integer, halves rounded up (away from zero). */
  function RoundHalfAway(x: real): (n: nat)
    requires x >= 0.0
    ensures n as real - 0.5 <= x < n as real + 0.5
  {
    (x + 0.5).Floor
  }

  /** The nearest integer is unique: any `n` within the half-open half-unit window is the rounding. */
  lemma RoundHalfAwayUnique(x: real, n: int)
    requires x >= 0.0 && n as real - 0.5 <= x < n as real + 0.5
    ensures RoundHalfAway(x) == n
  {
  }

  /** Rounding keeps the order of its arguments. */
  lemma RoundHalfAwayMonotonic(x: real, y: real)
    requires 0.0 <= x <= y
    ensures RoundHalfAway(x) <= RoundHalfAway(y)
  {
  }
}
