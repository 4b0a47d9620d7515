/**
 * Real-number counterparts of the handful of `f32` operations the ray tracer
 * uses.  `f32` values are modelled as exact reals: rounding, infinities and
 * NaN are not represented.
 */
module Numeric {

  /** `f32::min`. */
  function Min(a: real, b: real): (r: real)
    ensures r <= a && r <= b
    ensures r == a || r == b
  {
    if a <= b then a else b
  }

  /** `f32::max`. */
  function Max(a: real, b: real): (r: real)
    ensures r >= a && r >= b
    ensures r == a || r == b
  {
    if a >= b then a else b
  }

  /** `f32::abs`. */
  function Abs(x: real): (r: real)
    ensures r >= 0.0
    ensures r == x || r == -x
  {
    if x < 0.0 then -x else x
  }

  /**
   * `f32::clamp(lo, hi)`: the value is kept when it lies in [lo, hi] and is
   * replaced by the nearer bound otherwise.
   */
  function Clamp(x: real, lo: real, hi: real): (r: real)
    requires lo <= hi
    ensures lo <= r <= hi
    ensures lo <= x <= hi ==> r == x
    ensures x < lo ==> r == lo
    ensures x > hi ==> r == hi
  {
    if x < lo then lo else if x > hi then hi else x
  }

  /**
   * The `as usize` cast of an `f32`: Rust casts saturate, so a negative value
   * becomes 0, and a non-negative value is truncated toward zero.
   */
  function AsUsize(x: real): (r: nat)
    ensures x <= 0.0 ==> r == 0
    ensures x >= 0.0 ==> r as real <= x < r as real + 1.0
  {
    if x <= 0.0 then 0 else x.Floor
  }
}
