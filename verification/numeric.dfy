/** Real-valued helpers shared by the scripts: `max`, `min` and the
    `max(lo, min(hi, x))` clamp they all use. */
module Numeric {

  function Max(a: real, b: real): real { if a >= b then a else b }

  function Min(a: real, b: real): real { if a <= b then a else b }

  function AbsR(x: real): real { if x < 0.0 then -x else x }

  /** `max(lo, min(hi, x))`. */
  function Clamp(x: real, lo: real, hi: real): (r: real)
    ensures lo <= hi ==> lo <= r <= hi
    ensures lo <= x <= hi ==> r == x
    ensures lo <= hi && x < lo ==> r == lo
    ensures lo <= hi && x > hi ==> r == hi
  {
    Max(lo, Min(hi, x))
  }

  /** Clamping is monotone in the clamped value. */
  lemma ClampMonotone(x: real, x': real, lo: real, hi: real)
    requires x <= x'
    ensures Clamp(x, lo, hi) <= Clamp(x', lo, hi)
  {
  }
}
