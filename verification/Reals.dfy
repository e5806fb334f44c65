// The floating-point helpers of the flash effect and its preferences, on real numbers.

module Reals {
  function Fmax(a: real, b: real): real {
    if a < b then b else a
  }

  function Fmin(a: real, b: real): real {
    if b < a then b else a
  }

  /** The source's clamp macro; with crossed bounds the lower one wins. */
  function Clamp(x: real, lo: real, hi: real): real {
    Fmax(lo, Fmin(hi, x))
  }
}
