module Numbers {
  /** Conversion to an integer drops the fraction, towards zero. */
  function Truncate(x: real): int { if x >= 0.0 then x.Floor else -(-x).Floor }
}
