/**
 * Go's 64-bit signed integers: the range of `int` and `time.Duration`, the
 * two's-complement wrap-around of `*`, and the saturation `time.Time.Sub`
 * applies to differences that leave the range.
 */
module Int64 {

  const MinInt64: int := -0x8000_0000_0000_0000
  const MaxInt64: int := 0x7fff_ffff_ffff_ffff
  const Modulus: int := 0x1_0000_0000_0000_0000

  predicate InRange(x: int) {
    MinInt64 <= x <= MaxInt64
  }

  /** The int64 that two's-complement arithmetic leaves for the mathematical value x. */
  function Wrap(x: int): (r: int)
    ensures InRange(r)
    ensures (x - r) % Modulus == 0
    ensures InRange(x) ==> r == x
  {
    (x - MinInt64) % Modulus + MinInt64
  }

  /** The int64 nearest to x: what time.Time.Sub returns for a difference out of range. */
  function Saturate(x: int): (r: int)
    ensures InRange(r)
    ensures InRange(x) ==> r == x
    ensures x < MinInt64 ==> r == MinInt64
    ensures x > MaxInt64 ==> r == MaxInt64
  {
    if x < MinInt64 then MinInt64 else if x > MaxInt64 then MaxInt64 else x
  }
}
