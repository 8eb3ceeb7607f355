/**
 * The C++ integer types the benchmark uses, with their ranges written out,
 * and the C++ semantics of signed division.
 */
module CTypes {

  const INT32_MIN: int := -0x8000_0000
  const INT32_MAX: int := 0x7fff_ffff
  const TWO_TO_64: int := 0x1_0000_0000_0000_0000

  /** A C++ `int`: every arithmetic result must stay in range (overflow is undefined). */
  newtype int32 = x: int | INT32_MIN <= x <= INT32_MAX

  /** A C++ `unsigned char`. */
  newtype uint8 = x: int | 0 <= x < 0x100

  /** A C++ `unsigned long long`: arithmetic on it wraps modulo 2^64. */
  newtype uint64 = x: int | 0 <= x < TWO_TO_64

  /**
   * C++ `a / d` for d > 0: the quotient is truncated toward zero, so the
   * remainder takes the sign of the dividend (Dafny's own `/` is Euclidean).
   */
  function TruncDiv(a: int, d: int): (q: int)
    requires d > 0
    ensures 0 <= a ==> 0 <= q && q * d <= a < q * d + d
    ensures a < 0 ==> q <= 0 && q * d - d < a <= q * d
  {
    if a >= 0 then a / d else -((-a) / d)
  }
}
