/** The C `int` type of the source's flags and indices (32 bits, two's complement). */
module CppInts {
  const INT_MAX: int := 2147483647
  const INT_MIN: int := -2147483648

  type Int32 = x: int | INT_MIN <= x <= INT_MAX

  /**
   * Bit b of a C int, as `x & (1 << b)` tests it: the bit of the 32-bit two's-complement
   * pattern, which for a negative x is the bit of x + 2^32.
   */
  function Bit(x: Int32, b: nat): bool
    requires b < 32
  {
    ((x % 0x1_0000_0000) / Pow2(b)) % 2 == 1
  }

  function Pow2(b: nat): (r: nat)
    ensures r >= 1
  {
    if b == 0 then 1 else 2 * Pow2(b - 1)
  }
}
