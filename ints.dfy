/** Fixed-width integer types of the C++ sources, as ranges of Dafny's unbounded integers. */
module Ints {

  /** `std::uint8_t` / `unsigned char`. */
  type byte = x: int | 0 <= x < 0x100

  /** `int` (32 bits). */
  type int32 = x: int | -0x8000_0000 <= x < 0x8000_0000

  /** `long`, taken to be 64 bits wide, as the shift by 63 in the sources requires. */
  type int64 = x: int | -0x8000_0000_0000_0000 <= x < 0x8000_0000_0000_0000

  /** `std::numeric_limits<long>::min()` and `max()`. */
  const MinLong: int := -0x8000_0000_0000_0000
  const MaxLong: int := 0x7FFF_FFFF_FFFF_FFFF

  /** Number of distinct 64-bit values. */
  const Modulus64: int := 0x1_0000_0000_0000_0000

  predicate InInt64(x: int) {
    MinLong <= x <= MaxLong
  }
}
