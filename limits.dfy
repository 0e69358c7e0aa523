/**
 * The 32-bit integer types and limits that the wrapped-range header takes from
 * the kernel's <linux/types.h> and <linux/limits.h>: `u32` and `s32` as bounded
 * integer ranges, their extreme values, and the C conversions between the two
 * interpretations of one 32-bit pattern.
 */
module Limits {

  /** Number of distinct 32-bit patterns; u32 arithmetic is modulo this. */
  const MODULUS: int := 0x1_0000_0000

  const U32_MIN: int := 0
  const U32_MAX: int := 0xFFFF_FFFF
  const S32_MIN: int := -0x8000_0000
  const S32_MAX: int := 0x7FFF_FFFF

  /** `u32`: the unsigned reading of a 32-bit pattern. */
  type U32 = x: int | 0 <= x <= 0xFFFF_FFFF

  /** `s32`: the two's-complement reading of a 32-bit pattern. */
  type S32 = x: int | -0x8000_0000 <= x <= 0x7FFF_FFFF

  /**
   * The C conversion `(s32)x` of a u32: the same bits read in two's complement.
   * Patterns with the top bit set (above S32_MAX) become negative.
   */
  function ToS32(x: U32): (r: S32)
    ensures r % MODULUS == x
    ensures r < 0 <==> x > S32_MAX
  {
    if x <= S32_MAX then x else x - MODULUS
  }

  /** The C conversion `(u32)x` of an s32: the same bits read as unsigned. */
  function ToU32(x: S32): (r: U32)
    ensures ToS32(r) == x
  {
    x % MODULUS
  }

  /** The two reinterpretations are mutually inverse. */
  lemma ToU32ToS32(x: U32)
    ensures ToU32(ToS32(x)) == x
  {
  }

  /**
   * The signed reading preserves unsigned order inside each half of the
   * domain and reverses it across the halves: every pattern with the top bit
   * set reads below every pattern without it.
   */
  lemma ToS32Order(x: U32, y: U32)
    ensures (x <= S32_MAX) == (y <= S32_MAX) ==> (ToS32(x) <= ToS32(y) <==> x <= y)
    ensures x <= S32_MAX < y ==> ToS32(y) < ToS32(x)
  {
  }

  /** `x++` on a u32: the successor on the 2^32 circle, U32_MAX wrapping to 0. */
  function Succ(x: U32): (r: U32)
    ensures (r - x) % MODULUS == 1
  {
    (x + 1) % MODULUS
  }

  /** For a difference of two u32 values, Euclidean `%` adds the modulus to a negative one. */
  lemma ModDifference(a: int)
    requires -MODULUS < a < MODULUS
    ensures a % MODULUS == if a < 0 then a + MODULUS else a
  {
  }
}
