/**
 * 32-bit unsigned arithmetic, written out explicitly: the job counters are
 * `std::atomic<unsigned>` and the parallel-for ranges are `unsigned`, so
 * increments, decrements and differences wrap modulo 2^32.
 */
module UInt32 {

  const U32_LIMIT: int := 0x1_0000_0000

  type u32 = x: int | 0 <= x < U32_LIMIT

  /** `++x` on an unsigned 32-bit value. */
  function Inc32(x: u32): (r: u32)
    ensures x < U32_LIMIT - 1 ==> r == x + 1
    ensures x == U32_LIMIT - 1 ==> r == 0
  {
    (x + 1) % U32_LIMIT
  }

  /** `--x` on an unsigned 32-bit value: zero wraps to the largest value. */
  function Dec32(x: u32): (r: u32)
    ensures x > 0 ==> r == x - 1
    ensures x == 0 ==> r == U32_LIMIT - 1
    ensures r == 0 <==> x == 1
  {
    (x - 1) % U32_LIMIT
  }

  /** `a - b` on unsigned 32-bit values. */
  function Sub32(a: u32, b: u32): (r: u32)
    ensures b <= a ==> r == a - b
    ensures a < b ==> r == U32_LIMIT + a - b
    ensures r == 0 <==> a == b
  {
    (a - b) % U32_LIMIT
  }

  /** `a + b` on unsigned 32-bit values. */
  function Add32(a: u32, b: u32): (r: u32)
    ensures a + b < U32_LIMIT ==> r == a + b
    ensures a + b >= U32_LIMIT ==> r == a + b - U32_LIMIT
  {
    (a + b) % U32_LIMIT
  }
}
