/** The C integer types the sources use, as ranges of the mathematical integers. */
module Machine {

  const U16_MAX := 0xFFFF
  const U64_MAX := 0xFFFF_FFFF_FFFF_FFFF

  /** size_t is at least 32 bits wide; nothing depends on its actual width. */
  type SizeLimit = n: int | 0xFFFF_FFFF <= n witness 0xFFFF_FFFF
  const SIZE_MAX: SizeLimit

  type U8 = x: int | 0 <= x <= 0xFF
  type U16 = x: int | 0 <= x <= 0xFFFF
  type U32 = x: int | 0 <= x <= 0xFFFF_FFFF
  type U64 = x: int | 0 <= x <= U64_MAX
  type SizeT = x: int | 0 <= x <= SIZE_MAX

  /** A byte on the wire or in a buffer. */
  type Byte = U8

  function Min(a: int, b: int): int {
    if a < b then a else b
  }

  function Max(a: int, b: int): int {
    if a < b then b else a
  }

  /** A 64-bit counter after `n` increments: it sticks at its maximum instead of wrapping. */
  function AddSaturating(counter: U64, n: nat): U64 {
    Min(counter + n, U64_MAX)
  }

  /** One increment, as the sources write it. */
  function Increment(counter: U64): (c: U64)
    ensures c == AddSaturating(counter, 1)
  {
    if counter != U64_MAX then counter + 1 else counter
  }

  lemma SubsetSize<T>(small: set<T>, large: set<T>)
    requires small <= large
    ensures |small| <= |large|
  {
    assert large == small + (large - small);
  }
}
