/** Offsets into memory: 64-bit numbers of which the greatest stands for "unknown". */
module Offsets {

  const UNKNOWN: nat := 0xFFFF_FFFF_FFFF_FFFF

  type Offset = n: nat | n <= UNKNOWN

  /** Addition saturates. */
  function Plus(a: Offset, b: Offset): (r: Offset)
    ensures a + b <= UNKNOWN ==> r == a + b
    ensures a + b > UNKNOWN ==> r == UNKNOWN
  {
    if a == UNKNOWN || b == UNKNOWN || a >= UNKNOWN - b then UNKNOWN else a + b
  }

  /** A difference that involves the unknown offset, or would be negative, is unknown. */
  function Minus(a: Offset, b: Offset): (r: Offset)
    ensures a < UNKNOWN && b <= a ==> r == a - b
    ensures !(a < UNKNOWN && b <= a) ==> r == UNKNOWN
  {
    if a == UNKNOWN || b == UNKNOWN || a < b then UNKNOWN else a - b
  }
}
