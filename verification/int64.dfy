/** Java's 64-bit signed `long` and its wrap-around subtraction. */
module Int64 {

  const TwoTo63: int := 0x8000_0000_0000_0000
  const TwoTo64: int := 0x1_0000_0000_0000_0000

  /** True when `x` is representable as a Java `long`. */
  predicate InRange(x: int) {
    -TwoTo63 <= x < TwoTo63
  }

  /** The values of a Java `long`. */
  type Long = x: int | InRange(x)

  /** Two's-complement truncation of an exact integer to 64 bits. */
  function Wrap(x: int): (r: Long)
    ensures InRange(x) ==> r == x
    ensures (x - r) % TwoTo64 == 0
  {
    (x + TwoTo63) % TwoTo64 - TwoTo63
  }

  /** Java's `a - b` on longs: the exact difference when it fits, the wrapped one otherwise. */
  function Sub(a: Long, b: Long): (r: Long)
    ensures InRange(a - b) ==> r == a - b
    ensures (a - b - r) % TwoTo64 == 0
    ensures !InRange(a - b) ==> r != a - b
  {
    Wrap(a - b)
  }
}
