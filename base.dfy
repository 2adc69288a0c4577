/** Types and helpers shared by every module of the analyzer's model. */
module Base {

  /** A symbol of the analyzed sequence (a Java byte; only equality matters). */
  newtype byte = b: int | -128 <= b < 128

  /** Java's Math.max on ints. */
  function Max(a: int, b: int): (m: int)
    ensures a <= m && b <= m && (m == a || m == b)
  {
    if a >= b then a else b
  }
}
