/** Go's fixed-width integers as the program uses them: `int` (64 bits on the
    platforms it targets), `int32` for the declared puzzle dimensions, and the
    two's-complement wrap-around of their arithmetic and conversions. */
module GoInt {

  const INT_MIN: int := -0x8000_0000_0000_0000
  const INT_MAX: int := 0x7fff_ffff_ffff_ffff
  const INT_MODULUS: int := 0x1_0000_0000_0000_0000

  const INT32_MIN: int := -0x8000_0000
  const INT32_MAX: int := 0x7fff_ffff
  const INT32_MODULUS: int := 0x1_0000_0000

  /** Go's `int`. */
  type Int = x: int | INT_MIN <= x <= INT_MAX

  /** Go's `int32`. */
  type Int32 = x: int | INT32_MIN <= x <= INT32_MAX

  /** The `int` Go stores for the exact sum or difference `x` of two `int`s:
      the one value of the type that is congruent to `x` modulo 2^64. */
  function Wrap(x: int): (r: Int)
    requires INT_MIN + INT_MIN <= x <= INT_MAX - INT_MIN
    ensures r == x || r == x - INT_MODULUS || r == x + INT_MODULUS
    ensures INT_MIN <= x <= INT_MAX ==> r == x
  {
    if x > INT_MAX then x - INT_MODULUS
    else if x < INT_MIN then x + INT_MODULUS
    else x
  }

  /** The conversion `int32(n)`: keeps the low 32 bits of `n`. */
  function ToInt32(n: int): (r: Int32)
    ensures INT32_MIN <= n <= INT32_MAX ==> r == n
  {
    (n - INT32_MIN) % INT32_MODULUS + INT32_MIN
  }

  /** Undoing an addition of `d` by a subtraction of `d` gives back the
      original `int`, whether or not either operation wrapped. */
  lemma WrapCancels(x: Int, d: Int)
    ensures Wrap(Wrap(x + d) - d) == x
    ensures Wrap(Wrap(x - d) + d) == x
  {
  }

  /** A length from 2^31 upwards converts to an `int32` different from the
      length itself: the conversion is exact only below that bound. */
  lemma ToInt32Truncates()
    ensures ToInt32(INT32_MAX + 1) == INT32_MIN
    ensures ToInt32(INT32_MODULUS) == 0
  {
  }
}
