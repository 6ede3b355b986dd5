/**
 * Go's `int` on the 64-bit targets the interpreter is built for: a signed
 * two's-complement word whose `+` and `-` wrap around modulo 2^64.
 */
module GoInt {
  const INT64_MIN: int := -0x8000_0000_0000_0000
  const INT64_MAX: int := 0x7fff_ffff_ffff_ffff
  const MODULUS: int := 0x1_0000_0000_0000_0000

  type int64 = x: int | INT64_MIN <= x <= INT64_MAX

  /**
   * The machine result of an addition or subtraction whose exact value is
   * `x`: `x` itself when it fits, otherwise `x` shifted by one whole turn.
   */
  function Wrap(x: int): (r: int64)
    ensures INT64_MIN <= x <= INT64_MAX ==> r == x
    ensures INT64_MAX < x <= INT64_MAX + MODULUS ==> r == x - MODULUS
    ensures INT64_MIN - MODULUS <= x < INT64_MIN ==> r == x + MODULUS
  {
    (x - INT64_MIN) % MODULUS + INT64_MIN
  }

  /** Two 64-bit operands can overflow by at most one turn, and the wrapped sum never fits the exact one. */
  lemma WrapSum(a: int64, b: int64)
    ensures a + b > INT64_MAX ==> Wrap(a + b) == a + b - MODULUS && Wrap(a + b) < 0
    ensures a - b > INT64_MAX ==> Wrap(a - b) == a - b - MODULUS && Wrap(a - b) < 0
  {
  }
}
