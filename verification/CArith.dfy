/**
 C integer arithmetic on the 64-bit build: `size_t` wraps modulo 2^64 (ISO/IEC 9899:2011, section
 6.2.5), and conversion between `size_t` and `signed long` is two's complement (section 6.3.1.3).
 Signed addition has no wrapped result; its range is a precondition where it is used.
 */
module CArith {
  const TWO_63: int := 0x8000_0000_0000_0000
  const TWO_64: int := 0x1_0000_0000_0000_0000

  type SizeT = x: int | 0 <= x < 0x1_0000_0000_0000_0000
  type Long = x: int | -0x8000_0000_0000_0000 <= x < 0x8000_0000_0000_0000

  /** The `size_t` a mathematical result wraps to. */
  function ToSize(x: int): (r: SizeT)
    ensures 0 <= x < TWO_64 ==> r == x
    ensures -TWO_64 <= x < 0 ==> r == x + TWO_64
    ensures TWO_64 <= x < 2 * TWO_64 ==> r == x - TWO_64
  {
    x % TWO_64
  }

  /** A `size_t` converted to `signed long`. */
  function ToLong(x: SizeT): (r: Long)
    ensures ToSize(r) == x
  {
    if x < TWO_63 then x else x - TWO_64
  }

  /** Negating a `size_t` and passing it as `signed long` gives the negative number, for sizes up to 2^63. */
  lemma NegatedSize(x: SizeT)
    ensures ToLong(ToSize(0 - x)) == 0 - x <==> x <= TWO_63
  {
  }
}
