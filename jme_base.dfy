/**
 * The fixed-width integer types of the firmware (`uint8_t`, `uint16_t`) as
 * bounded subsets of `int`. Arithmetic is done in `int`, as C does after
 * integer promotion; every store back into a narrow variable is written out
 * with `U8` or `U16`.
 */
module JMEBase {

  type uint8 = x: int | 0 <= x < 0x100
  type uint16 = x: int | 0 <= x < 0x1_0000

  /** Conversion of a C `int` to `uint8_t`: reduction modulo 2^8. */
  function U8(x: int): (r: uint8)
    ensures 0 <= x < 0x100 ==> r == x
    ensures (x - r) % 0x100 == 0
  {
    x % 0x100
  }

  /** Conversion of a C `int` to `uint16_t`: reduction modulo 2^16. */
  function U16(x: int): (r: uint16)
    ensures 0 <= x < 0x1_0000 ==> r == x
    ensures (x - r) % 0x1_0000 == 0
  {
    x % 0x1_0000
  }

  /** Truncating twice is truncating once: `U8(U8(a) + b) == U8(a + b)`. */
  lemma U8Absorbs(a: int, b: int)
    ensures U8(U8(a) + b) == U8(a + b)
  {
    var q := a / 0x100;
    assert a == q * 0x100 + U8(a);
    assert U8(a) + b == (a + b) - q * 0x100;
    ModShift(a + b, q);
  }

  lemma ModShift(x: int, q: int)
    ensures (x - q * 0x100) % 0x100 == x % 0x100
  {
  }
}
