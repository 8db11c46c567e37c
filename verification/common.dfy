/**
 * Shared vocabulary: the fixed-width integer types of the C/C++ sources,
 * an Option type, a Result type for the exceptions and error returns, and
 * C's truncating integer division.
 */
module Common {

  /** An unsigned 8-bit value (`uint8_t`). */
  type byte = x: int | 0 <= x < 0x100

  /** An unsigned 16-bit value (`uint16_t`). */
  type u16 = x: int | 0 <= x < 0x1_0000

  datatype Option<+T> = None | Some(value: T)

  /** A computation that either yields a value or fails with a cause,
      the way a thrown exception (or a crash) ends the program. */
  datatype Result<+T> = Ok(value: T) | Err(cause: string)

  /** Conversion of any int to `uint8_t`: reduction modulo 2^8. */
  function ToByte(v: int): (b: byte)
    ensures 0 <= v < 0x100 ==> b == v
    ensures (b - v) % 0x100 == 0
  {
    v % 0x100
  }

  /** Conversion of any int to `uint16_t`: reduction modulo 2^16. */
  function ToU16(v: int): (r: u16)
    ensures 0 <= v < 0x1_0000 ==> r == v
    ensures (r - v) % 0x1_0000 == 0
  {
    v % 0x1_0000
  }

  function Abs(a: int): nat
  {
    if a < 0 then -a else a
  }

  /** C's `/` on `int`: the quotient is truncated toward zero. */
  function CDiv(a: int, b: int): (q: int)
    requires b != 0
    ensures a >= 0 && b > 0 ==> q == a / b
    ensures a >= 0 && b > 0 ==> 0 <= q
    ensures a < 0 && b > 0 ==> q == -((-a) / b)
  {
    if a >= 0 && b > 0 then a / b
    else if a < 0 && b < 0 then (-a) / (-b)
    else if a < 0 then -((-a) / b)
    else -(a / (-b))
  }

  /** Smallest and largest of two ints. */
  function Min(a: int, b: int): int { if a <= b then a else b }
  function Max(a: int, b: int): int { if a >= b then a else b }
  // Arithmetic helpers for proofs that divide by a variable.

  lemma MulLtCancel(w: int, a: int, b: int)
    requires w > 0 && w * a < w * b
    ensures a < b
  {
    assert w * (b - a) > 0;
  }

  lemma MulDivCancel(c: int, w: int)
    requires w > 0
    ensures (c * w) / w == c
  {
    var q := (c * w) / w;
    var r := (c * w) % w;
    assert c * w == w * q + r;
    assert w * (c - q) == r;
    MulLtCancel(w, c - q, 1);
    MulLtCancel(w, -1, c - q);
  }

  /** The along-edge offset `pos * extent / 65536` of a 16-bit position
      stays within the edge, whichever way round the product is written. */
  lemma ScaleAlong(pos: int, extent: int)
    requires 0 <= pos < 0x1_0000 && extent > 0
    ensures 0 <= CDiv(pos * extent, 0x1_0000) < extent
    ensures 0 <= CDiv(extent * pos, 0x1_0000) < extent
  {
    var q := (pos * extent) / 0x1_0000;
    assert (0x1_0000 - pos) * extent > 0;
    assert 0x1_0000 * q <= pos * extent < 0x1_0000 * extent;
    MulLtCancel(0x1_0000, q, extent);
    assert extent * pos == pos * extent;
  }
}
