/** Go's fixed-width signed integers and its truncating integer conversions.
    Dafny integers are unbounded, so every `intN(x)` conversion in the Go code
    is written out as `Wrap(x, w)`.
 */
module GoInts {

  newtype int8 = x: int | -0x80 <= x < 0x80

  newtype int32 = x: int | -0x8000_0000 <= x < 0x8000_0000

  newtype byte = x: int | 0 <= x < 0x100

  /** The element widths Go offers for signed integers. */
  datatype Width = W8 | W16 | W32 | W64

  /** Number of bytes of one value of width `w`. */
  function Bytes(w: Width): nat
  {
    match w
    case W8 => 1
    case W16 => 2
    case W32 => 4
    case W64 => 8
  }

  /** 2^(bits of w): the number of distinct values of width `w`. */
  function Modulus(w: Width): (m: int)
    ensures m > 0
  {
    match w
    case W8 => 0x100
    case W16 => 0x1_0000
    case W32 => 0x1_0000_0000
    case W64 => 0x1_0000_0000_0000_0000
  }

  /** 2^(bits of w - 1): the magnitude of the least value of width `w`. */
  function Half(w: Width): (h: int)
    ensures h > 0 && Modulus(w) == 2 * h
  {
    Modulus(w) / 2
  }

  predicate InRange(w: Width, x: int)
  {
    -Half(w) <= x < Half(w)
  }

  /** Go's conversion `intN(x)`: keep the low N bits, read back in two's complement. */
  function Wrap(x: int, w: Width): (r: int)
    ensures InRange(w, r)
    ensures InRange(w, x) ==> r == x
    ensures (x - r) % Modulus(w) == 0
  {
    var h := Half(w);
    (x + h) % Modulus(w) - h
  }

  /** Go's `int32(x)` on a 64-bit `int`. */
  function ToInt32(x: int): (r: int32)
    ensures r as int == Wrap(x, W32)
  {
    Wrap(x, W32) as int32
  }
}
