/** Fixed-width integer types of the C++ target and the conversions between them.
    Dafny integers are unbounded, so every wrap-around the target performs is
    written out here once and used by name elsewhere. The target is a 32-bit
    microcontroller, so C's `int` is 32 bits wide. */
module BoundedInts {

  const TWO_TO_THE_8: int := 0x100
  const TWO_TO_THE_16: int := 0x1_0000
  const TWO_TO_THE_31: int := 0x8000_0000
  const TWO_TO_THE_32: int := 0x1_0000_0000
  const TWO_TO_THE_64: int := 0x1_0000_0000_0000_0000

  type uint8 = x: int | 0 <= x < TWO_TO_THE_8
  type uint16 = x: int | 0 <= x < TWO_TO_THE_16
  type uint32 = x: int | 0 <= x < TWO_TO_THE_32
  type uint64 = x: int | 0 <= x < TWO_TO_THE_64
  type int16 = x: int | -0x8000 <= x < 0x8000
  type int32 = x: int | -TWO_TO_THE_31 <= x < TWO_TO_THE_31

  /** Conversion of any integer to `uint64` (C's modular conversion to an unsigned type). */
  function ToUint64(x: int): (r: uint64)
    ensures exists k :: x == r + k * TWO_TO_THE_64
    ensures 0 <= x < TWO_TO_THE_64 ==> r == x
  {
    assert x == x % TWO_TO_THE_64 + (x / TWO_TO_THE_64) * TWO_TO_THE_64;
    x % TWO_TO_THE_64
  }

  /** Conversion of any integer to `uint16`, as `_seqNo++` and `htons` perform it. */
  function ToUint16(x: int): (r: uint16)
    ensures exists k :: x == r + k * TWO_TO_THE_16
    ensures 0 <= x < TWO_TO_THE_16 ==> r == x
  {
    assert x == x % TWO_TO_THE_16 + (x / TWO_TO_THE_16) * TWO_TO_THE_16;
    x % TWO_TO_THE_16
  }

  /** Conversion of a `uint16` to `int16`; GCC and Clang keep the bit pattern. */
  function ToInt16(x: uint16): (r: int16)
    ensures r == x || r == x - TWO_TO_THE_16
  {
    if x < 0x8000 then x else x - TWO_TO_THE_16
  }

  /** Conversion of any integer to the 32-bit `int` of the target, keeping the low 32 bits. */
  function ToInt32(x: int): (r: int32)
    ensures exists k :: x == r + k * TWO_TO_THE_32
    ensures -TWO_TO_THE_31 <= x < TWO_TO_THE_31 ==> r == x
  {
    var low := x % TWO_TO_THE_32;
    assert x == low + (x / TWO_TO_THE_32) * TWO_TO_THE_32;
    if low < TWO_TO_THE_31 then low
    else
      assert x == (low - TWO_TO_THE_32) + (x / TWO_TO_THE_32 + 1) * TWO_TO_THE_32;
      low - TWO_TO_THE_32
  }

  /** The `int16_t` parameter of the receive routine hands the `uint16_t` counter back unchanged. */
  lemma Int16RoundTrip(x: uint16)
    ensures ToUint16(ToInt16(x)) == x
  {
  }
}
