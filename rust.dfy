/** Rust primitive types the recorder's core is written over: fixed-width
    integers, the truncating `as` casts between them, and `Option`.

    Checked arithmetic (a debug build panics on overflow) is obtained for free
    by doing the arithmetic in the newtypes below: Dafny then proves that every
    intermediate result stays in range, just as Rust checks it. */
module Rust {

  newtype Int16 = x: int | -0x8000 <= x < 0x8000
  newtype UInt16 = x: int | 0 <= x < 0x1_0000
  newtype Int32 = x: int | -0x8000_0000 <= x < 0x8000_0000
  newtype UInt32 = x: int | 0 <= x < 0x1_0000_0000
  newtype UInt8 = x: int | 0 <= x < 0x100

  const I16_MIN: Int16 := -0x8000
  const I16_MAX: Int16 := 0x7FFF

  /** `mem::size_of` of the primitive sample types, in bytes. */
  const SIZE_OF_I16: nat := 2
  const SIZE_OF_U16: nat := 2
  const SIZE_OF_I32: nat := 4
  const SIZE_OF_F32: nat := 4

  /** `x as i16`: keeps the low 16 bits and reads them as two's complement. */
  function AsInt16(x: int): (r: Int16)
    ensures (r as int - x) % 0x1_0000 == 0
    ensures -0x8000 <= x < 0x8000 ==> r as int == x
  {
    var low := x % 0x1_0000;
    if low < 0x8000 then low as Int16 else (low - 0x1_0000) as Int16
  }

  /** `x as u16`: keeps the low 16 bits and reads them as unsigned. */
  function AsUInt16(x: int): (r: UInt16)
    ensures (r as int - x) % 0x1_0000 == 0
    ensures 0 <= x < 0x1_0000 ==> r as int == x
  {
    (x % 0x1_0000) as UInt16
  }

  function Min(a: nat, b: nat): (r: nat)
    ensures r <= a && r <= b && (r == a || r == b)
  {
    if a <= b then a else b
  }

  datatype Option<T> = None | Some(value: T)
}
