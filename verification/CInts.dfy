/** Fixed-width integer behaviour of C that the driver relies on, written over `int`. */
module CInts {
  import Nonlinear

  const TWO_16: int := 0x1_0000
  const TWO_32: int := 0x1_0000_0000
  const TWO_63: int := 0x8000_0000_0000_0000
  const TWO_64: int := 0x1_0000_0000_0000_0000

  type byte = x: int | 0 <= x < 0x100
  type u16 = x: int | 0 <= x < TWO_16
  type u32 = x: int | 0 <= x < TWO_32
  type u64 = x: int | 0 <= x < TWO_64
  type s32 = x: int | -0x8000_0000 <= x < 0x8000_0000
  type s64 = x: int | -TWO_63 <= x < TWO_63

  /** Conversion to `u8`. */
  function ToByte(x: int): byte { x % 0x100 }

  /** Conversion to `u16`. */
  function ToU16(x: int): u16 { x % TWO_16 }

  /** Conversion to `u32`; also unsigned 32-bit wrap-around. */
  function ToU32(x: int): u32 { x % TWO_32 }

  /** Conversion to `u64`; also unsigned 64-bit wrap-around. */
  function ToU64(x: int): u64 { x % TWO_64 }

  /** Reinterpretation of an `unsigned int` as an `int`. */
  function ToS32(x: u32): s32 { if x < 0x8000_0000 then x else x - TWO_32 }

  /** Reinterpretation of a `u64` as a `long`. */
  function ToS64(x: u64): s64 { if x < TWO_63 then x else x - TWO_64 }

  /** Unsigned division. */
  function DivU32(x: u32, y: u32): (q: u32)
    requires y != 0
    ensures q <= x
  {
    Nonlinear.DivAntitone(x, y, y);
    var a: int := x;
    a / y
  }

  /** Division of C, which truncates toward zero. */
  function TruncDiv(x: int, y: int): int
    requires y > 0
  {
    if x >= 0 then x / y else -((-x) / y)
  }

  /** Remainder of C, which has the sign of the dividend. */
  function TruncMod(x: int, y: int): int
    requires y > 0
  {
    x - TruncDiv(x, y) * y
  }

  /** They are the quotient and remainder with the remainder's sign that of the dividend. */
  lemma TruncatesTowardZero(x: int, y: int)
    requires y > 0
    ensures TruncDiv(x, y) * y + TruncMod(x, y) == x && -y < TruncMod(x, y) < y
    ensures if x >= 0 then TruncMod(x, y) >= 0 else TruncMod(x, y) <= 0
  {
    Nonlinear.DivIs(if x >= 0 then x else -x, y, 0);
  }

  /** Reinterpretation keeps the bits: the value modulo 2^32 or 2^64, in the signed range. */
  lemma ReinterpretationKeepsBits(x: u32, z: u64)
    ensures ToU32(ToS32(x)) == x && ToU64(ToS64(z)) == z
    ensures -0x8000_0000 <= ToS32(x) < 0x8000_0000
    ensures -0x8000_0000_0000_0000 <= ToS64(z) < 0x8000_0000_0000_0000
  {
  }
}
