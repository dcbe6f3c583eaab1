/**
 * The .NET value types the car rental core is written over, and the
 * Option type that stands for a reference that may be null.
 */
module Primitives {

  /** Stands for a value of a nullable reference type: `None` is `null`. */
  datatype Option<+T> = None | Some(value: T)

  /** A `Guid` key. The model uses only its equality, over its 128-bit range. */
  newtype Guid = x: int | 0 <= x < 0x1_0000_0000_0000_0000_0000_0000_0000_0000

  /** C# `int`. */
  newtype int32 = x: int | -0x8000_0000 <= x < 0x8000_0000

  /** The largest magnitude a C# `decimal` holds: 2^96 - 1. */
  const DecimalMax: real := 79228162514264337593543950335.0

  /** C# `decimal`, exact, within its range (its 28-digit scale is not modelled). */
  type decimal = r: real | -DecimalMax <= r <= DecimalMax

  /** A code point above U+FFFF is two UTF-16 code units in a .NET string. */
  function Utf16Units(c: char): (n: nat)
    ensures 1 <= n <= 2
  {
    if c as int > 0xFFFF then 2 else 1
  }

  /** `string.Length` in .NET: the number of UTF-16 code units. */
  function Utf16Length(s: string): (n: nat)
    ensures |s| <= n <= 2 * |s|
    ensures n == 0 <==> s == []
  {
    if s == [] then 0 else Utf16Units(s[0]) + Utf16Length(s[1..])
  }
}
