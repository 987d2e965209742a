/** Shared value types: bytes, 16-bit words, decimal digits and Option. */
module Basics {

  type Byte = x: int | 0 <= x < 256

  type Word = x: int | 0 <= x < 65536

  /** The number written with the digits `hi` and `lo` in base 256. */
  function BigEndian(hi: int, lo: int): int { hi * 256 + lo }

  datatype Option<+T> = None | Some(value: T)

  predicate IsDigit(c: char) { '0' <= c <= '9' }

  /** The character of a decimal digit. */
  function DigitChar(d: int): (c: char)
    requires 0 <= d < 10
    ensures IsDigit(c) && DigitValue(c) == d
  {
    (d + 48) as char
  }

  function DigitValue(c: char): (d: int)
    requires IsDigit(c)
    ensures 0 <= d < 10
  {
    c as int - 48
  }

  /** A digit starts the text at position `i`. */
  predicate DigitAt(s: string, i: nat) { i < |s| && IsDigit(s[i]) }
}
