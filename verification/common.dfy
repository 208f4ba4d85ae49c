/** Small shared vocabulary: an optional value and the byte type. */
module Wrappers {

  /** A value that may be absent (Python's `None`). */
  datatype Option<+T> = None | Some(value: T)
}

module Bytes {

  /** An octet, as Python's `bytes` elements. */
  type Byte = x: int | 0 <= x < 256

  /** True when every byte is 7-bit ASCII, so decoding it as UTF-8 maps each byte to one character. */
  predicate IsAscii(bs: seq<Byte>)
  {
    forall i | 0 <= i < |bs| :: bs[i] < 128
  }
}

/** Hexadecimal digits of either case and the value they stand for. */
module HexDigits {
  import opened Wrappers

  type Nibble = x: int | 0 <= x < 16

  predicate IsHexDigit(c: char)
  {
    '0' <= c <= '9' || 'a' <= c <= 'f' || 'A' <= c <= 'F'
  }

  /** The value of a hexadecimal digit, or `None` for any other character. */
  function HexValue(c: char): (v: Option<Nibble>)
    ensures v.Some? <==> IsHexDigit(c)
  {
    if '0' <= c <= '9' then Some(c as int - '0' as int)
    else if 'A' <= c <= 'F' then Some(c as int - 'A' as int + 10)
    else if 'a' <= c <= 'f' then Some(c as int - 'a' as int + 10)
    else None
  }

  /** The upper-case digit for a four-bit value, as `%`-escapes write it. */
  function UpperDigit(d: Nibble): (c: char)
    ensures '0' <= c <= '9' || 'A' <= c <= 'F'
    ensures HexValue(c) == Some(d)
  {
    if d < 10 then ('0' as int + d) as char else ('A' as int + (d - 10)) as char
  }

  /** The lower-case digit for a four-bit value, as `\x`-escapes in `repr` write it. */
  function LowerDigit(d: Nibble): (c: char)
    ensures '0' <= c <= '9' || 'a' <= c <= 'f'
    ensures HexValue(c) == Some(d)
  {
    var u := UpperDigit(d);
    if d < 10 then u else (u as int + 32) as char
  }
}
