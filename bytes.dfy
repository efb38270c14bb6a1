/** UTF-8 code units and the byte classes the JSON text rules are built from.
    The parsers read the input as the bytes of its UTF-8 encoding, so every
    position in this model is a byte offset. */
module Bytes {

  type Byte = b: int | 0 <= b < 0x100

  const BS: Byte := 0x08
  const TAB: Byte := 0x09
  const LF: Byte := 0x0A
  const FF: Byte := 0x0C
  const CR: Byte := 0x0D
  const SPACE: Byte := 0x20
  const QUOTE: Byte := 0x22
  const PLUS: Byte := 0x2B
  const COMMA: Byte := 0x2C
  const MINUS: Byte := 0x2D
  const DOT: Byte := 0x2E
  const SLASH: Byte := 0x2F
  const ZERO: Byte := 0x30
  const NINE: Byte := 0x39
  const COLON: Byte := 0x3A
  const STAR: Byte := 0x2A
  const UPPER_E: Byte := 0x45
  const LBRACKET: Byte := 0x5B
  const BACKSLASH: Byte := 0x5C
  const RBRACKET: Byte := 0x5D
  const LOWER_B: Byte := 0x62
  const LOWER_E: Byte := 0x65
  const LOWER_F: Byte := 0x66
  const LOWER_N: Byte := 0x6E
  const LOWER_R: Byte := 0x72
  const LOWER_T: Byte := 0x74
  const LOWER_U: Byte := 0x75
  const LBRACE: Byte := 0x7B
  const RBRACE: Byte := 0x7D
  const DEL: Byte := 0x7F

  /** The four whitespace characters of section 2 of RFC 8259. */
  predicate IsWhitespace(b: Byte) {
    b == SPACE || b == TAB || b == CR || b == LF
  }

  predicate IsDigit(b: Byte) {
    ZERO <= b <= NINE
  }

  /** Rust's `char::is_ascii_control`: U+0000..U+001F and U+007F. */
  predicate IsAsciiControl(b: Byte) {
    b < 0x20 || b == DEL
  }

  predicate IsHexDigit(b: Byte) {
    IsDigit(b) || 0x41 <= b <= 0x46 || 0x61 <= b <= 0x66
  }

  function HexDigitValue(b: Byte): (v: nat)
    requires IsHexDigit(b)
    ensures v < 16
  {
    if IsDigit(b) then b - ZERO else if b <= 0x46 then b - 0x41 + 10 else b - 0x61 + 10
  }

  /** The bytes of an ASCII string literal, for stating examples. */
  function Ascii(s: string): seq<Byte>
  {
    if s == [] then [] else [(s[0] as int) % 0x100] + Ascii(s[1..])
  }
}
