/** Reference definitions of the JSON value tokens as the parsers accept
    them (the literals and numbers of sections 3 and 6 of RFC 8259, and
    the parsers' own string grammar), together with the two Rust library
    functions that decide a `\uXXXX` escape: `u32::from_str_radix(_, 16)`
    and `char::from_u32`.

    The string grammar `StringContent` is not that of section 7 of
    RFC 8259; `DelRefused`, `SurrogatePairRefused` and
    `PlusSignedEscapeTaken` exhibit the differences:
    - a raw DEL (0x7F) is rejected, since `is_ascii_control` includes it;
    - an escaped surrogate pair such as `\uD83D\uDE00` is rejected, since
      each half alone is not a scalar value for `char::from_u32`;
    - `\u+abc` is accepted, since `from_str_radix` allows a leading '+'. */
module Grammar {
  import opened Wrappers
  import opened Bytes

  /** The bytes after the first one of `null`, `true` and `false`. */
  const NULL_SUFFIX: seq<Byte> := [0x75, 0x6C, 0x6C]
  const TRUE_SUFFIX: seq<Byte> := [0x72, 0x75, 0x65]
  const FALSE_SUFFIX: seq<Byte> := [0x61, 0x6C, 0x73, 0x65]

  predicate AllDigits(s: seq<Byte>) {
    forall k | 0 <= k < |s| :: IsDigit(s[k])
  }

  predicate AllHexDigits(s: seq<Byte>) {
    forall k | 0 <= k < |s| :: IsHexDigit(s[k])
  }

  /** The value of a run of hexadecimal digits, most significant first. */
  function HexValue(s: seq<Byte>): nat
    requires AllHexDigits(s)
  {
    if s == [] then 0 else 16 * HexValue(s[..|s| - 1]) + HexDigitValue(s[|s| - 1])
  }

  /** `u32::from_str_radix(s, 16)`: an optional '+', then at least one
      hexadecimal digit of either case, and a value that fits 32 bits. */
  function FromStrRadix16(s: seq<Byte>): Option<nat>
  {
    var digits := if |s| > 0 && s[0] == PLUS then s[1..] else s;
    if |digits| > 0 && AllHexDigits(digits) && HexValue(digits) < 0x1_0000_0000 then
      Some(HexValue(digits))
    else
      None
  }

  /** `char::from_u32`: Unicode scalar values, i.e. no surrogates. */
  predicate IsScalarValue(v: nat) {
    v < 0xD800 || 0xE000 <= v < 0x11_0000
  }

  /** The four bytes after `\u` denote a character. */
  predicate Hex4Ok(q: seq<Byte>) {
    |q| == 4 && FromStrRadix16(q).Some? && IsScalarValue(FromStrRadix16(q).value)
  }

  /** The characters that may follow a backslash on their own. */
  predicate IsSimpleEscape(b: Byte) {
    b == QUOTE || b == BACKSLASH || b == SLASH || b == LOWER_N
    || b == LOWER_T || b == LOWER_R || b == LOWER_B || b == LOWER_F
  }

  /** A byte that stands for itself inside a string. */
  predicate IsPlain(b: Byte) {
    b != QUOTE && b != BACKSLASH && !IsAsciiControl(b)
  }

  /** The content of a string between its quotes. */
  predicate StringContent(c: seq<Byte>)
    decreases |c|
  {
    if c == [] then true
    else if c[0] == BACKSLASH then
      (|c| >= 2 && IsSimpleEscape(c[1]) && StringContent(c[2..]))
      || (|c| >= 6 && c[1] == LOWER_U && Hex4Ok(c[2..6]) && StringContent(c[6..]))
    else
      IsPlain(c[0]) && StringContent(c[1..])
  }

  predicate StringText(s: seq<Byte>) {
    |s| >= 2 && s[0] == QUOTE && s[|s| - 1] == QUOTE && StringContent(s[1..|s| - 1])
  }

  /** A raw DEL is refused, although section 7 of RFC 8259 only excludes
      the bytes below 0x20. */
  lemma DelRefused()
    ensures !StringContent([DEL])
  {
  }

  /** The escaped surrogate pair `\uD83D\uDE00` (U+1F600) is refused: its
      high half alone is not a scalar value. */
  lemma SurrogatePairRefused()
    ensures !StringContent([BACKSLASH, LOWER_U, 0x44, 0x38, 0x33, 0x44, BACKSLASH, LOWER_U, 0x44, 0x45, 0x30, 0x30])
  {
    var c: seq<Byte> := [BACKSLASH, LOWER_U, 0x44, 0x38, 0x33, 0x44, BACKSLASH, LOWER_U, 0x44, 0x45, 0x30, 0x30];
    var high: seq<Byte> := [0x44, 0x38, 0x33, 0x44];
    HexValueOfFour(high);
    assert FromStrRadix16(high) == Some(0xD83D);
    assert c[2..6] == high;
    assert !IsSimpleEscape(c[1]);
  }

  /** `\u+abc` is taken as the escape of U+0ABC, because
      `from_str_radix` allows a leading '+'. */
  lemma PlusSignedEscapeTaken()
    ensures StringContent([BACKSLASH, LOWER_U, PLUS, 0x61, 0x62, 0x63])
  {
    var plus: seq<Byte> := [PLUS, 0x61, 0x62, 0x63];
    var digits: seq<Byte> := [0x61, 0x62, 0x63];
    assert plus[1..] == digits;
    assert digits[..2][..1] == digits[..1] && digits[..1][..0] == [];
    assert HexValue(digits[..1]) == 0xA;
    assert HexValue(digits[..2]) == 0xAB;
    assert HexValue(digits) == 0xABC;
    assert FromStrRadix16(plus) == Some(0xABC);
    var c: seq<Byte> := [BACKSLASH, LOWER_U, PLUS, 0x61, 0x62, 0x63];
    assert c[2..6] == plus && c[6..] == [];
  }

  /** The value of four hexadecimal digits, digit by digit. */
  lemma HexValueOfFour(q: seq<Byte>)
    requires |q| == 4 && AllHexDigits(q)
    ensures HexValue(q) == 0x1000 * HexDigitValue(q[0]) + 0x100 * HexDigitValue(q[1]) + 0x10 * HexDigitValue(q[2]) + HexDigitValue(q[3])
  {
    assert q[..3][..2] == q[..2] && q[..2][..1] == q[..1] && q[..1][..0] == [];
    assert HexValue(q[..1]) == HexDigitValue(q[0]);
    assert HexValue(q[..2]) == 16 * HexDigitValue(q[0]) + HexDigitValue(q[1]);
    assert HexValue(q[..3]) == 16 * HexValue(q[..2]) + HexDigitValue(q[2]);
    assert HexValue(q) == 16 * HexValue(q[..3]) + HexDigitValue(q[3]);
  }

  /** int = zero / ( digit1-9 *DIGIT ) */
  predicate IntPart(s: seq<Byte>) {
    |s| > 0 && IsDigit(s[0]) && AllDigits(s) && (s[0] == ZERO ==> |s| == 1)
  }

  /** frac = decimal-point 1*DIGIT */
  predicate FracPart(s: seq<Byte>) {
    |s| >= 2 && s[0] == DOT && AllDigits(s[1..])
  }

  /** exp = e [ minus / plus ] 1*DIGIT */
  predicate ExpPart(s: seq<Byte>) {
    |s| >= 2 && (s[0] == LOWER_E || s[0] == UPPER_E)
    && (var d := if s[1] == MINUS || s[1] == PLUS then 2 else 1;
        |s| > d && AllDigits(s[d..]))
  }

  function SignLength(s: seq<Byte>): nat {
    if |s| > 0 && s[0] == MINUS then 1 else 0
  }

  /** number = [ minus ] int [ frac ] [ exp ], with the fraction starting at
      `i` and the exponent at `f` (each empty when it starts at the next). */
  predicate NumberSplit(s: seq<Byte>, i: nat, f: nat) {
    SignLength(s) <= i <= f <= |s|
    && IntPart(s[SignLength(s)..i])
    && (f == i || FracPart(s[i..f]))
    && (f == |s| || ExpPart(s[f..]))
  }

  /** A number without fraction or exponent. */
  predicate IntegerText(s: seq<Byte>) {
    NumberSplit(s, |s|, |s|)
  }

  /** A number with a fraction, an exponent or both. */
  ghost predicate FloatText(s: seq<Byte>) {
    exists i: nat, f: nat :: NumberSplit(s, i, f) && i < |s|
  }
}
