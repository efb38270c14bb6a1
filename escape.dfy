/** JSON string output (src/format.rs:10-30, and the same loop for `&str`
    at src/fmt.rs:115-134): a quote, each character escaped, a quote. */
module Escaping {
  import opened Wrappers
  import opened Bytes
  import opened Grammar
  import opened Utf8
  import opened Sinks
  import Raw
  import ParseProofs
  import opened Seqs

  /** Rust's `char::is_control`: the general category Cc, that is
      U+0000..U+001F and U+007F..U+009F. */
  predicate IsControl(c: char): (b: bool)
    ensures c in "\n\r\t\U{8}\U{C}" ==> b
    ensures b ==> c != '\"' && c != '\\' && c != ' '
  {
    c as int < 0x20 || 0x7F <= c as int <= 0x9F
  }

  /** A lowercase hexadecimal digit. */
  function HexDigit(d: nat): (b: Byte)
    requires d < 16
    ensures IsHexDigit(b) && HexDigitValue(b) == d
  {
    if d < 10 then ZERO + d else 0x61 + (d - 10)
  }

  /** `{:04x}`: four lowercase hexadecimal digits, most significant first. */
  function Hex4(v: nat): (r: seq<Byte>)
    requires v < 0x1_0000
    ensures |r| == 4 && AllHexDigits(r)
  {
    [HexDigit(v / 16 / 16 / 16), HexDigit(v / 16 / 16 % 16), HexDigit(v / 16 % 16), HexDigit(v % 16)]
  }

  /** The four digits read back as `v`. */
  lemma Hex4Value(v: nat)
    requires v < 0x1_0000
    ensures HexValue(Hex4(v)) == v
  {
    var r := Hex4(v);
    assert r[..3][..2][..1][..0] == [];
    assert HexValue(r[..3][..2][..1]) == v / 16 / 16 / 16;
    assert HexValue(r[..3][..2]) == v / 16 / 16;
    assert HexValue(r[..3]) == v / 16;
  }

  /** What one character becomes inside the quotes. */
  function EscapeChar(c: char): (r: seq<Byte>)
    ensures 1 <= |r| <= 6
    ensures r[0] == BACKSLASH <==> IsControl(c) || c == '\"' || c == '\\'
  {
    if c == '\n' then [BACKSLASH, LOWER_N]
    else if c == '\r' then [BACKSLASH, LOWER_R]
    else if c == '\t' then [BACKSLASH, LOWER_T]
    else if c == '\\' then [BACKSLASH, BACKSLASH]
    else if c == '\"' then [BACKSLASH, QUOTE]
    else if c == '\U{8}' then [BACKSLASH, LOWER_B]
    else if c == '\U{C}' then [BACKSLASH, LOWER_F]
    else if IsControl(c) then [BACKSLASH, LOWER_U] + Hex4(c as int)
    else EncodeScalar(c as int)
  }

  /** The escaped characters of `s`, in order. */
  function Escape(s: string): (r: seq<Byte>)
    ensures |s| <= |r| <= 6 * |s|
  {
    if s == [] then [] else EscapeChar(s[0]) + Escape(s[1..])
  }

  /** The JSON string for `s`. */
  function Quoted(s: string): (r: seq<Byte>)
    ensures |s| + 2 <= |r| && r[0] == QUOTE && r[|r| - 1] == QUOTE
  {
    [QUOTE] + Escape(s) + [QUOTE]
  }

  /** The escaper: an opening quote, the characters, the closing quote;
      the first failed write ends it. */
  method WriteEscaped(sink: Sink, s: string) returns (ok: bool)
    requires sink.Valid()
    modifies sink
    ensures sink.Valid() && Appended(old(sink.out), sink.out, Quoted(s), ok, sink.capacity)
  {
    ghost var before := sink.out;
    ok := sink.Write([QUOTE]);
    if !ok {
      AppendedFailed(before, sink.out, [QUOTE], Escape(s) + [QUOTE], sink.capacity);
      return;
    }
    ghost var open := sink.out;
    ok := WriteChars(sink, s);
    if !ok {
      AppendedFailed(open, sink.out, Escape(s), [QUOTE], sink.capacity);
      AppendedThen(before, open, sink.out, [QUOTE], Escape(s) + [QUOTE], false, sink.capacity);
      return;
    }
    AppendedThen(before, open, sink.out, [QUOTE], Escape(s), true, sink.capacity);
    ghost var body := sink.out;
    ok := sink.Write([QUOTE]);
    AppendedThen(before, body, sink.out, [QUOTE] + Escape(s), [QUOTE], ok, sink.capacity);
  }

  /** The loop over the characters: one write per character. */
  method WriteChars(sink: Sink, s: string) returns (ok: bool)
    requires sink.Valid()
    modifies sink
    ensures sink.Valid() && Appended(old(sink.out), sink.out, Escape(s), ok, sink.capacity)
  {
    ghost var before := sink.out;
    for i := 0 to |s|
      invariant sink.Valid() && sink.out == before + Escape(s[..i])
    {
      ghost var mid := sink.out;
      WroteChar(before, s, i);
      ok := sink.Write(EscapeChar(s[i]));
      if !ok {
        CharFailed(before, mid, sink.out, s, i, sink.capacity);
        return;
      }
    }
    assert s[..|s|] == s;
    return true;
  }

  /** A failed write of the escape of `s[i]` is a failed write of all of
      `Escape(s)`. */
  lemma CharFailed(before: seq<Byte>, mid: seq<Byte>, after: seq<Byte>, s: string, i: nat, capacity: nat)
    requires i < |s| && mid == before + Escape(s[..i]) && |mid| <= capacity
    requires Appended(mid, after, EscapeChar(s[i]), false, capacity)
    ensures Appended(before, after, Escape(s), false, capacity)
  {
    EscapeSplit(s, i);
    var x := mid + EscapeChar(s[i]);
    var y := Escape(s[i + 1..]);
    Assoc4(before, Escape(s[..i]), EscapeChar(s[i]), y);
    PrefixOfLonger(after, x, y);
  }

  /** One more character written keeps the loop's invariant. */
  lemma WroteChar(before: seq<Byte>, s: string, i: nat)
    requires i < |s|
    ensures before + Escape(s[..i]) + EscapeChar(s[i]) == before + Escape(s[..i + 1])
  {
    EscapeSnoc(s, i);
    Assoc(before, Escape(s[..i]), EscapeChar(s[i]));
  }

  /** Escaping one more character appends its escape. */
  lemma EscapeSnoc(s: string, i: nat)
    requires i < |s|
    ensures Escape(s[..i + 1]) == Escape(s[..i]) + EscapeChar(s[i])
  {
    TakeSnoc(s, i);
    EscapeAppend(s[..i], [s[i]]);
    EscapeSingle(s[i]);
  }

  /** Escaping splits at any character. */
  lemma EscapeSplit(s: string, i: nat)
    requires i < |s|
    ensures Escape(s) == Escape(s[..i]) + EscapeChar(s[i]) + Escape(s[i + 1..])
  {
    EscapeSnoc(s, i);
    SplitAt(s, i + 1);
    EscapeAppend(s[..i + 1], s[i + 1..]);
  }

  lemma EscapeSingle(c: char)
    ensures Escape([c]) == EscapeChar(c)
  {
    assert [c][1..] == [];
  }

  lemma {:induction false} EscapeAppend(a: string, b: string)
    ensures Escape(a + b) == Escape(a) + Escape(b)
  {
    if a == [] {
      EmptyAppend(a, b);
    } else {
      TailOfAppend(a, b);
      EscapeAppend(a[1..], b);
      Assoc(EscapeChar(a[0]), Escape(a[1..]), Escape(b));
    }
  }

  /** The escape of a character is content of the parsers' string
      grammar `Grammar.StringContent`, and it unescapes to the character's UTF-8
      bytes, whatever content follows. */
  lemma EscapeCharUnescapes(c: char, rest: seq<Byte>)
    requires StringContent(rest)
    ensures StringContent(EscapeChar(c) + rest)
    ensures Raw.Unescape(EscapeChar(c) + rest) == EncodeScalar(c as int) + Raw.Unescape(rest)
  {
    var e := EscapeChar(c);
    var t := e + rest;
    if c == '\n' || c == '\r' || c == '\t' || c == '\\' || c == '\"' || c == '\U{8}' || c == '\U{C}' {
      assert t[2..] == rest;
    } else if IsControl(c) {
      var h := Hex4(c as int);
      assert t[2..6] == h && t[6..] == rest;
      Hex4Value(c as int);
      assert FromStrRadix16(h) == Some(c as int);
    } else {
      var p := EncodeScalar(c as int);
      assert forall k | 0 <= k < |p| :: IsPlain(p[k]);
      ParseProofs.PlainThenContent(p, rest);
      UnescapePlainPrefix(p, rest);
    }
  }

  /** Plain bytes unescape to themselves. */
  lemma {:induction false} UnescapePlainPrefix(p: seq<Byte>, rest: seq<Byte>)
    requires forall k | 0 <= k < |p| :: IsPlain(p[k])
    requires StringContent(rest) && StringContent(p + rest)
    ensures Raw.Unescape(p + rest) == p + Raw.Unescape(rest)
    decreases |p|
  {
    if p == [] {
      EmptyAppend(p, rest);
    } else {
      var q := p + rest;
      HeadOfAppend(p, rest);
      TailOfAppend(p, rest);
      UnescapeConsPlain(q);
      ParseProofs.PlainThenContent(p[1..], rest);
      UnescapePlainPrefix(p[1..], rest);
      Assoc([p[0]], p[1..], Raw.Unescape(rest));
      ConsTail(p);
    }
  }

  /** A plain first byte unescapes to itself. */
  lemma UnescapeConsPlain(c: seq<Byte>)
    requires c != [] && IsPlain(c[0]) && StringContent(c)
    ensures StringContent(c[1..])
    ensures Raw.Unescape(c) == [c[0]] + Raw.Unescape(c[1..])
  {
  }

  /** What the escaper writes between the quotes is string content, and
      unescaping it gives back the UTF-8 bytes of the string. */
  lemma {:induction false} EscapeRoundTrip(s: string)
    ensures StringContent(Escape(s))
    ensures Raw.Unescape(Escape(s)) == Encode(s)
  {
    if s != [] {
      EscapeRoundTrip(s[1..]);
      EscapeCharUnescapes(s[0], Escape(s[1..]));
    }
  }

  /** The output is a JSON string token: the grammar accepts it. */
  lemma QuotedIsStringText(s: string)
    ensures StringText(Quoted(s))
  {
    EscapeRoundTrip(s);
    var q := Quoted(s);
    assert q[1..|q| - 1] == Escape(s);
  }

  /** No raw ASCII control byte survives escaping. */
  lemma {:induction false} EscapeHasNoControl(s: string)
    ensures forall k | 0 <= k < |Escape(s)| :: !IsAsciiControl(Escape(s)[k])
  {
    if s != [] {
      EscapeHasNoControl(s[1..]);
      var e := EscapeChar(s[0]);
      assert forall k | 0 <= k < |e| :: !IsAsciiControl(e[k]);
      assert Escape(s) == e + Escape(s[1..]);
    }
  }

  /** A character that is neither a control character nor `"` nor `\` is
      copied unchanged: its own UTF-8 bytes. */
  lemma CopiedVerbatim(c: char)
    requires !IsControl(c) && c != '\"' && c != '\\'
    ensures EscapeChar(c) == EncodeScalar(c as int)
  {
  }

  /** The unescaper as src/raw.rs:252 has it does not invert the escaper:
      a newline comes back as the letter `n`. */
  lemma AsWrittenBreaksRoundTrip()
    ensures StringContent(Escape("\n"))
    ensures Raw.UnescapeAsWritten(Escape("\n")) != Encode("\n")
  {
    assert Escape("\n") == [BACKSLASH, LOWER_N];
    Raw.AsWrittenKeepsLetter();
    assert Encode("\n") == [LF];
  }
}
