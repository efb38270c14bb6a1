/** Properties of the earlier parser of src/parser.rs: the tokens it
    accepts (literals and numbers as RFC 8259 defines them, strings by
    the parser's string grammar `Grammar.StringContent`), the errors it reports for the inputs its
    branches single out, and the shape of the index of a whole document. */
module OldParserProofs {
  import opened Wrappers
  import opened Bytes
  import opened Grammar
  import P = ParseSpec
  import PP = ParseProofs
  import opened OldParserSpec

  /* ---------------------------------------------------------------------
     Numbers
     --------------------------------------------------------------------- */

  /** The digits a stage of `parse_number` strips. */
  lemma DigitRun(text: seq<Byte>, p: nat, s: nat)
    requires p <= s <= |text| && Digits(text, p, s).Success?
    ensures AllDigits(text[s..Digits(text, p, s).value])
  {
    var q := Digits(text, p, s).value;
    P.TrimmedBytesMatch(text, s + 1, P.Digit);
    assert forall k | 0 <= k < q - s :: text[s..q][k] == text[s + k];
  }

  /** `int` of `parse_number` stops after an RFC 8259 `int`. */
  lemma IntToken(text: seq<Byte>, p: nat, s: nat)
    requires p <= s < |text| && NumberInt(text, p, s).Success?
    ensures IntPart(text[s..NumberInt(text, p, s).value])
  {
    if text[s] == ZERO {
      assert text[s..s + 1] == [ZERO];
    } else {
      DigitRun(text, p, s);
    }
  }

  /** `[ frac ]` consumes nothing or an RFC 8259 `frac`. */
  lemma FracToken(text: seq<Byte>, p: nat, s: nat)
    requires p <= s <= |text| && NumberFrac(text, p, s).Success?
    ensures var f := NumberFrac(text, p, s).value.0;
      f == s || FracPart(text[s..f])
  {
    if At(text, s, DOT) {
      var f := NumberFrac(text, p, s).value.0;
      DigitRun(text, p, s + 1);
      assert text[s..f][1..] == text[s + 1..f];
    }
  }

  /** `[ exp ]` consumes nothing or an RFC 8259 `exp`. */
  lemma ExpToken(text: seq<Byte>, p: nat, s: nat, integer: bool)
    requires p <= s <= |text| && NumberExp(text, p, s, integer).Success?
    ensures var e := NumberExp(text, p, s, integer).value.0;
      e == s || ExpPart(text[s..e])
  {
    if At(text, s, LOWER_E) || At(text, s, UPPER_E) {
      var e := NumberExp(text, p, s, integer).value.0;
      var d := if At(text, s + 1, MINUS) || At(text, s + 1, PLUS) then s + 2 else s + 1;
      DigitRun(text, p, d);
      assert text[s..e][d - s..] == text[d..e];
    }
  }

  /** The stages of `parse_number` from `p`, ending at `i`, `f.0` and
      `x.0`, cover an RFC 8259 number. */
  lemma StagesToken(text: seq<Byte>, p: nat, s: nat, i: nat, f: (nat, bool), x: (nat, bool))
    requires p <= s < |text| && s == (if text[p] == MINUS then p + 1 else p)
    requires NumberInt(text, p, s) == Success(i)
    requires NumberFrac(text, p, i) == Success(f)
    requires NumberExp(text, p, f.0, f.1) == Success(x)
    ensures (x.1 ==> IntegerText(text[p..x.0])) && (!x.1 ==> FloatText(text[p..x.0]))
  {
    IntToken(text, p, s);
    FracToken(text, p, i);
    ExpToken(text, p, f.0, f.1);
    PP.NumberSplitOf(text, p, i, f.0, x.0);
    var t := text[p..x.0];
    if x.1 {
      assert x == f && f.0 == i;
      assert NumberSplit(t, |t|, |t|);
    } else {
      assert i < x.0;
      assert NumberSplit(t, i - p, f.0 - p) && i - p < |t|;
    }
  }

  /** The scan of `parse_number` covers an RFC 8259 number, an integer
      only when it has neither fraction nor exponent. */
  lemma ScanToken(text: seq<Byte>, p: nat)
    requires p < |text| && NumberScan(text, p).Success?
    ensures var x := NumberScan(text, p).value;
      (x.1 ==> IntegerText(text[p..x.0])) && (!x.1 ==> FloatText(text[p..x.0]))
  {
    var s := if text[p] == MINUS then p + 1 else p;
    var i := NumberInt(text, p, s).value;
    var f := NumberFrac(text, p, i).value;
    var x := NumberExp(text, p, f.0, f.1).value;
    StagesToken(text, p, s, i, f, x);
  }

  /** `parse_number` pushes one number entry whose text is an RFC 8259
      number, followed by the end of the text or a byte of
      `NUMBER_END_PATTERN`; it is flagged an integer only when it has
      neither fraction nor exponent. */
  lemma NumberToken(text: seq<Byte>, st: State)
    requires st.pos < |text| && ParseNumber(text, st).Success?
    ensures var r := ParseNumber(text, st).value;
      var n := |st.values|;
      var t := text[st.pos..r.pos];
      r.values == st.values + [Entry(r.values[n].kind, st.pos, r.pos, n + 1)] && r.values[n].kind.NumberKind?
      && (r.pos == |text| || IsNumberEnd(text[r.pos]))
      && (r.values[n].kind.integer ==> IntegerText(t)) && (!r.values[n].kind.integer ==> FloatText(t))
  {
    ScanToken(text, st.pos);
  }

  /** No literal starts with a byte other than its first letter. */
  lemma NoLiteralAt(text: seq<Byte>, q: nat)
    requires q < |text| && text[q] != LOWER_N && text[q] != LOWER_T && text[q] != LOWER_F
    ensures !P.StartsWithAt(text, q, NULL) && !P.StartsWithAt(text, q, TRUE) && !P.StartsWithAt(text, q, FALSE)
  {
    assert forall lit: seq<Byte> | |lit| > 0 && q + |lit| <= |text| && text[q..q + |lit|] == lit :: lit[0] == text[q];
  }

  /** A leading `0` followed by a digit, after an optional minus, is an
      invalid number at the number's first byte. */
  lemma LeadingZero(text: seq<Byte>, st: State)
    requires st.pos <= |text|
    requires var q := Trim(text, st.pos);
      var s := if At(text, q, MINUS) then q + 1 else q;
      s + 1 < |text| && text[s] == ZERO && IsDigit(text[s + 1])
    ensures ParseValue(text, st) == Failure(InvalidNumber(Trim(text, st.pos)))
  {
    var q := Trim(text, st.pos);
    var s := if At(text, q, MINUS) then q + 1 else q;
    NoLiteralAt(text, q);
    assert ParseValue(text, st) == ValueAt(text, st.(pos := q));
    assert NumberInt(text, q, s) == Failure(InvalidNumber(q));
    assert NumberScan(text, q) == Failure(InvalidNumber(q));
  }

  /* ---------------------------------------------------------------------
     Strings
     --------------------------------------------------------------------- */

  /** An accepted escape: one of the simple escape letters, or `u` and
      four bytes denoting a character. */
  lemma EscapeToken(text: seq<Byte>, p: nat, s: nat)
    requires p < s <= |text| && EscapeAt(text, p, s).Success?
    ensures var q := EscapeAt(text, p, s).value;
      s < |text|
      && ((q == s + 1 && IsSimpleEscape(text[s])) || (q == s + 5 && text[s] == LOWER_U && Hex4Ok(text[s + 1..s + 5])))
  {
  }

  /** A backslash and an accepted escape, followed by string content, is
      string content. */
  lemma EscapeThenContent(text: seq<Byte>, p: nat, b: nat, e: nat)
    requires p < b < |text| && text[b] == BACKSLASH && EscapeAt(text, p, b + 1).Success?
    requires EscapeAt(text, p, b + 1).value <= e <= |text|
    requires StringContent(text[EscapeAt(text, p, b + 1).value..e])
    ensures StringContent(text[b..e])
  {
    var q := EscapeAt(text, p, b + 1).value;
    EscapeToken(text, p, b + 1);
    var c := text[b..e];
    PP.SubSlice(text, b, e, q - b, e - b);
    assert c[q - b..] == c[q - b..e - b];
    if q == b + 6 {
      PP.SubSlice(text, b, e, 2, 6);
    }
  }

  /** The loop of `parse_string` accepts only content of the string
      grammar `Grammar.StringContent`,
      and the flag it returns says whether a backslash occurred. */
  lemma {:induction false} StringEndContent(text: seq<Byte>, p: nat, s: nat, escaped: bool)
    requires p < s <= |text| && StringEnd(text, p, s, escaped).Success?
    ensures var r := StringEnd(text, p, s, escaped).value;
      StringContent(text[s..r.0]) && (r.1 <==> escaped || BACKSLASH in text[s..r.0])
    decreases |text| - s
  {
    var q := P.TrimStartMatches(text, s, P.Unescaped);
    PP.PlainRun(text, s);
    if !At(text, q, QUOTE) {
      var q' := EscapeAt(text, p, q + 1).value;
      var e := StringEnd(text, p, q', true).value.0;
      assert StringEnd(text, p, s, escaped) == StringEnd(text, p, q', true);
      StringEndContent(text, p, q', true);
      EscapeThenContent(text, p, q, e);
      PP.PlainThenEscape(text, s, q, e);
    }
  }

  /** Content that starts with a byte that is not plain starts with an
      escape the loop accepts, and the rest up to the quote is content. */
  lemma ContentEscape(text: seq<Byte>, p: nat, t: nat, q: nat)
    requires p < t < q < |text| && StringContent(text[t..q]) && !IsPlain(text[t])
    ensures text[t] == BACKSLASH && EscapeAt(text, p, t + 1).Success?
    ensures var e := EscapeAt(text, p, t + 1).value;
      e <= q && StringContent(text[e..q])
  {
    var c := text[t..q];
    assert c[0] == text[t];
    if IsSimpleEscape(c[1]) {
      assert c[2..] == text[t + 2..q];
      assert EscapeAt(text, p, t + 1) == Success(t + 2);
    } else {
      PP.SubSlice(text, t, q, 2, 6);
      assert c[6..] == text[t + 6..q];
      assert EscapeAt(text, p, t + 1) == Success(t + 6);
    }
  }

  /** Conversely, the loop accepts all content of the string
      grammar `Grammar.StringContent` followed by a quote: it stops at that quote, with the flag set exactly when a
      backslash occurred. */
  lemma {:induction false} ContentAccepted(text: seq<Byte>, p: nat, s: nat, q: nat, escaped: bool)
    requires p < s <= q < |text| && text[q] == QUOTE && StringContent(text[s..q])
    ensures StringEnd(text, p, s, escaped) == Success((q, escaped || BACKSLASH in text[s..q]))
    decreases q - s
  {
    var t := P.TrimStartMatches(text, s, P.Unescaped);
    PP.ContentRun(text, s, q);
    PP.PlainRun(text, s);
    if t < q {
      ContentEscape(text, p, t, q);
      var e := EscapeAt(text, p, t + 1).value;
      EscapeThenRest(text, p, s, escaped);
      ContentAccepted(text, p, e, q, true);
      assert text[s..q][t - s] == BACKSLASH;
    } else {
      assert At(text, t, QUOTE);
    }
  }

  /** One turn of the loop: after the plain run comes a complete escape,
      and the loop goes on after it with the flag set. */
  lemma EscapeThenRest(text: seq<Byte>, p: nat, s: nat, escaped: bool)
    requires p < s <= |text|
    requires var t := P.TrimStartMatches(text, s, P.Unescaped);
      t < |text| && text[t] == BACKSLASH && EscapeAt(text, p, t + 1).Success?
    ensures var t := P.TrimStartMatches(text, s, P.Unescaped);
      StringEnd(text, p, s, escaped) == StringEnd(text, p, EscapeAt(text, p, t + 1).value, true)
  {
  }

  /** `parse_string` pushes one string entry whose text is a string of the
      parser's string grammar `Grammar.StringText`, flagged `escaped` exactly when its content has a backslash. */
  lemma StringToken(text: seq<Byte>, st: State)
    requires st.pos < |text| && text[st.pos] == QUOTE && ParseString(text, st, st.pos + 1).Success?
    ensures var r := ParseString(text, st, st.pos + 1).value;
      var n := |st.values|;
      var t := text[st.pos..r.pos];
      r.values == st.values + [Entry(r.values[n].kind, st.pos, r.pos, n + 1)] && r.values[n].kind.StringKind?
      && StringText(t) && (r.values[n].kind.escaped <==> BACKSLASH in t[1..|t| - 1])
  {
    var r := ParseString(text, st, st.pos + 1).value;
    StringEndContent(text, st.pos, st.pos + 1, false);
    var t := text[st.pos..r.pos];
    PP.SubSlice(text, st.pos, r.pos, 1, |t| - 1);
  }

  /* ---------------------------------------------------------------------
     Errors of `parse_value`
     --------------------------------------------------------------------- */

  /** A value may not start with `+`, `.`, `]` or `}`: the first two are
      invalid numbers, the others unmatched closing brackets, each reported
      where the byte is. */
  lemma StrayStart(text: seq<Byte>, st: State)
    requires st.pos <= |text|
    requires var q := Trim(text, st.pos);
      q < |text| && (text[q] == PLUS || text[q] == DOT || text[q] == RBRACKET || text[q] == RBRACE)
    ensures var q := Trim(text, st.pos);
      ParseValue(text, st) == Failure(
        if text[q] == RBRACKET then UnmatchedArrayClose(q)
        else if text[q] == RBRACE then UnmatchedObjectClose(q)
        else InvalidNumber(q))
  {
    var q := Trim(text, st.pos);
    NoLiteralAt(text, q);
    assert ParseValue(text, st) == ValueAt(text, st.(pos := q));
  }

  /* ---------------------------------------------------------------------
     Whole documents
     --------------------------------------------------------------------- */

  /** The index of an accepted document: its first entry is the root,
      starting at the first byte that is not whitespace, followed only by
      whitespace, and with the whole index as its subtree; every entry lies
      in the text, and a scalar's subtree is itself. */
  lemma DocumentShape(text: seq<Byte>)
    requires Document(text).Success?
    ensures var v := Document(text).value;
      |v| > 0 && v[0].start == Trim(text, 0) && v[0].endIndex == |v|
      && v[0].end <= |text| && Trim(text, v[0].end) == |text|
      && Bounded(v, |text|)
  {
    var st := ParseValue(text, State(0, [])).value;
    assert Bounded(st.values, st.pos);
    assert CheckEos(text, st.pos).Success?;
  }

  /* ---------------------------------------------------------------------
     Examples
     --------------------------------------------------------------------- */

  /** A text starting `[1` and a byte that may end a number: the parse
      reaches what follows the first element. */
  lemma OneElement(t: seq<Byte>)
    requires |t| >= 3 && t[0] == LBRACKET && t[1] == ZERO + 1 && IsNumberEnd(t[2])
    ensures var s1 := Push(State(0, []), ArrayKind, 1);
      ParseValue(t, State(0, [])) == ArrayNext(t, s1, Push(s1, NumberKind(true), 1), 0)
  {
    var s0 := State(0, []);
    var s1 := Push(s0, ArrayKind, 1);
    OpenArray(t);
    DigitOne(t, s1);
    assert Trim(t, 1) == 1;
  }

  lemma OpenArray(t: seq<Byte>)
    requires |t| >= 2 && t[0] == LBRACKET && t[1] != RBRACKET && !IsWhitespace(t[1])
    ensures ParseValue(t, State(0, [])) == ArrayElements(t, Push(State(0, []), ArrayKind, 1), 0)
  {
    var s0 := State(0, []);
    assert Trim(t, 0) == 0 && Trim(t, 1) == 1;
    NoLiteralAt(t, 0);
    assert ParseValue(t, s0) == ParseArray(t, s0);
  }

  lemma DigitOne(t: seq<Byte>, st: State)
    requires st.pos + 1 < |t| && t[st.pos] == ZERO + 1 && IsNumberEnd(t[st.pos + 1])
    ensures ParseValue(t, st) == Success(Push(st, NumberKind(true), 1))
  {
    var p := st.pos;
    assert Trim(t, p) == p;
    NoLiteralAt(t, p);
    assert P.TrimStartMatches(t, p + 1, P.Digit) == p + 1;
    assert NumberScan(t, p) == Success((p + 1, true));
  }

  /** `[1,]`: an element slot may not start with `]`. */
  lemma TrailingComma()
    ensures Document([LBRACKET, ZERO + 1, COMMA, RBRACKET]) == Failure(InvalidArray(3))
  {
    var t := [LBRACKET, ZERO + 1, COMMA, RBRACKET];
    var s1 := Push(State(0, []), ArrayKind, 1);
    var s2 := Push(s1, NumberKind(true), 1);
    OneElement(t);
    assert Trim(t, 2) == 2 && Trim(t, 3) == 3;
    assert ArrayNext(t, s1, s2, 0) == ArrayElements(t, s2.(pos := 3), 0);
  }

  /** `[1}`: a `}` after an element is an unmatched object close. */
  lemma ObjectCloseInArray()
    ensures Document([LBRACKET, ZERO + 1, RBRACE]) == Failure(UnmatchedObjectClose(2))
  {
    var t := [LBRACKET, ZERO + 1, RBRACE];
    OneElement(t);
    assert Trim(t, 2) == 2;
  }

  /** `[1 0`: after an element, anything but a separator is an invalid
      array reported where the element ended, before the whitespace. */
  lemma InvalidArrayBeforeWhitespace()
    ensures Document([LBRACKET, ZERO + 1, SPACE, ZERO]) == Failure(InvalidArray(2))
  {
    var t := [LBRACKET, ZERO + 1, SPACE, ZERO];
    OneElement(t);
    assert P.TrimStartMatches(t, 3, P.Whitespace) == 3;
    assert Trim(t, 2) == 3;
  }

  /** `1 ]`: only whitespace may follow the value. */
  lemma TrailingClose()
    ensures Document([ZERO + 1, SPACE, RBRACKET]) == Failure(UnmatchedArrayClose(2))
  {
    var t := [ZERO + 1, SPACE, RBRACKET];
    var s0 := State(0, []);
    assert Trim(t, 0) == 0 && P.TrimStartMatches(t, 2, P.Whitespace) == 2;
    assert Trim(t, 1) == 2;
    NoLiteralAt(t, 0);
    assert P.TrimStartMatches(t, 1, P.Digit) == 1;
    assert NumberScan(t, 0) == Success((1, true));
    assert ParseValue(t, s0) == Success(Push(s0, NumberKind(true), 1));
  }

  /** `-`: a number cut short is an unexpected end at the end of the
      text. */
  lemma LoneMinus()
    ensures Document([MINUS]) == Failure(UnexpectedEos(1))
  {
    var t := [MINUS];
    assert Trim(t, 0) == 0;
    NoLiteralAt(t, 0);
    assert ParseValue(t, State(0, [])) == ParseNumber(t, State(0, []));
  }
}
