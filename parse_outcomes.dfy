/** Where and how the parser of src/parse.rs fails: the error of each
    malformed-container case, of the comment handlers, and of some classes
    of whole input, and the exact error of a few short texts. */
module ParseOutcomes {
  import opened Wrappers
  import opened Bytes
  import opened Kind
  import opened ParseError
  import opened Grammar
  import opened Table
  import opened ParseSpec

  /** A text of whitespace only ends the skip at its end. */
  lemma {:induction false} AllBlank(text: seq<Byte>, p: nat)
    requires p <= |text| && forall k | p <= k < |text| :: IsWhitespace(text[k])
    ensures TrimStartMatches(text, p, Whitespace) == |text|
    decreases |text| - p
  {
    if p < |text| {
      AllBlank(text, p + 1);
    }
  }

  /** The empty text and a text of blanks fail with an unexpected end at
      their length, and no kind, whichever comment handler is used. */
  lemma BlankText(text: seq<Byte>, mode: Mode)
    requires forall k | 0 <= k < |text| :: IsWhitespace(text[k])
    ensures Parse(text, mode, []) == Failure(UnexpectedEos(None, |text|))
  {
    AllBlank(text, 0);
    var st := PState(0, None, [], []);
    assert HandleComment(text, mode, |text|, []) == Some((|text|, []));
    var sk := st.(pos := |text|);
    assert SkipWsAndComments(text, mode, st, 0) == Success(sk);
    assert ValueAt(text, mode, sk) == Failure(UnexpectedEos(None, |text|));
    assert ParseValue(text, mode, st) == Failure(UnexpectedEos(None, |text|));
  }

  /** At a byte that is no blank and not `/`, the skip stops at once. */
  lemma NoSkip(text: seq<Byte>, mode: Mode, st: PState, p: nat)
    requires p < |text| && !IsWhitespace(text[p]) && text[p] != SLASH
    ensures SkipWsAndComments(text, mode, st, p) == Success(st.(pos := p))
  {
    assert TrimStartMatches(text, p, Whitespace) == p;
    assert !StartsWithAt(text, p, LINE_COMMENT) && !StartsWithAt(text, p, BLOCK_COMMENT_START);
    assert HandleComment(text, mode, p, st.comments) == Some((p, st.comments));
  }

  /** The start state of a parse. */
  function Start(): PState {
    PState(0, None, [], [])
  }

  /** A value that fails to parse is the whole parse's error. */
  lemma ValueFails(text: seq<Byte>, mode: Mode, e: JsonParseError)
    requires ParseValue(text, mode, Start()) == Failure(e)
    ensures Parse(text, mode, []) == Failure(e)
  {
  }

  /** A value followed, without blank, by a byte other than `/` is followed
      by a trailing character at that byte. */
  lemma ValueThenByte(text: seq<Byte>, mode: Mode, v: PState)
    requires ParseValue(text, mode, Start()) == Success(v)
    requires v.pos < |text| && !IsWhitespace(text[v.pos]) && text[v.pos] != SLASH
    ensures Parse(text, mode, []) == Failure(UnexpectedTrailingChar(v.kind.value, v.pos))
  {
    NoSkip(text, mode, v, v.pos);
    assert CheckTrailingChar(text, mode, v) == Failure(UnexpectedTrailingChar(v.kind.value, v.pos));
  }

  /** The first value, when it starts at offset 0. */
  lemma FirstValue(text: seq<Byte>, mode: Mode)
    requires text != [] && !IsWhitespace(text[0]) && text[0] != SLASH
    ensures ParseValue(text, mode, Start()) == ValueAt(text, mode, Start())
  {
    NoSkip(text, mode, Start(), 0);
  }

  /** A byte that starts no value (such as `e`, `+` or `.`) is an
      unexpected character at offset 0, with no kind. */
  lemma NotAValueStart(text: seq<Byte>, mode: Mode)
    requires text != [] && !IsWhitespace(text[0]) && text[0] != SLASH
    requires text[0] !in {LOWER_N, LOWER_T, LOWER_F, QUOTE, LBRACKET, LBRACE, MINUS} && !IsDigit(text[0])
    ensures Parse(text, mode, []) == Failure(UnexpectedValueChar(None, 0))
  {
    FirstValue(text, mode);
    ValueFails(text, mode, UnexpectedValueChar(None, 0));
  }

  /** An integer part that ends at `q`, without fraction or exponent, is an
      Integer value of `q` bytes. */
  lemma IntegerValue(text: seq<Byte>, mode: Mode, q: nat)
    requires text != [] && (IsDigit(text[0]) || text[0] == MINUS)
    requires NumberInt(text, 0) == Success(q)
    requires q < |text| && text[q] != DOT && text[q] != LOWER_E && text[q] != UPPER_E
    requires !IsWhitespace(text[q]) && text[q] != SLASH
    ensures Parse(text, mode, []) == Failure(UnexpectedTrailingChar(Integer, q))
  {
    FirstValue(text, mode);
    var f := NumberScan(q, Integer);
    assert NumberFrac(text, q) == Success(f);
    assert NumberExp(text, f) == Success(f);
    var v := PushEntry(Start().(kind := Some(Integer)), q);
    assert ParseNumber(text, Start()) == Success(v);
    ValueThenByte(text, mode, v);
  }

  /** A leading `0` is a whole integer part: the digit after it is a
      trailing character, so "0123" fails at 1. */
  lemma LeadingZero(text: seq<Byte>, mode: Mode)
    requires |text| >= 2 && text[0] == ZERO && IsDigit(text[1])
    ensures Parse(text, mode, []) == Failure(UnexpectedTrailingChar(Integer, 1))
  {
    assert NumberInt(text, 0) == Success(1);
    IntegerValue(text, mode, 1);
  }

  /** The same after a minus sign: "-00" fails at 2. */
  lemma NegativeLeadingZero(text: seq<Byte>, mode: Mode)
    requires |text| >= 3 && text[0] == MINUS && text[1] == ZERO && IsDigit(text[2])
    ensures Parse(text, mode, []) == Failure(UnexpectedTrailingChar(Integer, 2))
  {
    assert NumberInt(text, 0) == Success(2);
    IntegerValue(text, mode, 2);
  }

  /** "nuL": the first differing byte of a literal, at 2. */
  lemma LiteralMismatchAt()
    ensures Parse([LOWER_N, 0x75, 0x4C], Noop, []) == Failure(UnexpectedValueChar(Some(Null), 2))
  {
    var t := [LOWER_N, 0x75, 0x4C];
    FirstValue(t, Noop);
    assert FirstMismatch(t, 1, NULL_SUFFIX, 1) == Some(1);
    assert ParseLiteral(t, Start(), Null, NULL_SUFFIX) == Failure(UnexpectedValueChar(Some(Null), 2));
    ValueFails(t, Noop, UnexpectedValueChar(Some(Null), 2));
  }

  /** "nul": a literal cut short is an unexpected end at 3. */
  lemma LiteralCutShort()
    ensures Parse([LOWER_N, 0x75, 0x6C], Noop, []) == Failure(UnexpectedEos(Some(Null), 3))
  {
    var t := [LOWER_N, 0x75, 0x6C];
    FirstValue(t, Noop);
    assert FirstMismatch(t, 1, NULL_SUFFIX, 2) == None;
    assert FirstMismatch(t, 1, NULL_SUFFIX, 1) == None;
    assert ParseLiteral(t, Start(), Null, NULL_SUFFIX) == Failure(UnexpectedEos(Some(Null), 3));
    ValueFails(t, Noop, UnexpectedEos(Some(Null), 3));
  }

  /** "fale": the first differing byte of `false`, at 3. */
  lemma FalseMismatchAt()
    ensures Parse([LOWER_F, 0x61, 0x6C, LOWER_E], Noop, []) == Failure(UnexpectedValueChar(Some(Bool), 3))
  {
    var t := [LOWER_F, 0x61, 0x6C, LOWER_E];
    FirstValue(t, Noop);
    assert FirstMismatch(t, 1, FALSE_SUFFIX, 2) == Some(2);
    assert FirstMismatch(t, 1, FALSE_SUFFIX, 0) == Some(2);
    assert ParseLiteral(t, Start(), Bool, FALSE_SUFFIX) == Failure(UnexpectedValueChar(Some(Bool), 3));
    ValueFails(t, Noop, UnexpectedValueChar(Some(Bool), 3));
  }

  /** "--1": the second minus is where digits were expected, at 1. */
  lemma DoubleMinus()
    ensures Parse([MINUS, MINUS, ZERO + 1], Noop, []) == Failure(UnexpectedValueChar(Some(Integer), 1))
  {
    var t := [MINUS, MINUS, ZERO + 1];
    FirstValue(t, Noop);
    assert NumberInt(t, 0) == Failure(UnexpectedValueChar(Some(Integer), 1));
    ValueFails(t, Noop, UnexpectedValueChar(Some(Integer), 1));
  }

  /** "1..2": the fraction needs a digit at 2. */
  lemma DoubleDot()
    ensures Parse([ZERO + 1, DOT, DOT, ZERO + 2], Noop, []) == Failure(UnexpectedValueChar(Some(Float), 2))
  {
    var t := [ZERO + 1, DOT, DOT, ZERO + 2];
    FirstValue(t, Noop);
    assert TrimStartMatches(t, 1, Digit) == 1;
    assert NumberInt(t, 0) == Success(1);
    assert NumberFrac(t, 1) == Failure(UnexpectedValueChar(Some(Float), 2));
    ValueFails(t, Noop, UnexpectedValueChar(Some(Float), 2));
  }

  /** "1e+-3": after the exponent's sign a digit is due, at 3. */
  lemma ExponentTwoSigns()
    ensures Parse([ZERO + 1, LOWER_E, PLUS, MINUS, ZERO + 3], Noop, []) == Failure(UnexpectedValueChar(Some(Float), 3))
  {
    var t := [ZERO + 1, LOWER_E, PLUS, MINUS, ZERO + 3];
    FirstValue(t, Noop);
    assert TrimStartMatches(t, 1, Digit) == 1;
    assert NumberInt(t, 0) == Success(1);
    var f := NumberScan(1, Integer);
    assert NumberFrac(t, 1) == Success(f);
    assert NumberExp(t, f) == Failure(UnexpectedValueChar(Some(Float), 3));
    ValueFails(t, Noop, UnexpectedValueChar(Some(Float), 3));
  }

  /** "123.": the fraction runs into the end of the text, at 4, which is
      an unexpected end and not an unexpected character. */
  lemma FractionCutShort()
    ensures Parse([ZERO + 1, ZERO + 2, ZERO + 3, DOT], Noop, []) == Failure(UnexpectedEos(Some(Float), 4))
  {
    var t := [ZERO + 1, ZERO + 2, ZERO + 3, DOT];
    FirstValue(t, Noop);
    assert TrimStartMatches(t, 3, Digit) == 3;
    assert TrimStartMatches(t, 1, Digit) == 3;
    assert NumberInt(t, 0) == Success(3);
    assert NumberFrac(t, 3) == Failure(UnexpectedEos(Some(Float), 4));
    ValueFails(t, Noop, UnexpectedEos(Some(Float), 4));
  }

  /** "false true": a second value is a trailing character of the first
      one's kind, at 6. */
  lemma SecondValue()
    ensures Parse([LOWER_F, 0x61, 0x6C, 0x73, LOWER_E, SPACE, LOWER_T, LOWER_R, 0x75, LOWER_E], Noop, [])
         == Failure(UnexpectedTrailingChar(Bool, 6))
  {
    var t := [LOWER_F, 0x61, 0x6C, 0x73, LOWER_E, SPACE, LOWER_T, LOWER_R, 0x75, LOWER_E];
    FirstValue(t, Noop);
    assert t[1..5] == FALSE_SUFFIX;
    var v := PushEntry(Start().(kind := Some(Bool)), 5);
    assert ParseLiteral(t, Start(), Bool, FALSE_SUFFIX) == Success(v);
    assert TrimStartMatches(t, 6, Whitespace) == 6;
    assert TrimStartMatches(t, 5, Whitespace) == 6;
    assert HandleComment(t, Noop, 6, []) == Some((6, []));
    assert SkipWsAndComments(t, Noop, v, 5) == Success(v.(pos := 6));
    assert CheckTrailingChar(t, Noop, v) == Failure(UnexpectedTrailingChar(Bool, 6));
  }

  /** A ',' in an array followed by ']' is a trailing comma: the ']' is an
      unexpected character of the array. */
  lemma ArrayTrailingComma(text: seq<Byte>, mode: Mode, st0: PState, st: PState, index: nat)
    requires st0.pos < st.pos <= |text| && index < |st0.values| < |st.values| && st.kind == Some(Array)
    requires st.values[..index] == st0.values[..index] && st0.comments <= st.comments
    requires st.pos + 1 < |text| && text[st.pos] == COMMA && text[st.pos + 1] == RBRACKET
    ensures ArrayNext(text, mode, st0, st, index) == Failure(UnexpectedValueChar(Some(Array), st.pos + 1))
  {
    var e := UnexpectedValueChar(Some(Array), st.pos + 1);
    var st' := st.(pos := st.pos + 1);
    NoSkip(text, mode, st', st.pos + 1);
    assert ValueAt(text, mode, st') == Failure(e);
    assert ParseValue(text, mode, st') == Failure(e);
    assert ArrayElements(text, mode, st', index) == Failure(e);
  }

  /** After an array element only ']' or ',' may come: anything else is
      an unexpected character of the array, and the end of the text an
      unexpected end. */
  lemma ArrayBadSeparator(text: seq<Byte>, mode: Mode, st0: PState, st: PState, index: nat)
    requires st0.pos < st.pos <= |text| && index < |st0.values| < |st.values| && st.kind == Some(Array)
    requires st.values[..index] == st0.values[..index] && st0.comments <= st.comments
    requires st.pos == |text| || (text[st.pos] != RBRACKET && text[st.pos] != COMMA)
    ensures ArrayNext(text, mode, st0, st, index)
         == Failure(if st.pos == |text| then UnexpectedEos(Some(Array), |text|) else UnexpectedValueChar(Some(Array), st.pos))
  {
  }

  /** A ',' right after the '[' is a leading comma: an unexpected
      character of the array. */
  lemma ArrayLeadingComma(text: seq<Byte>, mode: Mode, st: PState, s: nat)
    requires st.pos < s < |text| && st.kind == Some(Array) && text[s] == COMMA
    ensures ArrayOpened(text, mode, st, s) == Failure(UnexpectedValueChar(Some(Array), s))
  {
    var e := UnexpectedValueChar(Some(Array), s);
    var n := PushEntry(st, s - st.pos);
    NoSkip(text, mode, n, s);
    assert ValueAt(text, mode, n) == Failure(e);
    assert ParseValue(text, mode, n) == Failure(e);
  }

  /** A key must be a string: any other byte where a key is due is an
      unexpected character of the object. */
  lemma ObjectKeyNotString(text: seq<Byte>, mode: Mode, st: PState, index: nat)
    requires st.pos < |text| && index < |st.values| && st.kind == Some(Object) && text[st.pos] != QUOTE
    ensures ObjectMembers(text, mode, st, index) == Failure(UnexpectedValueChar(Some(Object), st.pos))
  {
  }

  /** After a key and its blanks a ':' is due: any other byte is an
      unexpected character of the object. */
  lemma ObjectMissingColon(text: seq<Byte>, mode: Mode, st0: PState, st: PState, index: nat)
    requires st0.pos < st.pos < |text| && index < |st0.values| < |st.values| && st.kind == Some(Object)
    requires st.values[..index] == st0.values[..index] && st0.comments <= st.comments
    requires !IsWhitespace(text[st.pos]) && text[st.pos] != SLASH && text[st.pos] != COLON
    ensures ObjectAfterKey(text, mode, st0, st, index) == Failure(UnexpectedValueChar(Some(Object), st.pos))
  {
    NoSkip(text, mode, st, st.pos);
  }

  /** A ',' in an object followed by '}' is a trailing comma: the '}' is
      an unexpected character of the object, where a key was due. */
  lemma ObjectTrailingComma(text: seq<Byte>, mode: Mode, st0: PState, st: PState, index: nat)
    requires st0.pos < st.pos <= |text| && index < |st0.values| < |st.values| && st.kind == Some(Object)
    requires st.values[..index] == st0.values[..index] && st0.comments <= st.comments
    requires st.pos + 1 < |text| && text[st.pos] == COMMA && text[st.pos + 1] == RBRACE
    ensures ObjectNext(text, mode, st0, st, index) == Failure(UnexpectedValueChar(Some(Object), st.pos + 1))
  {
    NoSkip(text, mode, st, st.pos + 1);
  }

  /** After a member only '}' or ',' may come: anything else (such as the
      ']' of `{"foo":[]]}`) is an unexpected character of the object. */
  lemma ObjectBadSeparator(text: seq<Byte>, mode: Mode, st0: PState, st: PState, index: nat)
    requires st0.pos < st.pos <= |text| && index < |st0.values| < |st.values| && st.kind == Some(Object)
    requires st.values[..index] == st0.values[..index] && st0.comments <= st.comments
    requires st.pos == |text| || (text[st.pos] != RBRACE && text[st.pos] != COMMA)
    ensures ObjectNext(text, mode, st0, st, index)
         == Failure(if st.pos == |text| then UnexpectedEos(Some(Object), |text|) else UnexpectedValueChar(Some(Object), st.pos))
  {
  }

  /** With the JSONC handler, a `/*` never closed by a `*/` is an
      unexpected end, of the kind being parsed. */
  lemma UnterminatedBlockComment(text: seq<Byte>, st: PState, p: nat)
    requires StartsWithAt(text, p, BLOCK_COMMENT_START)
    requires forall k | p + 2 <= k :: !StartsWithAt(text, k, BLOCK_COMMENT_END)
    ensures SkipWsAndComments(text, Jsonc, st, p) == Failure(UnexpectedEos(st.kind, |text|))
  {
    assert text[p] == SLASH;
    assert TrimStartMatches(text, p, Whitespace) == p;
    assert !StartsWithAt(text, p, LINE_COMMENT) by {
      assert text[p + 1] == STAR;
    }
    assert FindBlockEnd(text, p + 2) == None;
  }

  /** With the JSONC handler, a line comment is recorded, in order after
      the ranges already recorded, as the range from `//` up to (not
      including) the next line feed or the end of the text. */
  lemma LineCommentRange(text: seq<Byte>, p: nat, comments: seq<Range>)
    requires StartsWithAt(text, p, LINE_COMMENT)
    requires JsoncComments(text, p, comments).Some?
    ensures var cs := JsoncComments(text, p, comments).value.1;
      |cs| > |comments| && cs[..|comments|] == comments && cs[|comments|].start == p
    ensures var e := JsoncComments(text, p, comments).value.1[|comments|].end;
      p + 2 <= e <= |text| && (e == |text| || text[e] == LF)
      && forall k | p + 2 <= k < e :: text[k] != LF
  {
    var end := TrimStartMatches(text, p + 2, NotLineFeed);
    TrimmedBytesMatch(text, p + 2, NotLineFeed);
    var cs := JsoncComments(text, p, comments).value.1;
    var c2 := comments + [Range(p, end)];
    assert c2 <= cs;
    assert cs[|comments|] == c2[|comments|];
    assert cs[..|comments|] == c2[..|comments|];
  }

  /** "1 //": without comment handling, the comment after the value is a
      trailing character at 2. */
  lemma CommentWithoutHandler()
    ensures Parse([ZERO + 1, SPACE, SLASH, SLASH], Noop, []) == Failure(UnexpectedTrailingChar(Integer, 2))
  {
    var t := [ZERO + 1, SPACE, SLASH, SLASH];
    FirstValue(t, Noop);
    assert TrimStartMatches(t, 1, Digit) == 1;
    var v := PushEntry(Start().(kind := Some(Integer)), 1);
    NumberOne(t, Noop);
    assert TrimStartMatches(t, 2, Whitespace) == 2;
    assert TrimStartMatches(t, 1, Whitespace) == 2;
    assert SkipWsAndComments(t, Noop, v, 1) == Success(v.(pos := 2));
  }

  /** "1 //": with the JSONC handler, the same text is one Integer value
      and one comment range, [2, 4). */
  lemma CommentWithHandler()
    ensures Parse([ZERO + 1, SPACE, SLASH, SLASH], Jsonc, [])
         == Success(([JsonValueIndexEntry(Integer, false, Range(0, 1), 1)], [Range(2, 4)]))
  {
    var t := [ZERO + 1, SPACE, SLASH, SLASH];
    FirstValue(t, Jsonc);
    var v := PushEntry(Start().(kind := Some(Integer)), 1);
    NumberOne(t, Jsonc);
    assert TrimStartMatches(t, 2, Whitespace) == 2;
    assert TrimStartMatches(t, 1, Whitespace) == 2;
    assert TrimStartMatches(t, 4, NotLineFeed) == 4;
    assert TrimStartMatches(t, 4, Whitespace) == 4;
    assert t[2..4] == LINE_COMMENT;
    assert StartsWithAt(t, 2, LINE_COMMENT);
    assert [] + [Range(2, 4)] == [Range(2, 4)];
    assert JsoncComments(t, 4, [Range(2, 4)]) == Some((4, [Range(2, 4)]));
    assert JsoncComments(t, 2, []) == Some((4, [Range(2, 4)]));
    assert SkipWsAndComments(t, Jsonc, v, 1) == Success(v.(pos := 4, comments := [Range(2, 4)]));
  }

  /** The one-digit number at the start of "1 //". */
  lemma NumberOne(t: seq<Byte>, mode: Mode)
    requires t == [ZERO + 1, SPACE, SLASH, SLASH]
    ensures ParseValue(t, mode, Start()) == Success(PushEntry(Start().(kind := Some(Integer)), 1))
  {
    FirstValue(t, mode);
    assert TrimStartMatches(t, 1, Digit) == 1;
    assert NumberInt(t, 0) == Success(1);
    var f := NumberScan(1, Integer);
    assert NumberFrac(t, 1) == Success(f);
    assert NumberExp(t, f) == Success(f);
  }

  /* Strings */

  /** Over a run of bytes that match `pat` and a byte that does not (or
      the end), `trim_start_matches` stops exactly at that byte. */
  lemma {:induction false} TrimTo(text: seq<Byte>, s: nat, c: nat, pat: BytePattern)
    requires s <= c <= |text| && forall k | s <= k < c :: Matches(pat, text[k])
    requires c == |text| || !Matches(pat, text[c])
    ensures TrimStartMatches(text, s, pat) == c
    decreases c - s
  {
    if s < c {
      TrimTo(text, s + 1, c, pat);
    }
  }

  /** A raw control byte inside a string, after plain bytes, is an
      unexpected String character at its own offset. */
  lemma StringControlByte(text: seq<Byte>, s: nat, c: nat, escaped: bool)
    requires s <= c < |text| && forall k | s <= k < c :: IsPlain(text[k])
    requires IsAsciiControl(text[c])
    ensures StringEnd(text, s, escaped) == Failure(UnexpectedValueChar(Some(String), c))
  {
    TrimTo(text, s, c, Unescaped);
  }

  /** A string that runs into the end of the text is an unexpected end. */
  lemma StringUnterminated(text: seq<Byte>, s: nat, escaped: bool)
    requires s <= |text| && forall k | s <= k < |text| :: IsPlain(text[k])
    ensures StringEnd(text, s, escaped) == Failure(UnexpectedEos(Some(String), |text|))
  {
    TrimTo(text, s, |text|, Unescaped);
  }

  /** A backslash that ends the text is an unexpected end. */
  lemma StringCutAfterBackslash(text: seq<Byte>, s: nat, escaped: bool)
    requires |text| > 0 && s < |text| && text[|text| - 1] == BACKSLASH
    requires forall k | s <= k < |text| - 1 :: IsPlain(text[k])
    ensures StringEnd(text, s, escaped) == Failure(UnexpectedEos(Some(String), |text|))
  {
    TrimTo(text, s, |text| - 1, Unescaped);
  }

  /** A backslash followed by a byte that is neither a simple escape
      letter nor `u` is an unexpected String character at that byte. */
  lemma StringBadEscape(text: seq<Byte>, s: nat, c: nat, escaped: bool)
    requires s <= c && c + 1 < |text| && forall k | s <= k < c :: IsPlain(text[k])
    requires text[c] == BACKSLASH && !IsSimpleEscape(text[c + 1]) && text[c + 1] != LOWER_U
    ensures StringEnd(text, s, escaped) == Failure(UnexpectedValueChar(Some(String), c + 1))
  {
    TrimTo(text, s, c, Unescaped);
  }

  /** `\u` with fewer than four bytes left is an unexpected end, whatever
      those bytes are. */
  lemma StringShortUnicode(text: seq<Byte>, s: nat, c: nat, escaped: bool)
    requires s <= c && c + 1 < |text| && forall k | s <= k < c :: IsPlain(text[k])
    requires text[c] == BACKSLASH && text[c + 1] == LOWER_U && |text| < c + 6
    ensures StringEnd(text, s, escaped) == Failure(UnexpectedEos(Some(String), |text|))
  {
    TrimTo(text, s, c, Unescaped);
  }

  /** `\u` followed by four bytes that denote no character is an
      unexpected String character at the byte after `u`. */
  lemma StringBadUnicode(text: seq<Byte>, s: nat, c: nat, escaped: bool)
    requires s <= c && c + 6 <= |text| && forall k | s <= k < c :: IsPlain(text[k])
    requires text[c] == BACKSLASH && text[c + 1] == LOWER_U && !Hex4Ok(text[c + 2..c + 6])
    ensures StringEnd(text, s, escaped) == Failure(UnexpectedValueChar(Some(String), c + 2))
  {
    TrimTo(text, s, c, Unescaped);
  }

  /** A string preceded by one blank fails the whole parse with the error
      of its loop. */
  lemma BlankThenString(text: seq<Byte>, mode: Mode, e: JsonParseError)
    requires |text| >= 2 && IsWhitespace(text[0]) && text[1] == QUOTE
    requires StringEnd(text, 2, false) == Failure(e)
    ensures Parse(text, mode, []) == Failure(e)
  {
    TrimTo(text, 0, 1, Whitespace);
    assert !StartsWithAt(text, 1, LINE_COMMENT) && !StartsWithAt(text, 1, BLOCK_COMMENT_START);
    assert HandleComment(text, mode, 1, []) == Some((1, []));
    var st := Start().(pos := 1);
    assert SkipWsAndComments(text, mode, Start(), 0) == Success(st);
    assert ValueAt(text, mode, st) == Failure(e);
    ValueFails(text, mode, e);
  }

  /** ` "ab\xc" `: `x` is no escape letter, at 5. */
  lemma BadEscapeExample()
    ensures Parse([SPACE, QUOTE, 0x61, LOWER_B, BACKSLASH, 0x78, 0x63, QUOTE, SPACE], Noop, [])
      == Failure(UnexpectedValueChar(Some(String), 5))
  {
    var t := [SPACE, QUOTE, 0x61, LOWER_B, BACKSLASH, 0x78, 0x63, QUOTE, SPACE];
    StringBadEscape(t, 2, 4, false);
    BlankThenString(t, Noop, UnexpectedValueChar(Some(String), 5));
  }

  /** ` "ab\uXyz0c" `: `Xyz0` is no hexadecimal code, at 6. */
  lemma BadUnicodeExample()
    ensures Parse([SPACE, QUOTE, 0x61, LOWER_B, BACKSLASH, LOWER_U, 0x58, 0x79, 0x7A, ZERO, 0x63, QUOTE, SPACE], Noop, [])
      == Failure(UnexpectedValueChar(Some(String), 6))
  {
    var t := [SPACE, QUOTE, 0x61, LOWER_B, BACKSLASH, LOWER_U, 0x58, 0x79, 0x7A, ZERO, 0x63, QUOTE, SPACE];
    var code := t[6..10];
    assert code[0] == 0x58 && !IsHexDigit(code[0]);
    assert !Hex4Ok(code);
    StringBadUnicode(t, 2, 4, false);
    BlankThenString(t, Noop, UnexpectedValueChar(Some(String), 6));
  }

  /** ` "ab\u01`: the code is cut short, an unexpected end at 8. */
  lemma ShortUnicodeExample()
    ensures Parse([SPACE, QUOTE, 0x61, LOWER_B, BACKSLASH, LOWER_U, ZERO, ZERO + 1], Noop, [])
      == Failure(UnexpectedEos(Some(String), 8))
  {
    var t := [SPACE, QUOTE, 0x61, LOWER_B, BACKSLASH, LOWER_U, ZERO, ZERO + 1];
    StringShortUnicode(t, 2, 4, false);
    BlankThenString(t, Noop, UnexpectedEos(Some(String), 8));
  }

  /** A line feed inside a string (` "a<LF>b" `) is rejected at its offset, 3. */
  lemma ControlByteExample()
    ensures Parse([SPACE, QUOTE, 0x61, LF, LOWER_B, QUOTE], Noop, [])
      == Failure(UnexpectedValueChar(Some(String), 3))
  {
    var t := [SPACE, QUOTE, 0x61, LF, LOWER_B, QUOTE];
    StringControlByte(t, 2, 3, false);
    BlankThenString(t, Noop, UnexpectedValueChar(Some(String), 3));
  }
}
