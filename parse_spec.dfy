/** What `JsonParser` of src/parse.rs computes, stated as functions over
    byte positions. The parser's `text: &str` (the unparsed rest of the
    input) is the position `pos` into the original text; `kind` is the kind
    of the value being parsed, which the error constructors report; `values`
    is the index being built; `comments` the ranges collected by a JSONC
    comment handler. */
module ParseSpec {
  import opened Wrappers
  import opened Bytes
  import opened Kind
  import opened ParseError
  import opened Grammar
  import opened Table

  /** Which `HandleComment` implementation the parser was given. */
  datatype Mode = Noop | Jsonc

  datatype PState = PState(pos: nat, kind: Option<JsonValueKind>, values: seq<JsonValueIndexEntry>, comments: seq<Range>)

  const LINE_COMMENT: seq<Byte> := [SLASH, SLASH]
  const BLOCK_COMMENT_START: seq<Byte> := [SLASH, STAR]
  const BLOCK_COMMENT_END: seq<Byte> := [STAR, SLASH]

  predicate StartsWithAt(text: seq<Byte>, p: nat, prefix: seq<Byte>) {
    p + |prefix| <= |text| && text[p..p + |prefix|] == prefix
  }

  /** The character classes the parser skips with `trim_start_matches`. */
  datatype BytePattern =
    | Whitespace   // JSON whitespace
    | Digit        // '0'..'9'
    | Unescaped    // a string byte that is not '"', '\\' or an ASCII control
    | NotLineFeed  // anything up to the end of a line comment

  predicate Matches(pat: BytePattern, b: Byte) {
    match pat
    case Whitespace => IsWhitespace(b)
    case Digit => IsDigit(b)
    case Unescaped => IsPlain(b)
    case NotLineFeed => b != LF
  }

  /** `str::trim_start_matches`: the end of the longest run of bytes from
      `p` on that match `pat`. */
  function TrimStartMatches(text: seq<Byte>, p: nat, pat: BytePattern): (q: nat)
    requires p <= |text|
    ensures p <= q <= |text|
    ensures q < |text| ==> !Matches(pat, text[q])
    decreases |text| - p
  {
    if p < |text| && Matches(pat, text[p]) then TrimStartMatches(text, p + 1, pat) else p
  }

  /** Every byte `trim_start_matches` skips matches the pattern. */
  lemma {:induction false} TrimmedBytesMatch(text: seq<Byte>, p: nat, pat: BytePattern)
    requires p <= |text|
    ensures forall k | p <= k < TrimStartMatches(text, p, pat) :: Matches(pat, text[k])
    decreases |text| - p
  {
    if p < |text| && Matches(pat, text[p]) {
      TrimmedBytesMatch(text, p + 1, pat);
    }
  }

  /** `str::find` of the block-comment terminator on the text from `p`:
      the first occurrence. */
  function FindBlockEnd(text: seq<Byte>, p: nat): (r: Option<nat>)
    requires p <= |text|
    ensures r.Some? ==> p <= r.value && StartsWithAt(text, r.value, BLOCK_COMMENT_END)
    ensures forall k | p <= k && (r.Some? ==> k < r.value) :: !StartsWithAt(text, k, BLOCK_COMMENT_END)
    decreases |text| - p
  {
    if p + 2 > |text| then None
    else if StartsWithAt(text, p, BLOCK_COMMENT_END) then Some(p)
    else FindBlockEnd(text, p + 1)
  }

  /** The loop of `JsoncCommentHandler::handle_comment`: consume comments,
      each followed by whitespace, and record their ranges. A line comment
      ends before its newline; an unterminated block comment fails. */
  function JsoncComments(text: seq<Byte>, p: nat, comments: seq<Range>): (r: Option<(nat, seq<Range>)>)
    requires p <= |text|
    ensures r.Some? ==> p <= r.value.0 <= |text| && comments <= r.value.1
    ensures r.Some? ==> !StartsWithAt(text, r.value.0, LINE_COMMENT) && !StartsWithAt(text, r.value.0, BLOCK_COMMENT_START)
    decreases |text| - p
  {
    if StartsWithAt(text, p, LINE_COMMENT) then
      var end := TrimStartMatches(text, p + 2, NotLineFeed);
      JsoncComments(text, TrimStartMatches(text, end, Whitespace), comments + [Range(p, end)])
    else if StartsWithAt(text, p, BLOCK_COMMENT_START) then
      match FindBlockEnd(text, p + 2)
      case None => None
      case Some(k) => JsoncComments(text, TrimStartMatches(text, k + 2, Whitespace), comments + [Range(p, k + 2)])
    else
      Some((p, comments))
  }

  /** `HandleComment::handle_comment` of the handler in `mode`. */
  function HandleComment(text: seq<Byte>, mode: Mode, p: nat, comments: seq<Range>): (r: Option<(nat, seq<Range>)>)
    requires p <= |text|
    ensures mode == Noop ==> r == Some((p, comments))
    ensures r.Some? ==> p <= r.value.0 <= |text| && comments <= r.value.1
    ensures mode == Jsonc && r.Some? ==> !StartsWithAt(text, r.value.0, LINE_COMMENT) && !StartsWithAt(text, r.value.0, BLOCK_COMMENT_START)
  {
    match mode
    case Noop => Some((p, comments))
    case Jsonc => JsoncComments(text, p, comments)
  }

  /** `unexpected_eos`: reported at the end of the text. */
  function UnexpectedEosError(text: seq<Byte>, kind: Option<JsonValueKind>): JsonParseError {
    UnexpectedEos(kind, |text|)
  }

  /** `unexpected_value_char`: a position at the end of the text is
      reported as an unexpected end instead. */
  function ValueCharError(text: seq<Byte>, kind: Option<JsonValueKind>, position: nat): JsonParseError {
    if position == |text| then UnexpectedEos(kind, position) else UnexpectedValueChar(kind, position)
  }

  /** The errors the syntax check can raise for a value starting at `lo`:
      either the end of the text, or a character inside the text. */
  predicate SyntaxError(text: seq<Byte>, lo: nat, e: JsonParseError) {
    (e.UnexpectedEos? && e.position == |text|)
    || (e.UnexpectedValueChar? && lo <= e.position < |text|)
  }

  /** `skip_whitespaces_and_comments` applied to the text from `p`. */
  function SkipWsAndComments(text: seq<Byte>, mode: Mode, st: PState, p: nat): (r: Result<PState, JsonParseError>)
    requires p <= |text|
    ensures r.Success? ==> p <= r.value.pos <= |text| && r.value.kind == st.kind && r.value.values == st.values
    ensures r.Success? ==> st.comments <= r.value.comments
    ensures r.Success? ==> r.value.pos == |text| || !IsWhitespace(text[r.value.pos])
    ensures r.Failure? ==> mode == Jsonc && r.error == UnexpectedEosError(text, st.kind)
  {
    var q := TrimStartMatches(text, p, Whitespace);
    match HandleComment(text, mode, q, st.comments)
    case None => Failure(UnexpectedEosError(text, st.kind))
    case Some((s, cs)) =>
      assert s == q || s == TrimStartMatches(text, s, Whitespace) by {
        if mode == Jsonc { JsoncCommentsEndAfterWhitespace(text, q, st.comments); }
      }
      Success(st.(pos := s, comments := cs))
  }

  /** A JSONC skip stops either where it started or after whitespace. */
  lemma {:induction false} JsoncCommentsEndAfterWhitespace(text: seq<Byte>, p: nat, comments: seq<Range>)
    requires p <= |text|
    requires JsoncComments(text, p, comments).Some?
    ensures var s := JsoncComments(text, p, comments).value.0;
      s == p || s == TrimStartMatches(text, s, Whitespace)
    decreases |text| - p
  {
    if StartsWithAt(text, p, LINE_COMMENT) {
      var end := TrimStartMatches(text, p + 2, NotLineFeed);
      var q := TrimStartMatches(text, end, Whitespace);
      JsoncCommentsEndAfterWhitespace(text, q, comments + [Range(p, end)]);
    } else if StartsWithAt(text, p, BLOCK_COMMENT_START) {
      var k := FindBlockEnd(text, p + 2).value;
      var q := TrimStartMatches(text, k + 2, Whitespace);
      JsoncCommentsEndAfterWhitespace(text, q, comments + [Range(p, k + 2)]);
    }
  }

  /** `push_entry(len)`: a new leaf-shaped entry of the current kind covering
      `len` bytes from the current position, which moves past them. */
  function PushEntry(st: PState, len: nat): (r: PState)
    requires st.kind.Some?
    ensures r.pos == st.pos + len && r.kind == st.kind && r.comments == st.comments
    ensures |r.values| == |st.values| + 1 && r.values[..|st.values|] == st.values
  {
    var e := JsonValueIndexEntry(st.kind.value, false, Range(st.pos, st.pos + len), |st.values| + 1);
    st.(values := st.values + [e], pos := st.pos + len)
  }

  /** `finalize_entry(index)`: the placeholder of a composite now ends at
      the current position, and its subtree at the current end of the index. */
  function FinalizeEntry(st: PState, index: nat): (r: PState)
    requires index < |st.values|
    ensures r.pos == st.pos && r.kind == st.kind && r.comments == st.comments
    ensures |r.values| == |st.values| && r.values[..index] == st.values[..index]
  {
    var e := st.values[index];
    st.(values := st.values[index := e.(text := e.text.(end := st.pos), endIndex := |st.values|)])
  }

  /** A successful parse of one value from `st` ending in `r`: the position
      moved forward within the text, a kind is set, and entries were added
      while the first `keep` ones stayed as they were. */
  predicate Advanced(text: seq<Byte>, st: PState, r: PState, keep: nat) {
    st.pos < r.pos <= |text| && r.kind.Some?
    && keep <= |st.values| < |r.values| && r.values[..keep] == st.values[..keep]
    && st.comments <= r.comments
  }

  /** The first `i` with `text[s + i] != suffix[i]` (as far as the text goes). */
  function FirstMismatch(text: seq<Byte>, s: nat, suffix: seq<Byte>, i: nat): (r: Option<nat>)
    requires s <= |text|
    ensures r.Some? ==> i <= r.value < |suffix| && s + r.value < |text| && text[s + r.value] != suffix[r.value]
    ensures forall k | i <= k < |suffix| && s + k < |text| && (r.Some? ==> k < r.value) :: text[s + k] == suffix[k]
    decreases |suffix| - i
  {
    if i >= |suffix| || s + i >= |text| then None
    else if text[s + i] != suffix[i] then Some(i)
    else FirstMismatch(text, s, suffix, i + 1)
  }

  /** `parse_literal`: the first byte was checked by the caller. */
  function ParseLiteral(text: seq<Byte>, st: PState, kind: JsonValueKind, suffix: seq<Byte>): (r: Result<PState, JsonParseError>)
    requires st.pos < |text|
    ensures r.Success? ==> Advanced(text, st, r.value, |st.values|)
    ensures r.Failure? ==> SyntaxError(text, st.pos, r.error)
  {
    var st := st.(kind := Some(kind));
    var s := st.pos + 1;
    if StartsWithAt(text, s, suffix) then
      Success(PushEntry(st, 1 + |suffix|))
    else
      match FirstMismatch(text, s, suffix, 0)
      case Some(i) => Failure(ValueCharError(text, st.kind, s + i))
      case None => Failure(UnexpectedEosError(text, st.kind))
  }

  /** `strip_one_or_more_digits`, failing with the given kind. */
  function StripDigits(text: seq<Byte>, kind: Option<JsonValueKind>, s: nat): (r: Result<nat, JsonParseError>)
    requires s <= |text|
    ensures r.Success? ==> s < r.value <= |text|
    ensures r.Success? ==> r.value == |text| || !IsDigit(text[r.value])
    ensures r.Failure? <==> s == |text| || !IsDigit(text[s])
    ensures r.Failure? ==> r.error == ValueCharError(text, kind, s)
  {
    if s < |text| && IsDigit(text[s]) then
      Success(TrimStartMatches(text, s + 1, Digit))
    else
      Failure(ValueCharError(text, kind, s))
  }

  /** What `strip_one_or_more_digits` strips is a non-empty run of digits. */
  lemma StrippedDigits(text: seq<Byte>, kind: Option<JsonValueKind>, s: nat)
    requires s <= |text| && StripDigits(text, kind, s).Success?
    ensures AllDigits(text[s..StripDigits(text, kind, s).value])
  {
    var q := StripDigits(text, kind, s).value;
    TrimmedBytesMatch(text, s + 1, Digit);
    assert forall k | 0 <= k < q - s :: text[s..q][k] == text[s + k];
  }

  /** `strip_char(s, c)`: the position after `c`, or an error at `s`. */
  function StripChar(text: seq<Byte>, kind: Option<JsonValueKind>, s: nat, c: Byte): (r: Result<nat, JsonParseError>)
    requires s <= |text|
    ensures r.Success? <==> s < |text| && text[s] == c
    ensures r.Success? ==> r.value == s + 1
    ensures r.Failure? ==> r.error == ValueCharError(text, kind, s)
  {
    if s < |text| && text[s] == c then Success(s + 1) else Failure(ValueCharError(text, kind, s))
  }

  /** How far a number token reaches, and its kind so far. */
  datatype NumberScan = NumberScan(end: nat, kind: JsonValueKind)

  /** `[ minus ] int` of `parse_number`, from `p`. */
  function NumberInt(text: seq<Byte>, p: nat): (r: Result<nat, JsonParseError>)
    requires p < |text|
    ensures r.Success? ==> p < r.value <= |text|
    ensures r.Failure? ==> SyntaxError(text, p, r.error)
  {
    var s := if text[p] == MINUS then p + 1 else p;
    if s < |text| && text[s] == ZERO then Success(s + 1) else StripDigits(text, Some(Integer), s)
  }

  /** `[ frac ]` of `parse_number`, from `s`. */
  function NumberFrac(text: seq<Byte>, s: nat): (r: Result<NumberScan, JsonParseError>)
    requires s <= |text|
    ensures r.Success? ==> s <= r.value.end <= |text| && (r.value.kind == Integer <==> r.value.end == s)
    ensures r.Failure? ==> SyntaxError(text, s, r.error)
  {
    if s < |text| && text[s] == DOT then
      var q :- StripDigits(text, Some(Float), s + 1);
      Success(NumberScan(q, Float))
    else
      Success(NumberScan(s, Integer))
  }

  /** `[ exp ]` of `parse_number`, after `scan`. */
  function NumberExp(text: seq<Byte>, scan: NumberScan): (r: Result<NumberScan, JsonParseError>)
    requires scan.end <= |text|
    ensures r.Success? ==> scan.end <= r.value.end <= |text|
    ensures r.Success? ==> r.value == scan || (scan.end < r.value.end && r.value.kind == Float)
    ensures r.Failure? ==> SyntaxError(text, scan.end, r.error)
  {
    var s := scan.end;
    if s < |text| && (text[s] == LOWER_E || text[s] == UPPER_E) then
      var d := if s + 1 < |text| && (text[s + 1] == MINUS || text[s + 1] == PLUS) then s + 2 else s + 1;
      var q :- StripDigits(text, Some(Float), d);
      Success(NumberScan(q, Float))
    else
      Success(scan)
  }

  /** `parse_number`: kind Integer unless a fraction or an exponent follows. */
  function ParseNumber(text: seq<Byte>, st: PState): (r: Result<PState, JsonParseError>)
    requires st.pos < |text|
    ensures r.Success? ==> Advanced(text, st, r.value, |st.values|)
    ensures r.Failure? ==> SyntaxError(text, st.pos, r.error)
  {
    var s :- NumberInt(text, st.pos);
    var f :- NumberFrac(text, s);
    var x :- NumberExp(text, f);
    Success(PushEntry(st.(kind := Some(x.kind)), x.end - st.pos))
  }

  /** Sets the `escaped` flag of the last entry. */
  function MarkEscaped(st: PState, escaped: bool): PState
    requires |st.values| > 0
  {
    var last := st.values[|st.values| - 1];
    st.(values := st.values[|st.values| - 1 := last.(escaped := escaped)])
  }

  /** One escape sequence of `parse_string`, with its backslash at `s`:
      the position after it, or the error. */
  function Escape(text: seq<Byte>, kind: Option<JsonValueKind>, s: nat): (r: Result<nat, JsonParseError>)
    requires s <= |text|
    ensures r.Success? ==> s + 2 <= r.value <= |text|
    ensures r.Failure? ==> SyntaxError(text, s, r.error)
  {
    var s :- StripChar(text, kind, s, BACKSLASH);
    if s < |text| && IsSimpleEscape(text[s]) then
      Success(s + 1)
    else
      var s :- StripChar(text, kind, s, LOWER_U);
      if |text| - s < 4 then Failure(UnexpectedEosError(text, kind))
      else if !Hex4Ok(text[s..s + 4]) then Failure(ValueCharError(text, kind, s))
      else Success(s + 4)
  }

  /** The loop of `parse_string` from `s`: the offset of the closing quote
      and whether an escape was met, `escaped` being the flag so far. */
  function StringEnd(text: seq<Byte>, s: nat, escaped: bool): (r: Result<(nat, bool), JsonParseError>)
    requires s <= |text|
    ensures r.Success? ==> s <= r.value.0 < |text| && text[r.value.0] == QUOTE && (escaped ==> r.value.1)
    ensures r.Failure? ==> SyntaxError(text, s, r.error)
    decreases |text| - s
  {
    var s := TrimStartMatches(text, s, Unescaped);
    if s < |text| && text[s] == QUOTE then
      Success((s, escaped))
    else
      var s :- Escape(text, Some(String), s);
      StringEnd(text, s, true)
  }

  /** `parse_string`, `s` being the offset after the opening quote. */
  function ParseString(text: seq<Byte>, st: PState, s: nat): (r: Result<PState, JsonParseError>)
    requires st.pos < s <= |text|
    ensures r.Success? <==> StringEnd(text, s, false).Success?
    ensures r.Success? ==> var end := StringEnd(text, s, false).value;
      r.value == PState(end.0 + 1, Some(String), st.values + [StringEntry(st.pos, end.0 + 1, end.1, |st.values|)], st.comments)
    ensures r.Success? ==> Advanced(text, st, r.value, |st.values|)
    ensures r.Failure? ==> SyntaxError(text, st.pos, r.error)
  {
    var end :- StringEnd(text, s, false);
    StringPushed(st, end.0, end.1);
    Success(MarkEscaped(PushEntry(st.(kind := Some(String)), end.0 + 1 - st.pos), end.1))
  }

  /** The entry of a string token `start..end`, at index `n`. */
  function StringEntry(start: nat, end: nat, escaped: bool, n: nat): JsonValueIndexEntry {
    JsonValueIndexEntry(String, escaped, Range(start, end), n + 1)
  }

  /** The state `push_entry` and the update of the `escaped` flag leave
      for a string whose closing quote is at `e`. */
  lemma StringPushed(st: PState, e: nat, escaped: bool)
    requires st.pos <= e
    ensures MarkEscaped(PushEntry(st.(kind := Some(String)), e + 1 - st.pos), escaped)
      == PState(e + 1, Some(String), st.values + [StringEntry(st.pos, e + 1, escaped, |st.values|)], st.comments)
  {
    var pushed := PushEntry(st.(kind := Some(String)), e + 1 - st.pos);
    assert pushed.values == st.values + [JsonValueIndexEntry(String, false, Range(st.pos, e + 1), |st.values| + 1)];
  }

  /** `parse_value`: skip whitespace and comments, then dispatch on the
      first character. */
  function ParseValue(text: seq<Byte>, mode: Mode, st: PState): (r: Result<PState, JsonParseError>)
    requires st.pos <= |text|
    ensures r.Success? ==> Advanced(text, st, r.value, |st.values|)
    ensures r.Failure? ==> SyntaxError(text, st.pos, r.error)
    decreases |text| - st.pos, 4
  {
    var st :- SkipWsAndComments(text, mode, st, st.pos);
    ValueAt(text, mode, st)
  }

  /** The dispatch of `parse_value` on the first character at `st.pos`. */
  function ValueAt(text: seq<Byte>, mode: Mode, st: PState): (r: Result<PState, JsonParseError>)
    requires st.pos <= |text|
    ensures r.Success? ==> Advanced(text, st, r.value, |st.values|)
    ensures r.Failure? ==> SyntaxError(text, st.pos, r.error)
    decreases |text| - st.pos, 3
  {
    if st.pos == |text| then Failure(UnexpectedEosError(text, st.kind))
    else
      var c := text[st.pos];
      if c == LOWER_N then ParseLiteral(text, st, Null, NULL_SUFFIX)
      else if c == LOWER_T then ParseLiteral(text, st, Bool, TRUE_SUFFIX)
      else if c == LOWER_F then ParseLiteral(text, st, Bool, FALSE_SUFFIX)
      else if c == QUOTE then ParseString(text, st, st.pos + 1)
      else if c == LBRACKET then ParseArray(text, mode, st)
      else if c == LBRACE then ParseObject(text, mode, st)
      else if IsDigit(c) || c == MINUS then ParseNumber(text, st)
      else Failure(ValueCharError(text, st.kind, st.pos))
  }

  lemma PrefixOfPrefix<T>(a: seq<T>, b: seq<T>, k: nat, j: nat)
    requires j <= k <= |a| && k <= |b| && b[..k] == a[..k]
    ensures b[..j] == a[..j]
  {
    assert b[..j] == b[..k][..j];
  }

  /** `parse_array` with the '[' at `st.pos`. */
  function ParseArray(text: seq<Byte>, mode: Mode, st: PState): (r: Result<PState, JsonParseError>)
    requires st.pos < |text|
    ensures r.Success? ==> Advanced(text, st, r.value, |st.values|)
    ensures r.Failure? ==> SyntaxError(text, st.pos, r.error)
    decreases |text| - st.pos, 2
  {
    var sk :- SkipWsAndComments(text, mode, st.(kind := Some(Array)), st.pos + 1);
    ArrayOpened(text, mode, st.(kind := Some(Array), comments := sk.comments), sk.pos)
  }

  /** `parse_array` once the blanks after the '[' at `st.pos` end at `s`:
      "[]", or the placeholder entry and the loop. */
  function ArrayOpened(text: seq<Byte>, mode: Mode, st: PState, s: nat): (r: Result<PState, JsonParseError>)
    requires st.pos < s <= |text| && st.kind == Some(Array)
    ensures r.Success? ==> Advanced(text, st, r.value, |st.values|)
    ensures r.Failure? ==> SyntaxError(text, st.pos, r.error)
    decreases |text| - st.pos, 1
  {
    if s < |text| && text[s] == RBRACKET then
      Success(PushEntry(st, s + 1 - st.pos))
    else
      ArrayElements(text, mode, PushEntry(st, s - st.pos), |st.values|)
  }

  /** The loop of `parse_array`: an element, then ']' or ',' and repeat;
      the placeholder entry of the array is `values[index]`. */
  function ArrayElements(text: seq<Byte>, mode: Mode, st: PState, index: nat): (r: Result<PState, JsonParseError>)
    requires st.pos <= |text| && index < |st.values|
    ensures r.Success? ==> Advanced(text, st, r.value, index)
    ensures r.Failure? ==> SyntaxError(text, st.pos, r.error)
    decreases |text| - st.pos, 5
  {
    var st1 :- ParseValue(text, mode, st);
    PrefixOfPrefix(st.values, st1.values, |st.values|, index);
    ArrayAfterElement(text, mode, st, st1.(kind := Some(Array)), index)
  }

  /** The rest of one round of the `parse_array` loop, after the element
      parsed from `st0` ended at `st`. */
  function ArrayAfterElement(text: seq<Byte>, mode: Mode, st0: PState, st: PState, index: nat): (r: Result<PState, JsonParseError>)
    requires st0.pos < st.pos <= |text| && index < |st0.values| < |st.values| && st.kind == Some(Array)
    requires st.values[..index] == st0.values[..index] && st0.comments <= st.comments
    ensures r.Success? ==> Advanced(text, st0, r.value, index)
    ensures r.Failure? ==> SyntaxError(text, st0.pos, r.error)
    decreases |text| - st.pos, 7
  {
    var st :- SkipWsAndComments(text, mode, st, st.pos);
    ArrayNext(text, mode, st0, st, index)
  }

  /** The end of one round of the `parse_array` loop, at the first
      character after the element and its blanks: ']' or ','. */
  function ArrayNext(text: seq<Byte>, mode: Mode, st0: PState, st: PState, index: nat): (r: Result<PState, JsonParseError>)
    requires st0.pos < st.pos <= |text| && index < |st0.values| < |st.values| && st.kind == Some(Array)
    requires st.values[..index] == st0.values[..index] && st0.comments <= st.comments
    ensures r.Success? ==> Advanced(text, st0, r.value, index)
    ensures r.Failure? ==> SyntaxError(text, st0.pos, r.error)
    decreases |text| - st.pos, 6
  {
    if st.pos < |text| && text[st.pos] == RBRACKET then
      Success(FinalizeEntry(st.(pos := st.pos + 1), index))
    else
      var s :- StripChar(text, st.kind, st.pos, COMMA);
      ArrayElements(text, mode, st.(pos := s), index)
  }

  /** `parse_object` with the '{' at `st.pos`. */
  function ParseObject(text: seq<Byte>, mode: Mode, st: PState): (r: Result<PState, JsonParseError>)
    requires st.pos < |text|
    ensures r.Success? ==> Advanced(text, st, r.value, |st.values|)
    ensures r.Failure? ==> SyntaxError(text, st.pos, r.error)
    decreases |text| - st.pos, 2
  {
    var sk :- SkipWsAndComments(text, mode, st.(kind := Some(Object)), st.pos + 1);
    ObjectOpened(text, mode, st.(kind := Some(Object), comments := sk.comments), sk.pos)
  }

  /** `parse_object` once the blanks after the '{' at `st.pos` end at `s`:
      "{}", or the placeholder entry and the loop. */
  function ObjectOpened(text: seq<Byte>, mode: Mode, st: PState, s: nat): (r: Result<PState, JsonParseError>)
    requires st.pos < s <= |text| && st.kind == Some(Object)
    ensures r.Success? ==> Advanced(text, st, r.value, |st.values|)
    ensures r.Failure? ==> SyntaxError(text, st.pos, r.error)
    decreases |text| - st.pos, 1
  {
    if s < |text| && text[s] == RBRACE then
      Success(PushEntry(st, s + 1 - st.pos))
    else
      ObjectMembers(text, mode, PushEntry(st, s - st.pos), |st.values|)
  }

  /** The loop of `parse_object`: a string key, ':', a value, then '}' or
      ',' and repeat; the placeholder entry of the object is `values[index]`. */
  function ObjectMembers(text: seq<Byte>, mode: Mode, st: PState, index: nat): (r: Result<PState, JsonParseError>)
    requires st.pos <= |text| && index < |st.values|
    ensures r.Success? ==> Advanced(text, st, r.value, index)
    ensures r.Failure? ==> SyntaxError(text, st.pos, r.error)
    decreases |text| - st.pos, 4
  {
    var s :- StripChar(text, st.kind, st.pos, QUOTE);
    var st1 :- ParseString(text, st, s);
    PrefixOfPrefix(st.values, st1.values, |st.values|, index);
    ObjectAfterKey(text, mode, st, st1.(kind := Some(Object)), index)
  }

  /** One round of the `parse_object` loop after the key: blanks and ':'. */
  function ObjectAfterKey(text: seq<Byte>, mode: Mode, st0: PState, st: PState, index: nat): (r: Result<PState, JsonParseError>)
    requires st0.pos < st.pos <= |text| && index < |st0.values| < |st.values| && st.kind == Some(Object)
    requires st.values[..index] == st0.values[..index] && st0.comments <= st.comments
    ensures r.Success? ==> Advanced(text, st0, r.value, index)
    ensures r.Failure? ==> SyntaxError(text, st0.pos, r.error)
    decreases |text| - st.pos, 6
  {
    var st :- SkipWsAndComments(text, mode, st, st.pos);
    var s :- StripChar(text, st.kind, st.pos, COLON);
    ObjectValue(text, mode, st0, st.(pos := s), index)
  }

  /** One round of the `parse_object` loop after the ':': the value. */
  function ObjectValue(text: seq<Byte>, mode: Mode, st0: PState, st: PState, index: nat): (r: Result<PState, JsonParseError>)
    requires st0.pos < st.pos <= |text| && index < |st0.values| < |st.values| && st.kind == Some(Object)
    requires st.values[..index] == st0.values[..index] && st0.comments <= st.comments
    ensures r.Success? ==> Advanced(text, st0, r.value, index)
    ensures r.Failure? ==> SyntaxError(text, st0.pos, r.error)
    decreases |text| - st.pos, 5
  {
    var st2 :- ParseValue(text, mode, st);
    PrefixOfPrefix(st.values, st2.values, |st.values|, index);
    ObjectAfterValue(text, mode, st0, st2.(kind := Some(Object)), index)
  }

  /** The end of one round of the `parse_object` loop: blanks, then '}'
      or ','. */
  function ObjectAfterValue(text: seq<Byte>, mode: Mode, st0: PState, st: PState, index: nat): (r: Result<PState, JsonParseError>)
    requires st0.pos < st.pos <= |text| && index < |st0.values| < |st.values| && st.kind == Some(Object)
    requires st.values[..index] == st0.values[..index] && st0.comments <= st.comments
    ensures r.Success? ==> Advanced(text, st0, r.value, index)
    ensures r.Failure? ==> SyntaxError(text, st0.pos, r.error)
    decreases |text| - st.pos, 5
  {
    var st :- SkipWsAndComments(text, mode, st, st.pos);
    ObjectNext(text, mode, st0, st, index)
  }

  /** The end of one round of the `parse_object` loop, at the first
      character after the value and its blanks: '}' or ','. */
  function ObjectNext(text: seq<Byte>, mode: Mode, st0: PState, st: PState, index: nat): (r: Result<PState, JsonParseError>)
    requires st0.pos < st.pos <= |text| && index < |st0.values| < |st.values| && st.kind == Some(Object)
    requires st.values[..index] == st0.values[..index] && st0.comments <= st.comments
    ensures r.Success? ==> Advanced(text, st0, r.value, index)
    ensures r.Failure? ==> SyntaxError(text, st0.pos, r.error)
    decreases |text| - st.pos, 4
  {
    if st.pos < |text| && text[st.pos] == RBRACE then
      Success(FinalizeEntry(st.(pos := st.pos + 1), index))
    else
      var s :- StripChar(text, st.kind, st.pos, COMMA);
      var st :- SkipWsAndComments(text, mode, st, s);
      ObjectMembers(text, mode, st, index)
  }

  /** `JsonParser::parse`: one value, then nothing but whitespace (and
      comments). The result is the index and the handler's comments. */
  function Parse(text: seq<Byte>, mode: Mode, comments: seq<Range>): (r: Result<(seq<JsonValueIndexEntry>, seq<Range>), JsonParseError>)
    ensures r.Success? ==> |r.value.0| > 0 && comments <= r.value.1
    ensures r.Failure? ==> SyntaxError(text, 0, r.error) || r.error.UnexpectedTrailingChar?
  {
    var st :- ParseValue(text, mode, PState(0, None, [], comments));
    var st :- CheckTrailingChar(text, mode, st);
    Success((st.values, st.comments))
  }

  /** After the value only whitespace and comments may remain. */
  function CheckTrailingChar(text: seq<Byte>, mode: Mode, st: PState): (r: Result<PState, JsonParseError>)
    requires st.pos <= |text| && st.kind.Some?
    ensures r.Success? ==> r.value.pos == |text| && r.value.values == st.values && st.comments <= r.value.comments
    ensures r.Failure? ==>
      SyntaxError(text, 0, r.error)
      || (r.error.UnexpectedTrailingChar? && r.error.trailingKind == st.kind.value && st.pos <= r.error.position < |text|)
  {
    var st' :- SkipWsAndComments(text, mode, st, st.pos);
    if st'.pos < |text| then Failure(UnexpectedTrailingChar(st'.kind.value, st'.pos))
    else Success(st')
  }
}
