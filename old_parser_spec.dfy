/** What the earlier, stricter `JsonParser` of src/parser.rs computes,
    stated as functions over byte positions. Its `text: &str` (the unparsed
    rest) is the position `pos` into the original text, and `values` is the
    index it builds. The declarations of `JsonError`, `JsonValueStrKind`
    and its `JsonValueIndexEntry` live in src/str.rs, which is not part of
    this model; their variants are the ones src/parser.rs uses. */
module OldParserSpec {
  import opened Wrappers
  import opened Bytes
  import opened Grammar
  import P = ParseSpec

  datatype StrKind = NullKind | BoolKind | NumberKind(integer: bool) | StringKind(escaped: bool) | ArrayKind | ObjectKind

  datatype Entry = Entry(kind: StrKind, start: nat, end: nat, endIndex: nat)

  datatype JsonError =
    | UnexpectedEos(position: nat)
    | InvalidNumber(position: nat)
    | InvalidString(position: nat)
    | InvalidArray(position: nat)
    | InvalidObject(position: nat)
    | InvalidValue(position: nat)
    | UnmatchedArrayClose(position: nat)
    | UnmatchedObjectClose(position: nat)
    | NotEos(position: nat)

  datatype State = State(pos: nat, values: seq<Entry>)

  const NULL: seq<Byte> := [LOWER_N] + NULL_SUFFIX
  const TRUE: seq<Byte> := [LOWER_T] + TRUE_SUFFIX
  const FALSE: seq<Byte> := [LOWER_F] + FALSE_SUFFIX

  /** `WHITESPACE_PATTERN` skipped from `p`. */
  function Trim(text: seq<Byte>, p: nat): (q: nat)
    requires p <= |text|
    ensures p <= q <= |text| && (q < |text| ==> !IsWhitespace(text[q]))
  {
    P.TrimStartMatches(text, p, P.Whitespace)
  }

  /** `NUMBER_END_PATTERN`: what may follow a number. */
  predicate IsNumberEnd(b: Byte) {
    IsWhitespace(b) || b == COMMA || b == RBRACKET || b == RBRACE
  }

  predicate At(text: seq<Byte>, p: nat, b: Byte) {
    p < |text| && text[p] == b
  }

  /** `unexpected_eos`: the rest of the text is consumed, so the error is
      at its end. */
  function Eos(text: seq<Byte>): JsonError {
    UnexpectedEos(|text|)
  }

  /** A failure of a value starting at `lo`: at the end of the text, or at
      or after `lo` inside it. */
  predicate ErrorFrom(text: seq<Byte>, lo: nat, e: JsonError) {
    (e.UnexpectedEos? && e.position == |text|) || (!e.UnexpectedEos? && lo <= e.position < |text|)
  }

  /** The shape every entry keeps while parsing up to `pos`: its subtree
      ends after it and within the index, its range ends by `pos`, and a
      leaf's subtree is itself. */
  predicate Bounded(values: seq<Entry>, pos: nat) {
    forall i | 0 <= i < |values| ::
      i < values[i].endIndex <= |values| && values[i].start <= values[i].end <= pos
      && (!values[i].kind.ArrayKind? && !values[i].kind.ObjectKind? ==> values[i].endIndex == i + 1)
  }

  /** `values[index]` is the placeholder of an open `kind` composite that
      starts at or before `st.pos`. */
  predicate Open(st: State, index: nat, kind: StrKind) {
    index < |st.values| && st.values[index].kind == kind && st.values[index].start <= st.pos
  }

  /** `st` continues `st0`, whose `values[index]` is open: that entry and
      those before it are kept and the position has moved on. */
  predicate Continues(text: seq<Byte>, st0: State, st: State, index: nat, kind: StrKind) {
    Open(st0, index, kind) && st0.pos < st.pos <= |text| && |st0.values| < |st.values|
    && st.values[..index + 1] == st0.values[..index + 1]
    && (Bounded(st0.values, st0.pos) ==> Bounded(st.values, st.pos))
  }

  /** `values[index]` of `r` covers the text from `start` to `r.pos` and
      its subtree reaches the end of the index. */
  predicate Spans(r: State, index: nat, start: nat) {
    index < |r.values| && r.values[index].start == start && r.values[index].end == r.pos
    && r.values[index].endIndex == |r.values|
  }

  /** The open composite `values[index]` of `st` was closed in `r`. */
  predicate Closes(st: State, r: State, index: nat) {
    index < |st.values| && Spans(r, index, st.values[index].start) && r.values[index].kind == st.values[index].kind
  }

  /** A successful parse of one value from `st` ending in `r`. */
  predicate Advanced(text: seq<Byte>, st: State, r: State, keep: nat) {
    st.pos < r.pos <= |text| && keep <= |st.values| < |r.values| && r.values[..keep] == st.values[..keep]
    && (Bounded(st.values, st.pos) ==> Bounded(r.values, r.pos))
  }

  /** A value parsed at or after the position of an open composite
      continues it. */
  lemma OpenThenAdvanced(text: seq<Byte>, st: State, q: nat, st2: State, index: nat, kind: StrKind)
    requires Open(st, index, kind) && st.pos <= q
    requires Advanced(text, State(q, st.values), st2, |st.values|)
    ensures Continues(text, st, st2, index, kind)
  {
    assert st2.values[..index + 1] == st2.values[..|st.values|][..index + 1];
  }

  /** A value parsed after whitespace or a separator continues an open
      composite. */
  lemma ContinuesThrough(text: seq<Byte>, st0: State, st: State, q: nat, st2: State, index: nat, kind: StrKind)
    requires Continues(text, st0, st, index, kind) && st.pos <= q
    requires Advanced(text, State(q, st.values), st2, |st.values|)
    ensures Continues(text, st0, st2, index, kind)
  {
    assert st2.values[..index + 1] == st2.values[..|st.values|][..index + 1];
  }

  /** Closing a composite that `st` continues completes it. */
  lemma CloseCompletes(text: seq<Byte>, st0: State, st: State, q: nat, index: nat, kind: StrKind)
    requires Continues(text, st0, st, index, kind) && st.pos < q <= |text|
    requires kind == ArrayKind || kind == ObjectKind
    ensures Advanced(text, st0, Close(st, q, index), index) && Closes(st0, Close(st, q, index), index)
  {
    assert st.values[index] == st0.values[index];
    assert st.values[..index] == st.values[..index + 1][..index];
    if Bounded(st0.values, st0.pos) {
      assert Bounded(st.values, q);
    }
  }

  /** What follows a separator completes the composite if the separator
      is at or after where `st` continues it. */
  lemma RestCompletes(text: seq<Byte>, st0: State, st: State, q: nat, r: State, index: nat, kind: StrKind)
    requires Continues(text, st0, st, index, kind) && st.pos <= q
    requires Advanced(text, State(q, st.values), r, index) && Closes(State(q, st.values), r, index)
    ensures Advanced(text, st0, r, index) && Closes(st0, r, index)
  {
    assert st.values[index] == st0.values[index];
    assert st.values[..index] == st.values[..index + 1][..index];
    if Bounded(st0.values, st0.pos) {
      assert Bounded(st.values, q);
    }
  }

  /** `push_value(kind, len)`: an entry for the `len` bytes at `pos`, whose
      subtree is itself; the position moves past them. */
  function Push(st: State, kind: StrKind, len: nat): (r: State)
    ensures r.pos == st.pos + len && |r.values| == |st.values| + 1 && r.values[..|st.values|] == st.values
    ensures r.values[|st.values|] == Entry(kind, st.pos, st.pos + len, |st.values| + 1)
    ensures Bounded(st.values, st.pos) ==> Bounded(r.values, r.pos)
  {
    State(st.pos + len, st.values + [Entry(kind, st.pos, st.pos + len, |st.values| + 1)])
  }

  /** The position moves to `pos` and the placeholder `values[index]` of
      a composite now ends there, its subtree at the end of the index. */
  function Close(st: State, pos: nat, index: nat): (r: State)
    requires index < |st.values| && st.pos <= pos
    ensures r.pos == pos && |r.values| == |st.values| && r.values[..index] == st.values[..index]
    ensures r.values[index] == st.values[index].(end := pos, endIndex := |st.values|)
    ensures Bounded(st.values, st.pos) && st.values[index].start <= st.pos && (st.values[index].kind.ArrayKind? || st.values[index].kind.ObjectKind?)
      ==> Bounded(r.values, r.pos)
  {
    var e := st.values[index];
    State(pos, st.values[index := e.(end := pos, endIndex := |st.values|)])
  }

  /** Where the position was before the close does not matter. */
  lemma CloseFrom(a: nat, b: nat, values: seq<Entry>, pos: nat, index: nat)
    requires index < |values| && a <= pos && b <= pos
    ensures Close(State(a, values), pos, index) == Close(State(b, values), pos, index)
  {
  }

  /** `parse_value`: whitespace, then a value chosen by how the text
      starts. */
  function ParseValue(text: seq<Byte>, st: State): (r: Result<State, JsonError>)
    requires st.pos <= |text|
    ensures r.Success? ==> Advanced(text, st, r.value, |st.values|)
    ensures r.Success? ==> Spans(r.value, |st.values|, Trim(text, st.pos))
    ensures r.Failure? ==> ErrorFrom(text, st.pos, r.error)
    decreases |text| - st.pos, 3
  {
    ValueAt(text, st.(pos := Trim(text, st.pos)))
  }

  /** The dispatch of `parse_value` once the whitespace is skipped. */
  function ValueAt(text: seq<Byte>, st: State): (r: Result<State, JsonError>)
    requires st.pos <= |text|
    ensures r.Success? ==> Advanced(text, st, r.value, |st.values|)
    ensures r.Success? ==> Spans(r.value, |st.values|, st.pos)
    ensures r.Failure? ==> ErrorFrom(text, st.pos, r.error)
    decreases |text| - st.pos, 2
  {
    var p := st.pos;
    if P.StartsWithAt(text, p, NULL) then Success(Push(st, NullKind, 4))
    else if P.StartsWithAt(text, p, TRUE) then Success(Push(st, BoolKind, 4))
    else if P.StartsWithAt(text, p, FALSE) then Success(Push(st, BoolKind, 5))
    else if p < |text| && (IsDigit(text[p]) || text[p] == MINUS) then ParseNumber(text, st)
    else if At(text, p, QUOTE) then ParseString(text, st, p + 1)
    else if At(text, p, LBRACKET) then ParseArray(text, st)
    else if At(text, p, LBRACE) then ParseObject(text, st)
    else if p < |text| then
      if text[p] == PLUS || text[p] == DOT then Failure(InvalidNumber(p))
      else if text[p] == RBRACKET then Failure(UnmatchedArrayClose(p))
      else if text[p] == RBRACE then Failure(UnmatchedObjectClose(p))
      else Failure(InvalidValue(p))
    else Failure(Eos(text))
  }

  /** One or more digits from `s`, else `eos_or_number_error` for the
      number starting at `p`. */
  function Digits(text: seq<Byte>, p: nat, s: nat): (r: Result<nat, JsonError>)
    requires p <= s <= |text|
    ensures r.Success? ==> s < r.value <= |text| && (r.value < |text| ==> !IsDigit(text[r.value]))
    ensures r.Failure? <==> !(s < |text| && IsDigit(text[s]))
    ensures r.Failure? ==> r.error == if s == |text| then Eos(text) else InvalidNumber(p)
  {
    if s < |text| && IsDigit(text[s]) then Success(P.TrimStartMatches(text, s + 1, P.Digit))
    else if s == |text| then Failure(Eos(text))
    else Failure(InvalidNumber(p))
  }

  /** `int` of `parse_number`: a lone `0`, or digits; a `0` followed by a
      digit is an invalid number. */
  function NumberInt(text: seq<Byte>, p: nat, s: nat): (r: Result<nat, JsonError>)
    requires p <= s < |text|
    ensures r.Success? ==> s < r.value <= |text|
    ensures r.Failure? ==> ErrorFrom(text, p, r.error)
  {
    if text[s] == ZERO then
      if s + 1 < |text| && IsDigit(text[s + 1]) then Failure(InvalidNumber(p)) else Success(s + 1)
    else Digits(text, p, s)
  }

  /** `[ frac ]`: a `.` and digits make the number a non-integer. */
  function NumberFrac(text: seq<Byte>, p: nat, s: nat): (r: Result<(nat, bool), JsonError>)
    requires p <= s <= |text|
    ensures r.Success? ==> s <= r.value.0 <= |text| && (r.value.1 <==> r.value.0 == s)
    ensures r.Failure? ==> ErrorFrom(text, p, r.error)
  {
    if At(text, s, DOT) then
      var q :- Digits(text, p, s + 1);
      Success((q, false))
    else Success((s, true))
  }

  /** `[ exp ]`: `e` or `E`, an optional sign, digits. */
  function NumberExp(text: seq<Byte>, p: nat, s: nat, integer: bool): (r: Result<(nat, bool), JsonError>)
    requires p <= s <= |text|
    ensures r.Success? ==> s <= r.value.0 <= |text| && (r.value == (s, integer) || (s < r.value.0 && !r.value.1))
    ensures r.Failure? ==> ErrorFrom(text, p, r.error)
  {
    if At(text, s, LOWER_E) || At(text, s, UPPER_E) then
      var d := if At(text, s + 1, MINUS) || At(text, s + 1, PLUS) then s + 2 else s + 1;
      var q :- Digits(text, p, d);
      Success((q, false))
    else Success((s, integer))
  }

  /** The scan of `parse_number` from `p`: where the number ends and
      whether it is an integer. Every malformed number is reported at its
      first byte, a text ending early at the end of the text. */
  function NumberScan(text: seq<Byte>, p: nat): (r: Result<(nat, bool), JsonError>)
    requires p < |text|
    ensures r.Success? ==> p < r.value.0 <= |text| && (r.value.0 == |text| || IsNumberEnd(text[r.value.0]))
    ensures r.Failure? ==> ErrorFrom(text, p, r.error) && (r.error.UnexpectedEos? || r.error == InvalidNumber(p))
  {
    var s := if text[p] == MINUS then p + 1 else p;
    if s == |text| then Failure(Eos(text))
    else
      var i :- NumberInt(text, p, s);
      var f :- NumberFrac(text, p, i);
      var x :- NumberExp(text, p, f.0, f.1);
      if !(x.0 == |text| || IsNumberEnd(text[x.0])) then Failure(InvalidNumber(p))
      else Success(x)
  }

  /** `parse_number` at `st.pos`: one number entry. */
  function ParseNumber(text: seq<Byte>, st: State): (r: Result<State, JsonError>)
    requires st.pos < |text|
    ensures r.Success? ==> Advanced(text, st, r.value, |st.values|)
    ensures r.Success? ==> Spans(r.value, |st.values|, st.pos)
    ensures r.Failure? ==> ErrorFrom(text, st.pos, r.error)
  {
    var x :- NumberScan(text, st.pos);
    Success(Push(st, NumberKind(x.1), x.0 - st.pos))
  }

  /** One escape of `parse_string` of the string at `p`, `s` being the
      position after the backslash. */
  function EscapeAt(text: seq<Byte>, p: nat, s: nat): (r: Result<nat, JsonError>)
    requires p < s <= |text|
    ensures r.Success? ==> s < r.value <= |text|
    ensures r.Failure? ==> ErrorFrom(text, p, r.error)
  {
    if s == |text| then Failure(Eos(text))
    else if IsSimpleEscape(text[s]) then Success(s + 1)
    else if text[s] == LOWER_U then
      if |text| - s < 5 then Failure(Eos(text))
      else if !Hex4Ok(text[s + 1..s + 5]) then Failure(InvalidString(p))
      else Success(s + 5)
    else Failure(InvalidString(p))
  }

  /** The loop of `parse_string` for the string at `p`, from `s`: the
      closing quote and whether an escape was met. */
  function StringEnd(text: seq<Byte>, p: nat, s: nat, escaped: bool): (r: Result<(nat, bool), JsonError>)
    requires p < s <= |text|
    ensures r.Success? ==> s <= r.value.0 < |text| && text[r.value.0] == QUOTE && (escaped ==> r.value.1)
    ensures r.Failure? ==> ErrorFrom(text, p, r.error)
    decreases |text| - s
  {
    var s := P.TrimStartMatches(text, s, P.Unescaped);
    if At(text, s, QUOTE) then Success((s, escaped))
    else if s == |text| then Failure(Eos(text))
    else if text[s] != BACKSLASH then Failure(InvalidString(p))
    else
      var q :- EscapeAt(text, p, s + 1);
      StringEnd(text, p, q, true)
  }

  /** `parse_string` with the opening quote at `st.pos` and `s0` after it. */
  function ParseString(text: seq<Byte>, st: State, s0: nat): (r: Result<State, JsonError>)
    requires st.pos < s0 <= |text|
    ensures r.Success? ==> Advanced(text, st, r.value, |st.values|)
    ensures r.Success? ==> Spans(r.value, |st.values|, st.pos)
    ensures r.Failure? ==> ErrorFrom(text, st.pos, r.error)
  {
    var e :- StringEnd(text, st.pos, s0, false);
    Success(Push(st, StringKind(e.1), e.0 + 1 - st.pos))
  }

  /** `parse_array` with the `[` at `st.pos`: `[]`, or a placeholder entry
      and the loop over the elements. */
  function ParseArray(text: seq<Byte>, st: State): (r: Result<State, JsonError>)
    requires st.pos < |text|
    ensures r.Success? ==> Advanced(text, st, r.value, |st.values|)
    ensures r.Success? ==> Spans(r.value, |st.values|, st.pos)
    ensures r.Failure? ==> ErrorFrom(text, st.pos, r.error)
    decreases |text| - st.pos, 1
  {
    var s := Trim(text, st.pos + 1);
    if At(text, s, RBRACKET) then Success(Push(st, ArrayKind, s + 1 - st.pos))
    else ArrayElements(text, Push(st, ArrayKind, s - st.pos), |st.values|)
  }

  /** The loop of `parse_array` from `st.pos`: an element that may not
      start with `,` or `]`, then what follows it. */
  function ArrayElements(text: seq<Byte>, st: State, index: nat): (r: Result<State, JsonError>)
    requires st.pos <= |text| && Open(st, index, ArrayKind)
    ensures r.Success? ==> Advanced(text, st, r.value, index)
    ensures r.Success? ==> Closes(st, r.value, index)
    ensures r.Failure? ==> ErrorFrom(text, st.pos, r.error)
    decreases |text| - st.pos, 4
  {
    var q := Trim(text, st.pos);
    if At(text, q, COMMA) || At(text, q, RBRACKET) then Failure(InvalidArray(q))
    else
      var st1 :- ParseValue(text, st.(pos := q));
      ArrayNext(text, st, st1, index)
  }

  /** After an element that ended at `st.pos`: `]` closes the array, `,`
      continues, a `}` is unmatched; anything else is an invalid array at
      the end of the element. */
  function ArrayNext(text: seq<Byte>, st0: State, st: State, index: nat): (r: Result<State, JsonError>)
    requires Continues(text, st0, st, index, ArrayKind)
    ensures r.Success? ==> Advanced(text, st0, r.value, index)
    ensures r.Success? ==> Closes(st0, r.value, index)
    ensures r.Failure? ==> ErrorFrom(text, st0.pos, r.error)
    decreases |text| - st.pos, 5
  {
    var s := Trim(text, st.pos);
    if At(text, s, RBRACKET) then
      CloseCompletes(text, st0, st, s + 1, index, ArrayKind);
      Success(Close(st, s + 1, index))
    else if At(text, s, COMMA) then
      var r := ArrayElements(text, st.(pos := s + 1), index);
      if r.Success? then RestCompletes(text, st0, st, s + 1, r.value, index, ArrayKind); r else r
    else if s == |text| then Failure(Eos(text))
    else if text[s] == RBRACE then Failure(UnmatchedObjectClose(s))
    else Failure(InvalidArray(st.pos))
  }

  /** `eos_or_invalid_object` at `q`. */
  function ObjectError(text: seq<Byte>, q: nat): (e: JsonError)
    requires q <= |text|
    ensures ErrorFrom(text, q, e)
  {
    if q == |text| then Eos(text)
    else if text[q] == RBRACKET then UnmatchedArrayClose(q)
    else InvalidObject(q)
  }

  /** `parse_object` with the `{` at `st.pos`: `{}`, or a placeholder entry
      and the loop over the members. */
  function ParseObject(text: seq<Byte>, st: State): (r: Result<State, JsonError>)
    requires st.pos < |text|
    ensures r.Success? ==> Advanced(text, st, r.value, |st.values|)
    ensures r.Success? ==> Spans(r.value, |st.values|, st.pos)
    ensures r.Failure? ==> ErrorFrom(text, st.pos, r.error)
    decreases |text| - st.pos, 1
  {
    var s := Trim(text, st.pos + 1);
    if At(text, s, RBRACE) then Success(Push(st, ObjectKind, s + 1 - st.pos))
    else ObjectMembers(text, Push(st, ObjectKind, s - st.pos), |st.values|)
  }

  /** The loop of `parse_object` from `st.pos`: a string key, `:`, a value,
      then `}` or `,`. */
  function ObjectMembers(text: seq<Byte>, st: State, index: nat): (r: Result<State, JsonError>)
    requires st.pos <= |text| && Open(st, index, ObjectKind)
    ensures r.Success? ==> Advanced(text, st, r.value, index)
    ensures r.Success? ==> Closes(st, r.value, index)
    ensures r.Failure? ==> ErrorFrom(text, st.pos, r.error)
    decreases |text| - st.pos, 4
  {
    var q := Trim(text, st.pos);
    if !At(text, q, QUOTE) then Failure(ObjectError(text, q))
    else
      var st1 :- ParseString(text, st.(pos := q), q + 1);
      ObjectAfterKey(text, st, st1, index)
  }

  /** After the key of a member, which ended at `st.pos`. */
  function ObjectAfterKey(text: seq<Byte>, st0: State, st: State, index: nat): (r: Result<State, JsonError>)
    requires Continues(text, st0, st, index, ObjectKind)
    ensures r.Success? ==> Advanced(text, st0, r.value, index)
    ensures r.Success? ==> Closes(st0, r.value, index)
    ensures r.Failure? ==> ErrorFrom(text, st0.pos, r.error)
    decreases |text| - st.pos, 5
  {
    var c := Trim(text, st.pos);
    if !At(text, c, COLON) then Failure(ObjectError(text, c))
    else
      var st2 :- ParseValue(text, st.(pos := c + 1));
      ObjectNext(text, st0, st2, index)
  }

  /** After the value of a member, which ended at `st.pos`. */
  function ObjectNext(text: seq<Byte>, st0: State, st: State, index: nat): (r: Result<State, JsonError>)
    requires Continues(text, st0, st, index, ObjectKind)
    ensures r.Success? ==> Advanced(text, st0, r.value, index)
    ensures r.Success? ==> Closes(st0, r.value, index)
    ensures r.Failure? ==> ErrorFrom(text, st0.pos, r.error)
    decreases |text| - st.pos, 5
  {
    var e := Trim(text, st.pos);
    if At(text, e, RBRACE) then
      CloseCompletes(text, st0, st, e + 1, index, ObjectKind);
      Success(Close(st, e + 1, index))
    else if At(text, e, COMMA) then
      var r := ObjectMembers(text, st.(pos := e + 1), index);
      if r.Success? then RestCompletes(text, st0, st, e + 1, r.value, index, ObjectKind); r else r
    else Failure(ObjectError(text, e))
  }

  /** `check_eos`: only whitespace may remain. */
  function CheckEos(text: seq<Byte>, p: nat): (r: Result<nat, JsonError>)
    requires p <= |text|
    ensures r.Success? <==> Trim(text, p) == |text|
    ensures r.Success? ==> r.value == |text|
    ensures r.Failure? ==> p <= r.error.position < |text|
  {
    var q := Trim(text, p);
    if At(text, q, RBRACKET) then Failure(UnmatchedArrayClose(q))
    else if At(text, q, RBRACE) then Failure(UnmatchedObjectClose(q))
    else if q < |text| then Failure(NotEos(q))
    else Success(q)
  }

  /** The two public methods used together: one value, then nothing but
      whitespace. The index of the whole text, or the first error. */
  function Document(text: seq<Byte>): (r: Result<seq<Entry>, JsonError>)
    ensures r.Failure? ==> r.error.position <= |text|
  {
    var st :- ParseValue(text, State(0, []));
    var _ :- CheckEos(text, st.pos);
    Success(st.values)
  }
}
