/** The earlier `JsonParser` of src/parser.rs as a class whose fields are
    updated step by step like the Rust struct's. Its unparsed rest `text`
    is represented by its start `pos` in `originalText`, so `position()` is
    `pos`. Each method is proved to compute what the function of the same
    name in `OldParserSpec` describes. */
module OldParser {
  import opened Wrappers
  import opened Bytes
  import opened Grammar
  import P = ParseSpec
  import opened OldParserSpec

  /** A parser method that returned `r`, leaving the parser in state `now`,
      did what `spec` describes. */
  predicate Computes(spec: Result<State, JsonError>, r: Result<(), JsonError>, now: State) {
    if r.Success? then spec == Success(now) else spec == Failure(r.error)
  }

  class JsonParser {
    const originalText: seq<Byte>
    /** Where the unparsed rest of the text starts. */
    var pos: nat
    var values: seq<Entry>

    /** `new`: nothing parsed yet. */
    constructor (text: seq<Byte>)
      ensures originalText == text && pos == 0 && values == []
    {
      originalText := text;
      pos := 0;
      values := [];
    }

    /** `parse_value`: whitespace, then one value chosen by how the text
        starts. */
    method ParseValue() returns (r: Result<(), JsonError>)
      requires pos <= |originalText|
      modifies this
      ensures Computes(OldParserSpec.ParseValue(originalText, State(old(pos), old(values))), r, State(pos, values))
      decreases |originalText| - pos, 2
    {
      ghost var spec := OldParserSpec.ParseValue(originalText, State(pos, values));
      pos := Trim(originalText, pos);
      assert spec == ValueAt(originalText, State(pos, values));
      if P.StartsWithAt(originalText, pos, NULL) {
        PushValue(NullKind, 4);
      } else if P.StartsWithAt(originalText, pos, TRUE) {
        PushValue(BoolKind, 4);
      } else if P.StartsWithAt(originalText, pos, FALSE) {
        PushValue(BoolKind, 5);
      } else if pos < |originalText| && (IsDigit(originalText[pos]) || originalText[pos] == MINUS) {
        r := ParseNumber();
        return;
      } else if At(originalText, pos, QUOTE) {
        r := ParseString(pos + 1);
        return;
      } else if At(originalText, pos, LBRACKET) {
        r := ParseArray(pos + 1);
        return;
      } else if At(originalText, pos, LBRACE) {
        r := ParseObject(pos + 1);
        return;
      } else if pos < |originalText| {
        var c := originalText[pos];
        if c == PLUS || c == DOT {
          return Failure(InvalidNumber(pos));
        } else if c == RBRACKET {
          return Failure(UnmatchedArrayClose(pos));
        } else if c == RBRACE {
          return Failure(UnmatchedObjectClose(pos));
        } else {
          return Failure(InvalidValue(pos));
        }
      } else {
        var e := UnexpectedEos();
        return Failure(e);
      }
      return Success(());
    }

    /** `parse_number`: its `let s = ...` steps are the expression
        `NumberScan`; a failure at the end of the text consumes the text. */
    method ParseNumber() returns (r: Result<(), JsonError>)
      requires pos < |originalText|
      modifies this
      ensures Computes(OldParserSpec.ParseNumber(originalText, State(old(pos), old(values))), r, State(pos, values))
    {
      var x := NumberScan(originalText, pos);
      if x.Failure? {
        var e := EosOrNumberError(x.error);
        return Failure(e);
      }
      PushValue(NumberKind(x.value.1), x.value.0 - pos);
      return Success(());
    }

    /** `eos_or_number_error`: an error at the end of the text consumes
        it. */
    method EosOrNumberError(e: JsonError) returns (e2: JsonError)
      requires e.UnexpectedEos? ==> e == Eos(originalText)
      modifies this
      ensures e2 == e && pos == if e.UnexpectedEos? then |originalText| else old(pos)
      ensures values == old(values)
    {
      if e.UnexpectedEos? {
        e2 := UnexpectedEos();
        return;
      }
      return e;
    }

    /** `parse_string(s)` with the opening quote at `pos` and `s0` after
        it. */
    method ParseString(s0: nat) returns (r: Result<(), JsonError>)
      requires pos < s0 <= |originalText|
      modifies this
      ensures Computes(OldParserSpec.ParseString(originalText, State(old(pos), old(values)), s0), r, State(pos, values))
    {
      var e := StringLoop(pos, s0);
      if e.Failure? {
        if e.error.UnexpectedEos? {
          var eos := UnexpectedEos();
          return Failure(eos);
        }
        return Failure(e.error);
      }
      PushValue(StringKind(e.value.1), e.value.0 + 1 - pos);
      return Success(());
    }

    /** The loop of `parse_string` for the string whose quote is at `p`:
        the position of the closing quote and whether an escape was met. */
    method StringLoop(p: nat, s0: nat) returns (r: Result<(nat, bool), JsonError>)
      requires p < s0 <= |originalText|
      ensures r == StringEnd(originalText, p, s0, false)
    {
      var escaped := false;
      var s := s0;
      while true
        invariant s0 <= s <= |originalText|
        invariant StringEnd(originalText, p, s, escaped) == StringEnd(originalText, p, s0, false)
        decreases |originalText| - s
      {
        s := P.TrimStartMatches(originalText, s, P.Unescaped);
        if At(originalText, s, QUOTE) {
          return Success((s, escaped));
        }
        if s == |originalText| {
          return Failure(Eos(originalText));
        }
        escaped := true;
        if originalText[s] != BACKSLASH {
          return Failure(InvalidString(p));
        }
        s :- EscapeAt(originalText, p, s + 1);
      }
    }

    /** `parse_array(s)` with the `[` at `pos` and `s` after it. */
    method ParseArray(s: nat) returns (r: Result<(), JsonError>)
      requires pos < |originalText| && s == pos + 1
      modifies this
      ensures Computes(OldParserSpec.ParseArray(originalText, State(old(pos), old(values))), r, State(pos, values))
      decreases |originalText| - pos, 1
    {
      var s := Trim(originalText, s);
      if At(originalText, s, RBRACKET) {
        PushValue(ArrayKind, s + 1 - pos);
        return Success(());
      }
      var index := |values|;
      ghost var st0 := State(pos, values);
      PushValue(ArrayKind, s - pos);
      assert OldParserSpec.ParseArray(originalText, st0) == ArrayElements(originalText, State(pos, values), index);
      r := ArrayLoop(index);
    }

    /** The loop of `parse_array`, until the closing bracket or an error. */
    method ArrayLoop(index: nat) returns (r: Result<(), JsonError>)
      requires pos <= |originalText| && Open(State(pos, values), index, ArrayKind)
      modifies this
      ensures Computes(ArrayElements(originalText, State(old(pos), old(values)), index), r, State(pos, values))
      decreases |originalText| - pos, 4
    {
      ghost var spec := ArrayElements(originalText, State(pos, values), index);
      while true
        invariant pos <= |originalText| && Open(State(pos, values), index, ArrayKind)
        invariant spec == ArrayElements(originalText, State(pos, values), index)
        decreases |originalText| - pos
      {
        var closed :- ArrayRound(index);
        if closed {
          return Success(());
        }
      }
    }

    /** One round of the loop of `parse_array`: an element, then either `]`,
        which closes the array (`true`), or `,` (`false`). */
    method ArrayRound(index: nat) returns (r: Result<bool, JsonError>)
      requires pos <= |originalText| && Open(State(pos, values), index, ArrayKind)
      modifies this
      ensures var spec := ArrayElements(originalText, State(old(pos), old(values)), index);
        match r
        case Failure(e) => spec == Failure(e)
        case Success(true) => spec == Success(State(pos, values))
        case Success(false) =>
          old(pos) < pos <= |originalText| && Open(State(pos, values), index, ArrayKind)
          && spec == ArrayElements(originalText, State(pos, values), index)
      decreases |originalText| - pos, 3
    {
      ghost var st0 := State(pos, values);
      pos := Trim(originalText, pos);
      if At(originalText, pos, COMMA) || At(originalText, pos, RBRACKET) {
        return Failure(InvalidArray(pos));
      }
      ghost var q := pos;
      var _ :- ParseValue();
      OpenThenAdvanced(originalText, st0, q, State(pos, values), index, ArrayKind);
      assert ArrayElements(originalText, st0, index) == OldParserSpec.ArrayNext(originalText, st0, State(pos, values), index);
      r := ArrayNext(st0, index);
    }

    /** The end of a round once the element has ended: `]` or `,`; the
        error for anything else is at the end of the element. */
    method ArrayNext(ghost st0: State, index: nat) returns (r: Result<bool, JsonError>)
      requires Continues(originalText, st0, State(pos, values), index, ArrayKind)
      modifies this
      ensures var spec := OldParserSpec.ArrayNext(originalText, st0, State(old(pos), old(values)), index);
        match r
        case Failure(e) => spec == Failure(e)
        case Success(true) => spec == Success(State(pos, values))
        case Success(false) =>
          st0.pos < pos <= |originalText| && Open(State(pos, values), index, ArrayKind)
          && spec == ArrayElements(originalText, State(pos, values), index)
    {
      var s := Trim(originalText, pos);
      if At(originalText, s, RBRACKET) {
        CloseFrom(pos, s + 1, values, s + 1, index);
        pos := s + 1;
        Finalize(index);
        return Success(true);
      } else if At(originalText, s, COMMA) {
        pos := s + 1;
        return Success(false);
      } else if s == |originalText| {
        var e := UnexpectedEos();
        return Failure(e);
      } else if originalText[s] == RBRACE {
        pos := s;
        return Failure(UnmatchedObjectClose(pos));
      } else {
        return Failure(InvalidArray(pos));
      }
    }

    /** `parse_object(s)` with the `{` at `pos` and `s` after it. */
    method ParseObject(s: nat) returns (r: Result<(), JsonError>)
      requires pos < |originalText| && s == pos + 1
      modifies this
      ensures Computes(OldParserSpec.ParseObject(originalText, State(old(pos), old(values))), r, State(pos, values))
      decreases |originalText| - pos, 1
    {
      var s := Trim(originalText, s);
      if At(originalText, s, RBRACE) {
        PushValue(ObjectKind, s + 1 - pos);
        return Success(());
      }
      var index := |values|;
      ghost var st0 := State(pos, values);
      PushValue(ObjectKind, s - pos);
      assert OldParserSpec.ParseObject(originalText, st0) == ObjectMembers(originalText, State(pos, values), index);
      r := ObjectLoop(index);
    }

    /** The loop of `parse_object`, until the closing bracket or an error. */
    method ObjectLoop(index: nat) returns (r: Result<(), JsonError>)
      requires pos <= |originalText| && Open(State(pos, values), index, ObjectKind)
      modifies this
      ensures Computes(ObjectMembers(originalText, State(old(pos), old(values)), index), r, State(pos, values))
      decreases |originalText| - pos, 4
    {
      ghost var spec := ObjectMembers(originalText, State(pos, values), index);
      while true
        invariant pos <= |originalText| && Open(State(pos, values), index, ObjectKind)
        invariant spec == ObjectMembers(originalText, State(pos, values), index)
        decreases |originalText| - pos
      {
        var closed :- ObjectRound(index);
        if closed {
          return Success(());
        }
      }
    }

    /** One round of the loop of `parse_object`: a key, `:` and a value,
        then either `}`, which closes the object (`true`), or `,`
        (`false`). */
    method ObjectRound(index: nat) returns (r: Result<bool, JsonError>)
      requires pos <= |originalText| && Open(State(pos, values), index, ObjectKind)
      modifies this
      ensures var spec := ObjectMembers(originalText, State(old(pos), old(values)), index);
        match r
        case Failure(e) => spec == Failure(e)
        case Success(true) => spec == Success(State(pos, values))
        case Success(false) =>
          old(pos) < pos <= |originalText| && Open(State(pos, values), index, ObjectKind)
          && spec == ObjectMembers(originalText, State(pos, values), index)
      decreases |originalText| - pos, 3
    {
      ghost var st0 := State(pos, values);
      pos := Trim(originalText, pos);
      if !At(originalText, pos, QUOTE) {
        var e := EosOrInvalidObject();
        return Failure(e);
      }
      ghost var q := pos;
      var _ :- ParseString(pos + 1);
      OpenThenAdvanced(originalText, st0, q, State(pos, values), index, ObjectKind);
      assert ObjectMembers(originalText, st0, index) == ObjectAfterKey(originalText, st0, State(pos, values), index);
      r := ObjectMemberValue(st0, index);
    }

    /** The rest of a round once the key has ended: `:`, the value, then
        `}` or `,`. */
    method ObjectMemberValue(ghost st0: State, index: nat) returns (r: Result<bool, JsonError>)
      requires Continues(originalText, st0, State(pos, values), index, ObjectKind)
      modifies this
      ensures var spec := ObjectAfterKey(originalText, st0, State(old(pos), old(values)), index);
        match r
        case Failure(e) => spec == Failure(e)
        case Success(true) => spec == Success(State(pos, values))
        case Success(false) =>
          st0.pos < pos <= |originalText| && Open(State(pos, values), index, ObjectKind)
          && spec == ObjectMembers(originalText, State(pos, values), index)
      decreases |originalText| - pos, 3
    {
      pos := Trim(originalText, pos);
      if !At(originalText, pos, COLON) {
        var e := EosOrInvalidObject();
        return Failure(e);
      }
      pos := pos + 1;
      ghost var q := pos;
      var _ :- ParseValue();
      ContinuesThrough(originalText, st0, State(old(pos), old(values)), q, State(pos, values), index, ObjectKind);
      assert ObjectAfterKey(originalText, st0, State(old(pos), old(values)), index)
        == OldParserSpec.ObjectNext(originalText, st0, State(pos, values), index);
      r := ObjectNext(st0, index);
    }

    /** The end of a round once the value has ended: `}` or `,`. */
    method ObjectNext(ghost st0: State, index: nat) returns (r: Result<bool, JsonError>)
      requires Continues(originalText, st0, State(pos, values), index, ObjectKind)
      modifies this
      ensures var spec := OldParserSpec.ObjectNext(originalText, st0, State(old(pos), old(values)), index);
        match r
        case Failure(e) => spec == Failure(e)
        case Success(true) => spec == Success(State(pos, values))
        case Success(false) =>
          st0.pos < pos <= |originalText| && Open(State(pos, values), index, ObjectKind)
          && spec == ObjectMembers(originalText, State(pos, values), index)
    {
      ghost var p0 := pos;
      pos := Trim(originalText, pos);
      if At(originalText, pos, RBRACE) {
        CloseFrom(p0, pos + 1, values, pos + 1, index);
        pos := pos + 1;
        Finalize(index);
        return Success(true);
      }
      if !At(originalText, pos, COMMA) {
        var e := EosOrInvalidObject();
        return Failure(e);
      }
      pos := pos + 1;
      return Success(false);
    }

    /** `eos_or_invalid_object` at `pos`. */
    method EosOrInvalidObject() returns (e: JsonError)
      requires pos <= |originalText|
      modifies this
      ensures e == ObjectError(originalText, old(pos)) && values == old(values)
    {
      if pos == |originalText| {
        e := UnexpectedEos();
      } else if originalText[pos] == RBRACKET {
        e := UnmatchedArrayClose(pos);
      } else {
        e := InvalidObject(pos);
      }
    }

    /** `check_eos`: only whitespace may remain. */
    method CheckEos() returns (r: Result<(), JsonError>)
      requires pos <= |originalText|
      modifies this
      ensures values == old(values)
      ensures var spec := OldParserSpec.CheckEos(originalText, old(pos));
        if r.Success? then spec == Success(pos) else spec == Failure(r.error)
    {
      pos := Trim(originalText, pos);
      if At(originalText, pos, RBRACKET) {
        return Failure(UnmatchedArrayClose(pos));
      } else if At(originalText, pos, RBRACE) {
        return Failure(UnmatchedObjectClose(pos));
      } else if pos < |originalText| {
        return Failure(NotEos(pos));
      }
      return Success(());
    }

    /** `push_value(kind, len)`. */
    method PushValue(kind: StrKind, len: nat)
      modifies this
      ensures State(pos, values) == Push(State(old(pos), old(values)), kind, len)
    {
      var entry := Entry(kind, pos, pos + len, |values| + 1);
      values := values + [entry];
      pos := pos + len;
    }

    /** The end of a composite: `values[index]` ends at `pos`, its subtree
        at the end of the index. */
    method Finalize(index: nat)
      requires index < |values|
      modifies this
      ensures pos == old(pos) && State(pos, values) == Close(State(pos, old(values)), pos, index)
    {
      values := values[index := values[index].(end := pos, endIndex := |values|)];
    }

    /** `unexpected_eos`: the rest of the text is consumed. */
    method UnexpectedEos() returns (e: JsonError)
      modifies this
      ensures pos == |originalText| && values == old(values) && e == Eos(originalText)
    {
      pos := |originalText|;
      return JsonError.UnexpectedEos(pos);
    }
  }
}
