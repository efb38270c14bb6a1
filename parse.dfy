/** `JsonParser` and the comment handlers of src/parse.rs, as a class whose
    fields are updated step by step like the Rust struct's. The unparsed
    rest `text` of the Rust parser is represented by its start `pos` in
    `originalText`. Each method is proved to compute what the function of
    the same name in `ParseSpec` describes. */
module Parse {
  import opened Wrappers
  import opened Bytes
  import opened Kind
  import opened ParseError
  import opened Grammar
  import opened Table
  import Spec = ParseSpec

  /** `NoopCommentHandler` (mode Noop) and `JsoncCommentHandler` (mode
      Jsonc), the two implementations of `HandleComment`. */
  class CommentHandler {
    const mode: Spec.Mode
    var comments: seq<Range>

    constructor (mode: Spec.Mode)
      ensures this.mode == mode && comments == []
    {
      this.mode := mode;
      comments := [];
    }

    /** `handle_comment` on the text from `p`: the position after the
        comments, or None for an unterminated block comment. */
    method HandleComment(originalText: seq<Byte>, p: nat) returns (r: Option<nat>)
      requires p <= |originalText|
      modifies this
      ensures var spec := Spec.HandleComment(originalText, mode, p, old(comments));
        (spec.None? <==> r.None?) && (spec.Some? ==> r == Some(spec.value.0) && comments == spec.value.1)
    {
      if mode == Spec.Noop {
        return Some(p);
      }
      var text := p;
      while true
        invariant text <= |originalText|
        invariant Spec.JsoncComments(originalText, text, comments) == Spec.JsoncComments(originalText, p, old(comments))
        decreases |originalText| - text
      {
        var start := text;
        if Spec.StartsWithAt(originalText, text, Spec.LINE_COMMENT) {
          text := Spec.TrimStartMatches(originalText, text + 2, Spec.NotLineFeed);
        } else if Spec.StartsWithAt(originalText, text, Spec.BLOCK_COMMENT_START) {
          var offset := Spec.FindBlockEnd(originalText, text + 2);
          if offset.None? {
            return None;
          }
          text := offset.value + 2;
        } else {
          break;
        }
        assert Spec.JsoncComments(originalText, start, comments)
          == Spec.JsoncComments(originalText, Spec.TrimStartMatches(originalText, text, Spec.Whitespace), comments + [Range(start, text)]);
        var end := text;
        comments := comments + [Range(start, end)];
        text := Spec.TrimStartMatches(originalText, text, Spec.Whitespace);
      }
      return Some(text);
    }
  }

  /** A parser method that returned `r`, leaving the parser in state `now`,
      did what `spec` describes. */
  predicate Computes(spec: Result<Spec.PState, JsonParseError>, r: Result<(), JsonParseError>, now: Spec.PState) {
    if r.Success? then spec == Success(now) else spec == Failure(r.error)
  }

  class JsonParser {
    const originalText: seq<Byte>
    /** Where the unparsed rest of the text starts. */
    var pos: nat
    var kind: Option<JsonValueKind>
    var values: seq<JsonValueIndexEntry>
    const handler: CommentHandler

    constructor (text: seq<Byte>, handler: CommentHandler)
      ensures originalText == text && this.handler == handler
      ensures pos == 0 && kind == None && values == []
    {
      originalText := text;
      pos := 0;
      kind := None;
      values := [];
      this.handler := handler;
    }

    /** `parse`: the index and the handler's comments, or the first error. */
    method Parse() returns (r: Result<(seq<JsonValueIndexEntry>, seq<Range>), JsonParseError>)
      requires pos == 0 && kind == None && values == []
      modifies this, handler
      ensures r == Spec.Parse(originalText, handler.mode, old(handler.comments))
    {
      var _ :- ParseValue();
      ghost var st := Spec.PState(pos, kind, values, handler.comments);
      assert Spec.ParseValue(originalText, handler.mode, Spec.PState(0, None, [], old(handler.comments))) == Success(st);
      var _ :- CheckTrailingChar();
      return Success((values, handler.comments));
    }

    /** `check_trailing_char`: only whitespace and comments may remain. */
    method CheckTrailingChar() returns (r: Result<(), JsonParseError>)
      requires pos <= |originalText| && kind.Some?
      modifies this, handler
      ensures Computes(Spec.CheckTrailingChar(originalText, handler.mode, Spec.PState(old(pos), old(kind), old(values), old(handler.comments))),
        r, Spec.PState(pos, kind, values, handler.comments))
    {
      var p :- SkipWhitespacesAndComments(pos);
      pos := p;
      if pos < |originalText| {
        return Failure(UnexpectedTrailingChar(kind.value, pos));
      }
      return Success(());
    }

    /** `skip_whitespaces_and_comments(s)`: only the handler changes. */
    method SkipWhitespacesAndComments(s: nat) returns (r: Result<nat, JsonParseError>)
      requires s <= |originalText|
      modifies handler
      ensures var spec := Spec.SkipWsAndComments(originalText, handler.mode, Spec.PState(pos, kind, values, old(handler.comments)), s);
        if r.Success? then spec == Success(Spec.PState(r.value, kind, values, handler.comments)) else spec == Failure(r.error)
    {
      var q := Spec.TrimStartMatches(originalText, s, Spec.Whitespace);
      var h := handler.HandleComment(originalText, q);
      if h.None? {
        return Failure(Spec.UnexpectedEosError(originalText, kind));
      }
      return Success(h.value);
    }

    /** `parse_value`: blanks, then one value of any kind. */
    method ParseValue() returns (r: Result<(), JsonParseError>)
      requires pos <= |originalText|
      modifies this, handler
      ensures Computes(Spec.ParseValue(originalText, handler.mode, Spec.PState(old(pos), old(kind), old(values), old(handler.comments))),
        r, Spec.PState(pos, kind, values, handler.comments))
      decreases |originalText| - pos, 4
    {
      var p :- SkipWhitespacesAndComments(pos);
      pos := p;
      r := ValueAt();
    }

    /** The value starting at `pos`, chosen by its first character. */
    method ValueAt() returns (r: Result<(), JsonParseError>)
      requires pos <= |originalText|
      modifies this, handler
      ensures Computes(Spec.ValueAt(originalText, handler.mode, Spec.PState(old(pos), old(kind), old(values), old(handler.comments))),
        r, Spec.PState(pos, kind, values, handler.comments))
      decreases |originalText| - pos, 3
    {
      ghost var st := Spec.PState(pos, kind, values, handler.comments);
      ghost var spec := Spec.ValueAt(originalText, handler.mode, st);
      if pos == |originalText| {
        return Failure(Spec.UnexpectedEosError(originalText, kind));
      }
      var c := originalText[pos];
      if c == LOWER_N {
        assert spec == Spec.ParseLiteral(originalText, st, Null, NULL_SUFFIX);
        r := ParseLiteral(Null, NULL_SUFFIX, pos + 1);
      } else if c == LOWER_T {
        assert spec == Spec.ParseLiteral(originalText, st, Bool, TRUE_SUFFIX);
        r := ParseLiteral(Bool, TRUE_SUFFIX, pos + 1);
      } else if c == LOWER_F {
        assert spec == Spec.ParseLiteral(originalText, st, Bool, FALSE_SUFFIX);
        r := ParseLiteral(Bool, FALSE_SUFFIX, pos + 1);
      } else if c == QUOTE {
        assert spec == Spec.ParseString(originalText, st, pos + 1);
        r := ParseString(pos + 1);
      } else if c == LBRACKET {
        assert spec == Spec.ParseArray(originalText, handler.mode, st);
        r := ParseArray(pos + 1);
      } else if c == LBRACE {
        assert spec == Spec.ParseObject(originalText, handler.mode, st);
        r := ParseObject(pos + 1);
      } else if IsDigit(c) || c == MINUS {
        assert spec == Spec.ParseNumber(originalText, st);
        r := ParseNumber();
      } else {
        r := Failure(Spec.ValueCharError(originalText, kind, pos));
      }
    }

    method ParseLiteral(k: JsonValueKind, suffix: seq<Byte>, s: nat) returns (r: Result<(), JsonParseError>)
      requires pos < |originalText| && s == pos + 1
      modifies this
      ensures Computes(Spec.ParseLiteral(originalText, Spec.PState(old(pos), old(kind), old(values), handler.comments), k, suffix),
        r, Spec.PState(pos, kind, values, handler.comments))
    {
      kind := Some(k);
      if Spec.StartsWithAt(originalText, s, suffix) {
        PushEntry(1 + |suffix|);
        return Success(());
      }
      var mismatch := FirstMismatch(s, suffix);
      if mismatch.Some? {
        return Failure(Spec.ValueCharError(originalText, kind, s + mismatch.value));
      }
      return Failure(Spec.UnexpectedEosError(originalText, kind));
    }

    /** The `for` loop of `parse_literal` over the zipped characters. */
    method FirstMismatch(s: nat, suffix: seq<Byte>) returns (r: Option<nat>)
      requires s <= |originalText|
      ensures r == Spec.FirstMismatch(originalText, s, suffix, 0)
    {
      var i := 0;
      while i < |suffix| && s + i < |originalText|
        invariant i <= |suffix| && s + i <= |originalText|
        invariant Spec.FirstMismatch(originalText, s, suffix, i) == Spec.FirstMismatch(originalText, s, suffix, 0)
        decreases |suffix| - i
      {
        if originalText[s + i] != suffix[i] {
          return Some(i);
        }
        i := i + 1;
      }
      return None;
    }

    /** `parse_number`: its three `let s = ...` steps are the expressions
        `Spec.NumberInt`, `Spec.NumberFrac` and `Spec.NumberExp`. The kind
        they settle on is stored when the entry is pushed; after a failure
        the parser is dropped and only the error carries the kind. */
    method ParseNumber() returns (r: Result<(), JsonParseError>)
      requires pos < |originalText|
      modifies this
      ensures Computes(Spec.ParseNumber(originalText, Spec.PState(old(pos), old(kind), old(values), handler.comments)),
        r, Spec.PState(pos, kind, values, handler.comments))
    {
      var s :- Spec.NumberInt(originalText, pos);
      var f :- Spec.NumberFrac(originalText, s);
      var x :- Spec.NumberExp(originalText, f);
      kind := Some(x.kind);
      PushEntry(x.end - pos);
      return Success(());
    }

    method ParseString(s0: nat) returns (r: Result<(), JsonParseError>)
      requires pos < s0 <= |originalText|
      modifies this
      ensures Computes(Spec.ParseString(originalText, Spec.PState(old(pos), old(kind), old(values), handler.comments), s0),
        r, Spec.PState(pos, kind, values, handler.comments))
    {
      var escaped := false;
      kind := Some(String);
      var s := s0;
      while true
        invariant s0 <= s <= |originalText|
        invariant Spec.StringEnd(originalText, s, escaped) == Spec.StringEnd(originalText, s0, false)
        decreases |originalText| - s
      {
        s := Spec.TrimStartMatches(originalText, s, Spec.Unescaped);
        if s < |originalText| && originalText[s] == QUOTE {
          break;
        }
        escaped := true;
        s :- Spec.Escape(originalText, kind, s);
      }
      PushEntry(s + 1 - pos);
      values := values[|values| - 1 := values[|values| - 1].(escaped := escaped)];
      return Success(());
    }

    method ParseArray(s: nat) returns (r: Result<(), JsonParseError>)
      requires pos < |originalText| && s == pos + 1
      modifies this, handler
      ensures Computes(Spec.ParseArray(originalText, handler.mode, Spec.PState(old(pos), old(kind), old(values), old(handler.comments))),
        r, Spec.PState(pos, kind, values, handler.comments))
      decreases |originalText| - pos, 2
    {
      ghost var spec := Spec.ParseArray(originalText, handler.mode, Spec.PState(pos, kind, values, handler.comments));
      kind := Some(Array);
      var s :- SkipWhitespacesAndComments(s);
      assert spec == Spec.ArrayOpened(originalText, handler.mode, Spec.PState(pos, kind, values, handler.comments), s);
      if s < |originalText| && originalText[s] == RBRACKET {
        PushEntry(s + 1 - pos);
        return Success(());
      }
      var index := |values|;
      PushEntry(s - pos);
      r := ArrayLoop(index);
    }

    /** The loop of `parse_array` over the elements, until the closing bracket or an error. */
    method ArrayLoop(index: nat) returns (r: Result<(), JsonParseError>)
      requires pos <= |originalText| && index < |values|
      modifies this, handler
      ensures Computes(Spec.ArrayElements(originalText, handler.mode, Spec.PState(old(pos), old(kind), old(values), old(handler.comments)), index),
        r, Spec.PState(pos, kind, values, handler.comments))
      decreases |originalText| - pos, 6
    {
      ghost var spec := Spec.ArrayElements(originalText, handler.mode, Spec.PState(pos, kind, values, handler.comments), index);
      while true
        invariant pos <= |originalText| && index < |values|
        invariant spec == Spec.ArrayElements(originalText, handler.mode, Spec.PState(pos, kind, values, handler.comments), index)
        decreases |originalText| - pos
      {
        var closed :- ArrayRound(index);
        if closed {
          return Success(());
        }
      }
    }

    /** One round of the `parse_array` loop: an element, then either ']',
        which closes the array (`true`), or ',' (`false`). */
    method ArrayRound(index: nat) returns (r: Result<bool, JsonParseError>)
      requires pos <= |originalText| && index < |values|
      modifies this, handler
      ensures var spec := Spec.ArrayElements(originalText, handler.mode, Spec.PState(old(pos), old(kind), old(values), old(handler.comments)), index);
        match r
        case Failure(e) => spec == Failure(e)
        case Success(true) => spec == Success(Spec.PState(pos, kind, values, handler.comments))
        case Success(false) =>
          old(pos) < pos <= |originalText| && index < |values|
          && spec == Spec.ArrayElements(originalText, handler.mode, Spec.PState(pos, kind, values, handler.comments), index)
      decreases |originalText| - pos, 5
    {
      ghost var st0 := Spec.PState(pos, kind, values, handler.comments);
      var _ :- ParseValue();
      kind := Some(Array);
      ghost var st1 := Spec.PState(pos, kind, values, handler.comments);
      Spec.PrefixOfPrefix(st0.values, st1.values, |st0.values|, index);
      assert Spec.ArrayElements(originalText, handler.mode, st0, index) == Spec.ArrayAfterElement(originalText, handler.mode, st0, st1, index);
      var p :- SkipWhitespacesAndComments(pos);
      pos := p;
      assert Spec.ArrayElements(originalText, handler.mode, st0, index)
        == Spec.ArrayNext(originalText, handler.mode, st0, Spec.PState(pos, kind, values, handler.comments), index);
      if pos < |originalText| && originalText[pos] == RBRACKET {
        pos := pos + 1;
        FinalizeEntry(index);
        return Success(true);
      }
      pos :- Spec.StripChar(originalText, kind, pos, COMMA);
      return Success(false);
    }

    method ParseObject(s: nat) returns (r: Result<(), JsonParseError>)
      requires pos < |originalText| && s == pos + 1
      modifies this, handler
      ensures Computes(Spec.ParseObject(originalText, handler.mode, Spec.PState(old(pos), old(kind), old(values), old(handler.comments))),
        r, Spec.PState(pos, kind, values, handler.comments))
      decreases |originalText| - pos, 2
    {
      ghost var spec := Spec.ParseObject(originalText, handler.mode, Spec.PState(pos, kind, values, handler.comments));
      kind := Some(Object);
      var s :- SkipWhitespacesAndComments(s);
      assert spec == Spec.ObjectOpened(originalText, handler.mode, Spec.PState(pos, kind, values, handler.comments), s);
      if s < |originalText| && originalText[s] == RBRACE {
        PushEntry(s + 1 - pos);
        return Success(());
      }
      var index := |values|;
      PushEntry(s - pos);
      r := ObjectLoop(index);
    }

    /** The loop of `parse_object` over the members, until the closing bracket or an error. */
    method ObjectLoop(index: nat) returns (r: Result<(), JsonParseError>)
      requires pos <= |originalText| && index < |values|
      modifies this, handler
      ensures Computes(Spec.ObjectMembers(originalText, handler.mode, Spec.PState(old(pos), old(kind), old(values), old(handler.comments)), index),
        r, Spec.PState(pos, kind, values, handler.comments))
      decreases |originalText| - pos, 6
    {
      ghost var spec := Spec.ObjectMembers(originalText, handler.mode, Spec.PState(pos, kind, values, handler.comments), index);
      while true
        invariant pos <= |originalText| && index < |values|
        invariant spec == Spec.ObjectMembers(originalText, handler.mode, Spec.PState(pos, kind, values, handler.comments), index)
        decreases |originalText| - pos
      {
        var closed :- ObjectRound(index);
        if closed {
          return Success(());
        }
      }
    }

    /** One round of the `parse_object` loop: a key, ':' and a value, then
        either '}', which closes the object (`true`), or ',' (`false`). */
    method ObjectRound(index: nat) returns (r: Result<bool, JsonParseError>)
      requires pos <= |originalText| && index < |values|
      modifies this, handler
      ensures var spec := Spec.ObjectMembers(originalText, handler.mode, Spec.PState(old(pos), old(kind), old(values), old(handler.comments)), index);
        match r
        case Failure(e) => spec == Failure(e)
        case Success(true) => spec == Success(Spec.PState(pos, kind, values, handler.comments))
        case Success(false) =>
          old(pos) < pos <= |originalText| && index < |values|
          && spec == Spec.ObjectMembers(originalText, handler.mode, Spec.PState(pos, kind, values, handler.comments), index)
      decreases |originalText| - pos, 5
    {
      ghost var st0 := Spec.PState(pos, kind, values, handler.comments);
      var q :- Spec.StripChar(originalText, kind, pos, QUOTE);
      var _ :- ParseString(q);
      kind := Some(Object);
      ghost var st1 := Spec.PState(pos, kind, values, handler.comments);
      Spec.PrefixOfPrefix(st0.values, st1.values, |st0.values|, index);
      assert Spec.ObjectMembers(originalText, handler.mode, st0, index) == Spec.ObjectAfterKey(originalText, handler.mode, st0, st1, index);
      r := ObjectMemberValue(st0, index);
    }

    /** The rest of a round of the `parse_object` loop once the key parsed
        from `st0` has ended: ':' and the value. */
    method ObjectMemberValue(ghost st0: Spec.PState, index: nat) returns (r: Result<bool, JsonParseError>)
      requires st0.pos < pos <= |originalText| && index < |st0.values| < |values| && kind == Some(Object)
      requires values[..index] == st0.values[..index] && st0.comments <= handler.comments
      modifies this, handler
      ensures var spec := Spec.ObjectAfterKey(originalText, handler.mode, st0, Spec.PState(old(pos), old(kind), old(values), old(handler.comments)), index);
        match r
        case Failure(e) => spec == Failure(e)
        case Success(true) => spec == Success(Spec.PState(pos, kind, values, handler.comments))
        case Success(false) =>
          st0.pos < pos <= |originalText| && index < |values|
          && spec == Spec.ObjectMembers(originalText, handler.mode, Spec.PState(pos, kind, values, handler.comments), index)
      decreases |originalText| - pos, 5
    {
      ghost var spec := Spec.ObjectAfterKey(originalText, handler.mode, st0, Spec.PState(pos, kind, values, handler.comments), index);
      var p :- SkipWhitespacesAndComments(pos);
      pos := p;
      pos :- Spec.StripChar(originalText, kind, pos, COLON);
      ghost var st2 := Spec.PState(pos, kind, values, handler.comments);
      assert spec == Spec.ObjectValue(originalText, handler.mode, st0, st2, index);
      var _ :- ParseValue();
      kind := Some(Object);
      ghost var st3 := Spec.PState(pos, kind, values, handler.comments);
      Spec.PrefixOfPrefix(st2.values, st3.values, |st2.values|, index);
      assert spec == Spec.ObjectAfterValue(originalText, handler.mode, st0, st3, index);
      r := ObjectNext(st0, index);
    }

    /** The end of a round of the `parse_object` loop: '}' or ','. */
    method ObjectNext(ghost st0: Spec.PState, index: nat) returns (r: Result<bool, JsonParseError>)
      requires st0.pos < pos <= |originalText| && index < |st0.values| < |values| && kind == Some(Object)
      requires values[..index] == st0.values[..index] && st0.comments <= handler.comments
      modifies this, handler
      ensures var spec := Spec.ObjectAfterValue(originalText, handler.mode, st0, Spec.PState(old(pos), old(kind), old(values), old(handler.comments)), index);
        match r
        case Failure(e) => spec == Failure(e)
        case Success(true) => spec == Success(Spec.PState(pos, kind, values, handler.comments))
        case Success(false) =>
          st0.pos < pos <= |originalText| && index < |values|
          && spec == Spec.ObjectMembers(originalText, handler.mode, Spec.PState(pos, kind, values, handler.comments), index)
    {
      ghost var spec := Spec.ObjectAfterValue(originalText, handler.mode, st0, Spec.PState(pos, kind, values, handler.comments), index);
      var p :- SkipWhitespacesAndComments(pos);
      pos := p;
      assert spec == Spec.ObjectNext(originalText, handler.mode, st0, Spec.PState(pos, kind, values, handler.comments), index);
      if pos < |originalText| && originalText[pos] == RBRACE {
        pos := pos + 1;
        FinalizeEntry(index);
        return Success(true);
      }
      pos :- Spec.StripChar(originalText, kind, pos, COMMA);
      p :- SkipWhitespacesAndComments(pos);
      pos := p;
      return Success(false);
    }

    /** `push_entry(len)`. */
    method PushEntry(len: nat)
      requires kind.Some?
      modifies this
      ensures Spec.PState(pos, kind, values, handler.comments) == Spec.PushEntry(Spec.PState(old(pos), old(kind), old(values), handler.comments), len)
    {
      var entry := JsonValueIndexEntry(kind.value, false, Range(pos, pos + len), |values| + 1);
      values := values + [entry];
      pos := pos + len;
    }

    /** `finalize_entry(index)`. */
    method FinalizeEntry(index: nat)
      requires index < |values|
      modifies this
      ensures Spec.PState(pos, kind, values, handler.comments) == Spec.FinalizeEntry(Spec.PState(old(pos), old(kind), old(values), handler.comments), index)
    {
      values := values[index := values[index].(text := values[index].text.(end := pos), endIndex := |values|)];
    }
  }
}
