/** `RawJson` and `RawJsonValue` (src/raw.rs): a parsed text with its value
    index, handles on the entries of that index, and the lookups and
    conversions over them. A `RawJsonValue` is the pair (text and index,
    entry number); Rust's borrow of the `RawJson` becomes a copy of it. */
module Raw {
  import opened Wrappers
  import opened Bytes
  import opened Kind
  import opened ParseError
  import opened Grammar
  import opened Table
  import opened Tree
  import opened Utf8
  import Spec = ParseSpec
  import Parser = Parse
  import ParseProofs
  import Seqs

  /** `Cow<str>`: text borrowed from the JSON text, or built afresh. */
  datatype Cow = Borrowed(s: seq<Byte>) | Owned(s: seq<Byte>)

  /** The byte a simple escape letter stands for (section 7 of RFC 8259);
      other bytes map to themselves. */
  function EscapedByte(e: Byte): (b: Byte)
    ensures e == QUOTE || e == BACKSLASH || e == SLASH ==> b == e
    ensures IsSimpleEscape(e) && !(e == QUOTE || e == BACKSLASH || e == SLASH) ==> b < 0x20
    ensures !IsSimpleEscape(e) ==> b == e
  {
    if e == LOWER_B then BS
    else if e == LOWER_F then FF
    else if e == LOWER_N then LF
    else if e == LOWER_R then CR
    else if e == LOWER_T then TAB
    else e
  }

  /** The unescaping loop of `to_unquoted_str`, with the byte pushed for a
      simple escape letter left as a parameter. */
  function UnescapeWith(c: seq<Byte>, letter: Byte -> Byte): seq<Byte>
    requires StringContent(c)
    decreases |c|
  {
    if c == [] then []
    else if c[0] == BACKSLASH then
      if IsSimpleEscape(c[1]) then [letter(c[1])] + UnescapeWith(c[2..], letter)
      else EncodeScalar(FromStrRadix16(c[2..6]).value) + UnescapeWith(c[6..], letter)
    else [c[0]] + UnescapeWith(c[1..], letter)
  }

  /** The text a string's content denotes. */
  function Unescape(c: seq<Byte>): (r: seq<Byte>)
    requires StringContent(c)
    ensures BACKSLASH !in c ==> r == c
  {
    assert BACKSLASH !in c ==> UnescapeWith(c, EscapedByte) == c by {
      if BACKSLASH !in c { UnescapePlain(c, EscapedByte); }
    }
    UnescapeWith(c, EscapedByte)
  }

  /** What src/raw.rs:252 computes: the escape letter itself. */
  function UnescapeAsWritten(c: seq<Byte>): (r: seq<Byte>)
    requires StringContent(c)
    ensures BACKSLASH !in c ==> r == c
  {
    assert BACKSLASH !in c ==> UnescapeWith(c, b => b) == c by {
      if BACKSLASH !in c { UnescapePlain(c, b => b); }
    }
    UnescapeWith(c, b => b)
  }

  /** Content without a backslash denotes itself, so borrowing it is right. */
  lemma {:induction false} UnescapePlain(c: seq<Byte>, letter: Byte -> Byte)
    requires StringContent(c) && BACKSLASH !in c
    ensures UnescapeWith(c, letter) == c
    decreases |c|
  {
    if c != [] {
      assert BACKSLASH !in c[1..];
      UnescapePlain(c[1..], letter);
    }
  }

  /** Unescaping never lengthens the text (`String::with_capacity(content.len())`
      is enough). */
  lemma {:induction false} UnescapeShorter(c: seq<Byte>)
    requires StringContent(c)
    ensures |Unescape(c)| <= |c|
    decreases |c|
  {
    if c != [] {
      if c[0] == BACKSLASH {
        if IsSimpleEscape(c[1]) {
          UnescapeShorter(c[2..]);
        } else {
          UnescapeShorter(c[6..]);
        }
      } else {
        UnescapeShorter(c[1..]);
      }
    }
  }

  /** The as-written unescaper turns the escaped newline into the letter
      `n`, so the string "\n" reads back as "n". */
  lemma AsWrittenKeepsLetter()
    ensures StringContent([BACKSLASH, LOWER_N])
    ensures UnescapeAsWritten([BACKSLASH, LOWER_N]) == [LOWER_N]
    ensures Unescape([BACKSLASH, LOWER_N]) == [LF]
  {
    var c := [BACKSLASH, LOWER_N];
    assert c[2..] == [];
    assert StringContent(c[2..]);
    assert UnescapeWith(c, b => b) == [LOWER_N] + UnescapeWith(c[2..], b => b);
    assert UnescapeWith(c, EscapedByte) == [EscapedByte(LOWER_N)] + UnescapeWith(c[2..], EscapedByte);
  }

  /** The first place of `name` in `names` (`Iterator::position`). */
  function IndexOf(names: seq<seq<Byte>>, name: seq<Byte>): (r: Option<nat>)
    ensures r.Some? ==> r.value < |names| && names[r.value] == name && forall k | 0 <= k < r.value :: names[k] != name
    ensures r.None? <==> name !in names
  {
    if names == [] then None
    else if names[0] == name then Some(0)
    else
      match IndexOf(names[1..], name)
      case None => None
      case Some(k) => Some(k + 1)
  }

  /** The unescaping loop of `to_unquoted_str`. Every escape is complete
      and every `\u` code a scalar value, so the source's `expect` calls and
      its `unreachable!()` are never reached. */
  method UnescapeBytes(content: seq<Byte>) returns (unescaped: seq<Byte>)
    requires StringContent(content)
    ensures unescaped == Unescape(content)
  {
    unescaped := [];
    var i := 0;
    assert content[i..] == content;
    while i < |content|
      invariant i <= |content| && StringContent(content[i..])
      invariant unescaped + Unescape(content[i..]) == Unescape(content)
      decreases |content| - i
    {
      var piece, next := UnescapeOne(content, i);
      Seqs.Assoc(unescaped, piece, Unescape(content[next..]));
      unescaped, i := unescaped + piece, next;
    }
    assert content[i..] == [];
  }

  /** The body of the unescaping loop: the bytes the escape or byte at `i`
      stands for, and where the next one starts. */
  method UnescapeOne(content: seq<Byte>, i: nat) returns (piece: seq<Byte>, next: nat)
    requires i < |content| && StringContent(content[i..])
    ensures i < next <= |content| && StringContent(content[next..])
    ensures Unescape(content[i..]) == piece + Unescape(content[next..])
  {
    if content[i] == BACKSLASH {
      var e := content[i + 1];
      if IsSimpleEscape(e) {
        UnescapeStep(content, i, 2);
        piece, next := [EscapedByte(e)], i + 2;
      } else {
        UnescapeStep(content, i, 6);
        var code := FromStrRadix16(content[i + 2..i + 6]);
        piece, next := EncodeScalar(code.value), i + 6;
      }
    } else {
      UnescapeStep(content, i, 1);
      piece, next := [content[i]], i + 1;
    }
  }

  /** One step of the loop: the escape or byte at `i`, `n` bytes long. */
  lemma UnescapeStep(c: seq<Byte>, i: nat, n: nat)
    requires i < |c| && StringContent(c[i..])
    requires n == if c[i] != BACKSLASH then 1 else if IsSimpleEscape(c[i + 1]) then 2 else 6
    ensures i + n <= |c| && StringContent(c[i + n..])
    ensures n == 1 ==> Unescape(c[i..]) == [c[i]] + Unescape(c[i + 1..])
    ensures n == 2 ==> Unescape(c[i..]) == [EscapedByte(c[i + 1])] + Unescape(c[i + 2..])
    ensures n == 6 ==> Hex4Ok(c[i + 2..i + 6])
    ensures n == 6 ==> Unescape(c[i..]) == EncodeScalar(FromStrRadix16(c[i + 2..i + 6]).value) + Unescape(c[i + 6..])
  {
    var rest := c[i..];
    assert rest[n..] == c[i + n..];
    if n == 6 {
      assert rest[2..6] == c[i + 2..i + 6];
    }
  }

  /** `RawJson`: the text and the index its parse built. */
  datatype RawJson = RawJson(text: seq<Byte>, values: seq<JsonValueIndexEntry>) {
    ghost predicate Valid() {
      WellFormed(text, values) && Nested(values)
    }

    /** `RawJson::parse`, with the comment-free handler. */
    static method Parse(text: seq<Byte>) returns (r: Result<RawJson, JsonParseError>)
      ensures r.Success? <==> Spec.Parse(text, Spec.Noop, []).Success?
      ensures r.Success? ==> r.value.text == text && r.value.values == Spec.Parse(text, Spec.Noop, []).value.0
      ensures r.Success? ==> r.value.Valid()
      ensures r.Failure? ==> r.error == Spec.Parse(text, Spec.Noop, []).error
    {
      var handler := new Parser.CommentHandler(Spec.Noop);
      var parser := new Parser.JsonParser(text, handler);
      var parsed :- parser.Parse();
      ParseProofs.ParseWellFormed(text, Spec.Noop, []);
      WellFormedNested(text, parsed.0);
      return Success(RawJson(text, parsed.0));
    }

    /** `value`: the top-level value, whose subtree is the whole index. */
    function Value(): (v: RawJsonValue)
      requires Valid()
      ensures v.Valid() && v.json == this && v.index == 0
      ensures v.Entry().endIndex == |values|
    {
      RawJsonValue(this, 0)
    }

    /** `get_value_by_position`: None iff the position is outside the top
        value; otherwise the deepest value whose range contains it, which
        lies inside every value containing the position. */
    method GetValueByPosition(position: nat) returns (r: Option<RawJsonValue>)
      requires Valid()
      ensures r.None? <==> !Contains(values[0].text, position)
      ensures r.Some? ==> r.value == RawJsonValue(this, Deepest(values, 0, position))
      ensures r.Some? ==> r.value.Valid() && Contains(values[r.value.index].text, position)
      ensures r.Some? ==> forall j | 0 <= j < |values| && Contains(values[j].text, position) :: j <= r.value.index < values[j].endIndex
    {
      var value := Value();
      if !Contains(value.Entry().text, position) {
        return None;
      }
      while true
        invariant value.json == this && value.index < |values|
        invariant Deepest(values, value.index, position) == Deepest(values, 0, position)
        decreases |values| - value.index
      {
        var children := new Children(value);
        var child := children.Find(position);
        if child.None? {
          break;
        }
        value := child.value;
      }
      DeepestContains(values, 0, position);
      forall j | 0 <= j < |values| && Contains(values[j].text, position)
        ensures j <= value.index < values[j].endIndex
      {
        DeepestIsDeepest(values, 0, position, j);
      }
      return Some(value);
    }
  }

  /** `RawJsonValue`: entry `index` of a parsed text. */
  datatype RawJsonValue = RawJsonValue(json: RawJson, index: nat) {
    ghost predicate Valid() {
      json.Valid() && index < |json.values|
    }

    function Entry(): JsonValueIndexEntry
      requires index < |json.values|
    {
      json.values[index]
    }

    /** The kind of the entry; in a valid table the byte at its position
        is the first byte of a token of that kind. */
    function Kind(): (k: JsonValueKind)
      requires index < |json.values|
      ensures Valid() ==> Position() < |json.text|
      ensures Valid() && k == Null ==> json.text[Position()] == LOWER_N
      ensures Valid() && k == Bool ==> json.text[Position()] in {LOWER_T, LOWER_F}
      ensures Valid() && k == String ==> json.text[Position()] == QUOTE
      ensures Valid() && k == Array ==> json.text[Position()] == LBRACKET
      ensures Valid() && k == Object ==> json.text[Position()] == LBRACE
    {
      assert Valid() ==> EntryOk(json.text, json.values, |json.values|, index);
      assert Valid() ==> json.text[Entry().text.start..Entry().text.end][0] == json.text[Entry().text.start];
      Entry().kind
    }

    /** The byte offset where the value's token starts. */
    function Position(): (p: nat)
      requires index < |json.values|
      ensures Valid() ==> p < |json.text|
    {
      assert Valid() ==> EntryOk(json.text, json.values, |json.values|, index);
      Entry().text.start
    }

    /** The direct children of this value, in table order. */
    function ChildIndices(): (ks: seq<nat>)
      requires Valid()
      ensures forall k | 0 <= k < |ks| :: index < ks[k] < Entry().endIndex <= |json.values|
    {
      ChildrenOf(json.values, index)
    }

    /** `as_raw_str`: the value's token, a literal spelled out, a number of
        the grammar, a string with its quotes, or bracketed text. */
    function AsRawStr(): (r: seq<Byte>)
      requires Valid()
      ensures Entry().text.start < Entry().text.end <= |json.text| && r == json.text[Entry().text.start..Entry().text.end]
      ensures Kind() == Null ==> r == [LOWER_N] + NULL_SUFFIX
      ensures Kind() == Bool ==> r == [LOWER_T] + TRUE_SUFFIX || r == [LOWER_F] + FALSE_SUFFIX
      ensures Kind() == Integer ==> IntegerText(r)
      ensures Kind() == Float ==> FloatText(r)
      ensures Kind() == String ==> StringText(r) && (Entry().escaped <==> BACKSLASH in r[1..|r| - 1])
      ensures Kind() == Array ==> |r| >= 2 && r[0] == LBRACKET && r[|r| - 1] == RBRACKET
      ensures Kind() == Object ==> |r| >= 2 && r[0] == LBRACE && r[|r| - 1] == RBRACE
    {
      assert EntryOk(json.text, json.values, |json.values|, index);
      assert IsComposite(Kind()) ==> Entry().text.start + 1 < Entry().text.end by {
        if IsComposite(Kind()) {
          InsideAncestor(json.values, index, index);
          if index + 1 < Entry().endIndex {
            assert Laminar(json.values, index, index + 1);
          }
        }
      }
      json.text[Entry().text.start..Entry().text.end]
    }

    /** The error of a kind check that fails at this value. */
    function KindMismatch(kinds: seq<JsonValueKind>): (e: JsonParseError)
      requires index < |json.values|
      ensures e.InvalidValue? && e.valueKind == Kind() && e.Position() == Position()
      ensures e.error == ExpectedKinds(kinds, Kind())
    {
      InvalidValue(Kind(), Position(), ExpectedKinds(kinds, Kind()))
    }

    /** `expect`: this value when its kind is one of `kinds`, else an error
        at this value. */
    function Expect(kinds: seq<JsonValueKind>): (r: Result<RawJsonValue, JsonParseError>)
      requires Valid()
      ensures r.Success? <==> Kind() in kinds
      ensures r.Success? ==> r.value == this
      ensures r.Failure? ==> r.error == KindMismatch(kinds) && r.error.Position() == Position()
    {
      if Kind() in kinds then Success(this) else Failure(KindMismatch(kinds))
    }

    function AsBoolStr(): (r: Result<seq<Byte>, JsonParseError>)
      requires Valid()
      ensures r.Success? <==> Kind() == Bool
      ensures r.Success? ==> r.value == [LOWER_T] + TRUE_SUFFIX || r.value == [LOWER_F] + FALSE_SUFFIX
      ensures r.Failure? ==> r.error == KindMismatch([Bool])
    {
      var v :- Expect([Bool]);
      Success(v.AsRawStr())
    }

    function AsIntegerStr(): (r: Result<seq<Byte>, JsonParseError>)
      requires Valid()
      ensures r.Success? <==> Kind() == Integer
      ensures r.Success? ==> IntegerText(r.value)
      ensures r.Failure? ==> r.error == KindMismatch([Integer])
    {
      var v :- Expect([Integer]);
      Success(v.AsRawStr())
    }

    function AsFloatStr(): (r: Result<seq<Byte>, JsonParseError>)
      requires Valid()
      ensures r.Success? <==> Kind() == Float
      ensures r.Success? ==> FloatText(r.value)
      ensures r.Failure? ==> r.error == KindMismatch([Float])
    {
      var v :- Expect([Float]);
      Success(v.AsRawStr())
    }

    function AsNumberStr(): (r: Result<seq<Byte>, JsonParseError>)
      requires Valid()
      ensures r.Success? <==> Kind().IsNumber()
      ensures r.Success? ==> IntegerText(r.value) || FloatText(r.value)
      ensures r.Failure? ==> r.error == KindMismatch([Integer, Float])
    {
      var v :- Expect([Integer, Float]);
      Success(v.AsRawStr())
    }

    /** The bytes between a string's quotes. */
    function Content(): (c: seq<Byte>)
      requires Valid() && Kind() == String
      ensures StringContent(c) && (Entry().escaped <==> BACKSLASH in c)
    {
      var raw := AsRawStr();
      raw[1..|raw| - 1]
    }

    /** What `to_unquoted_str` returns: the raw text of a non-string, and
        for a string the text it denotes, borrowed when it has no escape. */
    function Unquoted(): (r: Cow)
      requires Valid()
      ensures Kind() != String ==> r == Borrowed(AsRawStr())
      ensures Kind() == String ==> r.s == Unescape(Content())
      ensures Kind() == String ==> (r.Borrowed? <==> !Entry().escaped)
    {
      if Kind() != String then Borrowed(AsRawStr())
      else if !Entry().escaped then
        UnescapePlain(Content(), EscapedByte);
        Borrowed(Content())
      else Owned(Unescape(Content()))
    }

    /** `to_unquoted_str`, decoding simple escapes (see UnescapeAsWritten
        for the letter-pushing loop of the source). The `expect` calls of
        the source cannot fail, since the content follows the grammar. */
    method ToUnquotedStr() returns (r: Cow)
      requires Valid()
      ensures r == Unquoted()
    {
      if Kind() != String {
        return Borrowed(AsRawStr());
      }
      var content := Content();
      if !Entry().escaped {
        return Borrowed(content);
      }
      var unescaped := UnescapeBytes(content);
      return Owned(unescaped);
    }

    /** `to_unquoted_string_str`: the unquoted text of a string value. */
    method ToUnquotedStringStr() returns (r: Result<Cow, JsonParseError>)
      requires Valid()
      ensures r.Success? <==> Kind() == String
      ensures r.Success? ==> r.value.s == Unescape(Content()) && (r.value.Borrowed? <==> !Entry().escaped)
      ensures r.Failure? ==> r.error == KindMismatch([String])
    {
      var v :- Expect([String]);
      var s := v.ToUnquotedStr();
      return Success(s);
    }

    /** `parent`: None for the top value; otherwise the value this one is a
        direct child of. */
    method Parent() returns (r: Option<RawJsonValue>)
      requires Valid()
      ensures r.None? <==> index == 0
      ensures r.Some? ==> r.value.json == json && r.value.index < index
      ensures r.Some? ==> index in ChildrenOf(json.values, r.value.index)
    {
      if index == 0 {
        return None;
      }
      var q := ParentExists(json.values, 0, index);
      ParentIsDeepestBefore(json.values, q, index);
      var p := Position() - 1;
      assert Deepest(json.values, 0, p) == q;
      r := json.GetValueByPosition(p);
      assert r == Some(RawJsonValue(json, q));
    }

    /** `to_array_values`: the elements of an array. */
    method ToArrayValues() returns (r: Result<Children, JsonParseError>)
      requires Valid()
      ensures r.Success? <==> Kind() == Array
      ensures r.Success? ==> fresh(r.value) && r.value.Valid() && r.value.value.json == json
      ensures r.Success? ==> r.value.Remaining() == ChildIndices()
      ensures r.Failure? ==> r.error == KindMismatch([Array])
    {
      var v :- Expect([Array]);
      var children := new Children(v);
      return Success(children);
    }

    /** What `to_fixed_array` returns. */
    function FixedArray(n: nat): (r: Result<seq<RawJsonValue>, JsonParseError>)
      requires Valid()
      ensures r.Success? ==> |ChildIndices()| == n && |r.value| == n && forall k | 0 <= k < n :: r.value[k] == RawJsonValue(json, ChildIndices()[k])
    {
      if Kind() != Array then Failure(KindMismatch([Array]))
      else
        var ks := ChildIndices();
        if |ks| < n then Failure(InvalidValue(Array, Position(), TooFewElements(n, |ks|)))
        else if |ks| > n then Failure(InvalidValue(Array, Position(), TooManyElements(n, |ks|)))
        else Success(seq(n, k requires 0 <= k < n => RawJsonValue(json, ks[k])))
    }

    /** `to_fixed_array`: exactly `n` elements, in document order, or an
        error at the array giving the count found. */
    method ToFixedArray(n: nat) returns (r: Result<seq<RawJsonValue>, JsonParseError>)
      requires Valid()
      ensures r == FixedArray(n)
      ensures Kind() != Array ==> r == Failure(KindMismatch([Array]))
      ensures Kind() == Array ==> (r.Success? <==> |ChildIndices()| == n)
      ensures Kind() == Array && |ChildIndices()| < n ==> r == Failure(InvalidValue(Array, Position(), TooFewElements(n, |ChildIndices()|)))
      ensures Kind() == Array && |ChildIndices()| > n ==> r == Failure(InvalidValue(Array, Position(), TooManyElements(n, |ChildIndices()|)))
      ensures r.Success? ==> |r.value| == n && forall k | 0 <= k < n :: r.value[k] == RawJsonValue(json, ChildIndices()[k])
    {
      var values :- ToArrayValues();
      var fixed := new RawJsonValue[n](_ => this);
      var taken := TakeInto(values, fixed);
      if taken < n {
        return Failure(InvalidValue(Kind(), Position(), TooFewElements(n, taken)));
      }
      var extra := values.Count();
      if extra > 0 {
        return Failure(InvalidValue(Kind(), Position(), TooManyElements(n, n + extra)));
      }
      assert fixed[..] == FixedArray(n).value;
      return Success(fixed[..]);
    }

    /** The (key, value) entry pairs of an object, in document order. */
    function Members(): (ms: seq<(nat, nat)>)
      requires Valid() && Kind() == Object
      ensures forall k | 0 <= k < |ms| :: index < ms[k].0 && ms[k].1 < |json.values| && ms[k].0 < ms[k].1
    {
      assert EntryOk(json.text, json.values, |json.values|, index);
      MembersFrom(json.values, index + 1, Entry().endIndex)
    }

    /** `to_object_members`: the members of an object. */
    method ToObjectMembers() returns (r: Result<JsonKeyValuePairs, JsonParseError>)
      requires Valid()
      ensures r.Success? <==> Kind() == Object
      ensures r.Success? ==> fresh(r.value) && fresh(r.value.inner) && r.value.Valid() && r.value.inner.value.json == json
      ensures r.Success? ==> r.value.Remaining() == Members()
      ensures r.Failure? ==> r.error == KindMismatch([Object])
    {
      var v :- Expect([Object]);
      var pairs := new JsonKeyValuePairs(v);
      return Success(pairs);
    }

    /** The key text and value of each member `ms`, the key unquoted as
        `to_unquoted_str` does. */
    function Entries(ms: seq<(nat, nat)>): (r: seq<Member>)
      requires json.Valid() && forall k | 0 <= k < |ms| :: ms[k].0 < |json.values|
      ensures |r| == |ms|
      ensures forall k | 0 <= k < |ms| :: r[k].1 == RawJsonValue(json, ms[k].1)
      decreases |ms|
    {
      if ms == [] then []
      else
        var rest := Entries(ms[1..]);
        assert forall k | 1 <= k < |ms| :: ms[k] == ms[1..][k - 1];
        [(RawJsonValue(json, ms[0].0).Unquoted().s, RawJsonValue(json, ms[0].1))] + rest
    }

    /** The members of an object as `to_fixed_object` sees them; no member
        value is the object itself. */
    function MemberEntries(): (es: seq<Member>)
      requires Valid() && Kind() == Object
      ensures forall k | 0 <= k < |es| :: es[k].1.index != index
    {
      Entries(Members())
    }

    /** What `to_fixed_object` returns. */
    function FixedObject(required: seq<seq<Byte>>, optional: seq<seq<Byte>>): (r: Result<Slots, JsonParseError>)
      requires Valid()
      ensures Kind() != Object ==> r == Failure(KindMismatch([Object]))
      ensures r.Failure? ==> r.error.InvalidValue? && r.error.Position() == Position()
      ensures r.Success? ==> Kind() == Object && |r.value.0| == |required| && |r.value.1| == |optional|
    {
      if Kind() != Object then Failure(KindMismatch([Object]))
      else
        var filled := Fill(MemberEntries(), required, optional, (seq(|required|, _ => this), seq(|optional|, _ => None)));
        var missing := MissingNames(required, filled.0, |required|, index);
        if missing != [] then Failure(InvalidValue(Object, Position(), MissingMembers(missing)))
        else Success(filled)
    }

    /** `to_fixed_object` on an object: it succeeds iff every required name
        is found; it then holds, per name, the value of the last member of
        that name, and absent optional names stay None; otherwise the single
        error at the object lists the names not found, in declaration
        order. */
    lemma FixedObjectResult(required: seq<seq<Byte>>, optional: seq<seq<Byte>>)
      requires Valid() && Kind() == Object
      ensures var r := FixedObject(required, optional); var es := MemberEntries();
        && (r.Success? <==> forall i | 0 <= i < |required| :: Found(es, required, i))
        && (r.Failure? ==> r.error == InvalidValue(Object, Position(), MissingMembers(NotFound(es, required, |required|))))
        && (r.Success? ==> |r.value.0| == |required| && |r.value.1| == |optional|)
        && (r.Success? ==> forall i | 0 <= i < |required| :: Some(r.value.0[i]) == LastValueOf(es, required[i]))
        && (r.Success? ==> forall j | 0 <= j < |optional| :: r.value.1[j] == OptionalSlot(es, required, optional, j, None))
    {
      var es := MemberEntries();
      var init := (seq(|required|, _ => this), seq(|optional|, _ => None));
      FillLastWins(es, required, optional, init);
      var filled := Fill(es, required, optional, init);
      MissingAreNotFound(es, required, filled.0, |required|, this);
      NotFoundEmpty(es, required, |required|);
      var missing := MissingNames(required, filled.0, |required|, index);
      assert FixedObject(required, optional)
        == if missing != [] then Failure(InvalidValue(Object, Position(), MissingMembers(missing))) else Success(filled);
      if missing == [] {
        forall i | 0 <= i < |required|
          ensures Some(filled.0[i]) == LastValueOf(es, required[i])
        {
          assert Found(es, required, i);
        }
      }
    }

    /** `to_fixed_object`. Its `dbg!` calls on each member key and each
        stored value write to standard error; that output is not modelled. */
    method ToFixedObject(required: seq<seq<Byte>>, optional: seq<seq<Byte>>) returns (r: Result<Slots, JsonParseError>)
      requires Valid()
      ensures r == FixedObject(required, optional)
    {
      var req := new RawJsonValue[|required|](_ => this);
      var opt := new Option<RawJsonValue>[|optional|](_ => None);
      var members :- ToObjectMembers();
      assert req[..] == seq(|required|, _ => this);
      assert opt[..] == seq(|optional|, _ => None);
      FillSlots(members, required, optional, req, opt);
      var missing := CollectMissing(required, req, index);
      if missing != [] {
        return Failure(InvalidValue(Kind(), Position(), MissingMembers(missing)));
      }
      return Success((req[..], opt[..]));
    }

    /** The member loop of `to_fixed_object`. */
    method FillSlots(members: JsonKeyValuePairs, required: seq<seq<Byte>>, optional: seq<seq<Byte>>,
                     req: array<RawJsonValue>, opt: array<Option<RawJsonValue>>)
      requires json.Valid() && members.Valid() && members.inner.value.json == json
      requires req.Length == |required| && opt.Length == |optional|
      modifies members.inner, req, opt
      ensures (req[..], opt[..]) == Fill(Entries(old(members.Remaining())), required, optional, old((req[..], opt[..])))
    {
      ghost var filled := Fill(Entries(members.Remaining()), required, optional, (req[..], opt[..]));
      while true
        invariant members.Valid() && members.inner.value.json == json
        invariant Fill(Entries(members.Remaining()), required, optional, (req[..], opt[..])) == filled
        decreases |members.Remaining()|
      {
        var done := FillRound(members, required, optional, req, opt);
        if done {
          break;
        }
      }
    }

    /** One round of the member loop of `to_fixed_object`: true when the
        members are exhausted. */
    method FillRound(members: JsonKeyValuePairs, required: seq<seq<Byte>>, optional: seq<seq<Byte>>,
                     req: array<RawJsonValue>, opt: array<Option<RawJsonValue>>) returns (done: bool)
      requires json.Valid() && members.Valid() && members.inner.value.json == json
      requires req.Length == |required| && opt.Length == |optional|
      modifies members.inner, req, opt
      ensures members.Valid() && members.inner.value.json == json
      ensures done ==> members.Remaining() == [] && (req[..], opt[..]) == old((req[..], opt[..]))
      ensures !done ==> |members.Remaining()| < |old(members.Remaining())|
      ensures Fill(Entries(members.Remaining()), required, optional, (req[..], opt[..]))
        == Fill(Entries(old(members.Remaining())), required, optional, old((req[..], opt[..])))
    {
      ghost var ms := members.Remaining();
      var m := members.Next();
      if m.None? {
        return true;
      }
      var key := m.value.0.ToUnquotedStr();
      assert Entries(ms) == [(key.s, m.value.1)] + Entries(ms[1..]);
      StoreMember(key.s, m.value.1, required, optional, req, opt);
      return false;
    }
  }

  /** The missing-name check of `to_fixed_object` for the object at entry
      `object`. */
  method CollectMissing(required: seq<seq<Byte>>, req: array<RawJsonValue>, owner: nat) returns (missing: seq<seq<Byte>>)
    requires req.Length == |required|
    ensures missing == MissingNames(required, req[..], |required|, owner)
  {
    missing := [];
    for i := 0 to |required|
      invariant missing == MissingNames(required, req[..], i, owner)
    {
      if req[i].index == owner {
        missing := missing + [required[i]];
      }
    }
  }

  /** The filling loop of `to_fixed_array`: as many children as fit, or
      all of them when fewer. */
  method TakeInto(values: Children, fixed: array<RawJsonValue>) returns (taken: nat)
    requires values.Valid()
    modifies values, fixed
    ensures values.Valid() && values.value.json == old(values.value.json)
    ensures var ks := old(values.Remaining());
      taken <= fixed.Length && taken <= |ks| && (taken < fixed.Length ==> taken == |ks|) && values.Remaining() == ks[taken..]
    ensures forall k | 0 <= k < taken :: fixed[k] == RawJsonValue(values.value.json, old(values.Remaining())[k])
  {
    ghost var ks := values.Remaining();
    for i := 0 to fixed.Length
      invariant values.Valid() && values.value.json == old(values.value.json)
      invariant i <= |ks| && values.Remaining() == ks[i..]
      invariant forall k | 0 <= k < i :: fixed[k] == RawJsonValue(values.value.json, ks[k])
    {
      var v := values.Next();
      if v.None? {
        return i;
      }
      fixed[i] := v.value;
    }
    return fixed.Length;
  }

  /** A member as `to_fixed_object` sees it: its key text and its value. */
  type Member = (seq<Byte>, RawJsonValue)

  /** The required and optional slots of `to_fixed_object`. */
  type Slots = (seq<RawJsonValue>, seq<Option<RawJsonValue>>)

  /** One round of the `to_fixed_object` loop: the member goes to the first
      required slot of its name, else to the first optional one, else
      nowhere. */
  function Put(key: seq<Byte>, v: RawJsonValue, required: seq<seq<Byte>>, optional: seq<seq<Byte>>, slots: Slots): (r: Slots)
    requires |slots.0| == |required| && |slots.1| == |optional|
    ensures |r.0| == |required| && |r.1| == |optional|
  {
    match IndexOf(required, key)
    case Some(i) => (slots.0[i := v], slots.1)
    case None =>
      match IndexOf(optional, key)
      case Some(j) => (slots.0, slots.1[j := Some(v)])
      case None => slots
  }

  method StoreMember(key: seq<Byte>, v: RawJsonValue, required: seq<seq<Byte>>, optional: seq<seq<Byte>>,
                     req: array<RawJsonValue>, opt: array<Option<RawJsonValue>>)
    requires req.Length == |required| && opt.Length == |optional|
    modifies req, opt
    ensures (req[..], opt[..]) == Put(key, v, required, optional, old((req[..], opt[..])))
  {
    var i := IndexOf(required, key);
    if i.Some? {
      req[i.value] := v;
    } else {
      var j := IndexOf(optional, key);
      if j.Some? {
        opt[j.value] := Some(v);
      }
    }
  }

  /** The whole `to_fixed_object` loop over `members`, in document order. */
  function Fill(members: seq<Member>, required: seq<seq<Byte>>, optional: seq<seq<Byte>>, slots: Slots): (r: Slots)
    requires |slots.0| == |required| && |slots.1| == |optional|
    ensures |r.0| == |required| && |r.1| == |optional|
    decreases |members|
  {
    if members == [] then slots
    else Fill(members[1..], required, optional, Put(members[0].0, members[0].1, required, optional, slots))
  }

  /** The value of the last member named `name`. */
  function LastValueOf(members: seq<Member>, name: seq<Byte>): (r: Option<RawJsonValue>)
    ensures r.Some? ==> exists k | 0 <= k < |members| :: members[k] == (name, r.value)
    ensures r.None? <==> forall k | 0 <= k < |members| :: members[k].0 != name
    decreases |members|
  {
    if members == [] then None
    else
      var rest := LastValueOf(members[1..], name);
      assert forall k | 1 <= k < |members| :: members[k] == members[1..][k - 1];
      if rest.Some? then rest
      else if members[0].0 == name then Some(members[0].1)
      else None
  }

  /** What required slot `i` holds after `members`: the value of the last
      member named `required[i]`, provided `i` is that name's first place in
      the list; `init` otherwise. */
  function RequiredSlot(members: seq<Member>, required: seq<seq<Byte>>, i: nat, init: RawJsonValue): RawJsonValue
    requires i < |required|
  {
    var last := LastValueOf(members, required[i]);
    if IndexOf(required, required[i]) == Some(i) && last.Some? then last.value else init
  }

  /** What optional slot `j` holds after `members`: the value of the last
      member named `optional[j]`, provided the name is not required and `j`
      is its first place; `init` otherwise. */
  function OptionalSlot(members: seq<Member>, required: seq<seq<Byte>>, optional: seq<seq<Byte>>, j: nat,
                        init: Option<RawJsonValue>): Option<RawJsonValue>
    requires j < |optional|
  {
    var last := LastValueOf(members, optional[j]);
    if optional[j] !in required && IndexOf(optional, optional[j]) == Some(j) && last.Some? then last else init
  }

  /** The member loop keeps, for each slot, the last member of its name and
      ignores members whose name is not listed. */
  lemma {:induction false} FillLastWins(members: seq<Member>, required: seq<seq<Byte>>, optional: seq<seq<Byte>>, slots: Slots)
    requires |slots.0| == |required| && |slots.1| == |optional|
    ensures var r := Fill(members, required, optional, slots);
      && (forall i | 0 <= i < |required| :: r.0[i] == RequiredSlot(members, required, i, slots.0[i]))
      && (forall j | 0 <= j < |optional| :: r.1[j] == OptionalSlot(members, required, optional, j, slots.1[j]))
    decreases |members|
  {
    if members != [] {
      var key := members[0].0;
      var v := members[0].1;
      var next := Put(key, v, required, optional, slots);
      var rest := members[1..];
      FillLastWins(rest, required, optional, next);
      var r := Fill(members, required, optional, slots);
      assert r == Fill(rest, required, optional, next);
      forall i | 0 <= i < |required|
        ensures r.0[i] == RequiredSlot(members, required, i, slots.0[i])
      {
        if LastValueOf(rest, required[i]).None? {
          assert next.0[i] == if IndexOf(required, key) == Some(i) then v else slots.0[i];
        }
      }
      forall j | 0 <= j < |optional|
        ensures r.1[j] == OptionalSlot(members, required, optional, j, slots.1[j])
      {
        if LastValueOf(rest, optional[j]).None? {
          assert next.1[j] == if IndexOf(required, key).None? && IndexOf(optional, key) == Some(j) then Some(v) else slots.1[j];
        }
      }
    }
  }

  /** A required name is found when its slot is its first place in the list
      and some member carries it. */
  predicate Found(members: seq<Member>, required: seq<seq<Byte>>, i: nat)
    requires i < |required|
  {
    IndexOf(required, required[i]) == Some(i) && LastValueOf(members, required[i]).Some?
  }

  /** The names among the first `n` required ones that are not found, in
      declaration order. */
  function NotFound(members: seq<Member>, required: seq<seq<Byte>>, n: nat): seq<seq<Byte>>
    requires n <= |required|
  {
    if n == 0 then [] else NotFound(members, required, n - 1) + (if Found(members, required, n - 1) then [] else [required[n - 1]])
  }

  /** The names of the first `n` required slots still holding the object at
      entry `object`, in declaration order. */
  function MissingNames(required: seq<seq<Byte>>, slots: seq<RawJsonValue>, n: nat, owner: nat): seq<seq<Byte>>
    requires n <= |required| == |slots|
  {
    if n == 0 then []
    else MissingNames(required, slots, n - 1, owner) + (if slots[n - 1].index == owner then [required[n - 1]] else [])
  }

  lemma {:induction false} NotFoundEmpty(members: seq<Member>, required: seq<seq<Byte>>, n: nat)
    requires n <= |required|
    ensures NotFound(members, required, n) == [] <==> forall i | 0 <= i < n :: Found(members, required, i)
  {
    if n > 0 {
      NotFoundEmpty(members, required, n - 1);
      var pre := NotFound(members, required, n - 1);
      if Found(members, required, n - 1) {
        assert NotFound(members, required, n) == pre;
      } else {
        assert NotFound(members, required, n) == pre + [required[n - 1]];
      }
    }
  }

  /** When no member value is the object, the slots still holding it are
      exactly those whose name is not found. */
  lemma {:induction false} MissingAreNotFound(members: seq<Member>, required: seq<seq<Byte>>, slots: seq<RawJsonValue>, n: nat, init: RawJsonValue)
    requires n <= |required| == |slots|
    requires forall k | 0 <= k < |members| :: members[k].1.index != init.index
    requires forall i | 0 <= i < |required| :: slots[i] == RequiredSlot(members, required, i, init)
    ensures MissingNames(required, slots, n, init.index) == NotFound(members, required, n)
  {
    if n > 0 {
      MissingAreNotFound(members, required, slots, n - 1, init);
      var last := LastValueOf(members, required[n - 1]);
      if last.Some? {
        var k :| 0 <= k < |members| && members[k] == (required[n - 1], last.value);
        assert last.value.index != init.index;
      }
    }
  }

  /** `Children`: the direct children of a value, reached by hopping along
      `endIndex` from the entry after it. */
  class Children {
    var value: RawJsonValue
    const endIndex: nat

    ghost predicate Valid()
      reads this
    {
      Nested(value.json.values) && endIndex <= |value.json.values| && Chain(value.json.values, value.index, endIndex)
    }

    /** The entries still to come. */
    ghost function Remaining(): seq<nat>
      reads this
      requires Valid()
    {
      ChildrenFrom(value.json.values, value.index, endIndex)
    }

    constructor (parent: RawJsonValue)
      requires parent.Valid()
      ensures Valid() && value.json == parent.json
      ensures value.index == parent.index + 1 && endIndex == parent.Entry().endIndex
      ensures Remaining() == ChildrenOf(parent.json.values, parent.index)
    {
      SubtreeChain(parent.json.values, parent.index, parent.index + 1);
      endIndex := parent.Entry().endIndex;
      value := parent.(index := parent.index + 1);
    }

    /** `next`: the next child, moving past its subtree. */
    method Next() returns (r: Option<RawJsonValue>)
      requires Valid()
      modifies this
      ensures Valid() && value.json == old(value.json)
      ensures old(Remaining()) == [] ==> r.None? && Remaining() == []
      ensures old(Remaining()) != [] ==> r == Some(RawJsonValue(value.json, old(Remaining())[0])) && Remaining() == old(Remaining())[1..]
    {
      if value.index == endIndex {
        return None;
      }
      var v := value;
      value := value.(index := v.Entry().endIndex);
      return Some(v);
    }

    /** `Iterator::count`: the number of children left, consuming them. */
    method Count() returns (n: nat)
      requires Valid()
      modifies this
      ensures Valid() && value.json == old(value.json)
      ensures n == |old(Remaining())| && Remaining() == []
    {
      n := 0;
      while true
        invariant Valid() && value.json == old(value.json)
        invariant n + |Remaining()| == |old(Remaining())|
        decreases |Remaining()|
      {
        var v := Next();
        if v.None? {
          return;
        }
        n := n + 1;
      }
    }

    /** `Iterator::find` with the test "the range contains `position`". */
    method Find(position: nat) returns (r: Option<RawJsonValue>)
      requires Valid()
      modifies this
      ensures Valid() && value.json == old(value.json)
      ensures var f := FirstContaining(value.json.values, old(Remaining()), position);
        r == if f.None? then None else Some(RawJsonValue(value.json, f.value))
    {
      while true
        invariant Valid() && value.json == old(value.json)
        invariant FirstContaining(value.json.values, Remaining(), position) == FirstContaining(value.json.values, old(Remaining()), position)
        decreases |Remaining()|
      {
        var v := Next();
        if v.None? {
          return None;
        }
        if Contains(v.value.Entry().text, position) {
          return v;
        }
      }
    }
  }

  /** `JsonKeyValuePairs`: an object's children taken two at a time. */
  class JsonKeyValuePairs {
    const inner: Children

    ghost predicate Valid()
      reads this, inner
    {
      inner.Valid() && Pairs(inner.value.json.values, inner.value.index, inner.endIndex)
    }

    ghost function Remaining(): seq<(nat, nat)>
      reads this, inner
      requires Valid()
    {
      MembersFrom(inner.value.json.values, inner.value.index, inner.endIndex)
    }

    constructor (obj: RawJsonValue)
      requires obj.Valid() && obj.Kind() == Object
      ensures fresh(inner) && Valid() && inner.value.json == obj.json
      ensures Remaining() == obj.Members()
    {
      inner := new Children(obj);
      assert EntryOk(obj.json.text, obj.json.values, |obj.json.values|, obj.index);
    }

    /** `next`: the next (key, value) pair; once a key is found its value
        always follows. */
    method Next() returns (r: Option<(RawJsonValue, RawJsonValue)>)
      requires Valid()
      modifies inner
      ensures Valid() && inner.value.json == old(inner.value.json)
      ensures old(Remaining()) == [] ==> r.None? && Remaining() == []
      ensures old(Remaining()) != [] ==>
        var m := old(Remaining())[0];
        r == Some((RawJsonValue(inner.value.json, m.0), RawJsonValue(inner.value.json, m.1)))
        && Remaining() == old(Remaining())[1..]
    {
      PairsChain(inner.value.json.values, inner.value.index, inner.endIndex);
      var key :- inner.Next();
      var value := inner.Next();
      assert value.Some?;
      return Some((key, value.value));
    }
  }
}
