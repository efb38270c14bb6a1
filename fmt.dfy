/** The `DisplayJson` writers of src/fmt.rs: booleans, integers, strings,
    `Option`, sequences (`&[T]`, `[T; N]`, `Vec`, `VecDeque`) through
    `JsonArrayFormatter`, and maps (`BTreeMap`, `HashMap`) through
    `JsonObjectFormatter`. */
module Fmt {
  import opened Wrappers
  import opened Bytes
  import opened Grammar
  import opened Sinks
  import opened Seqs
  import Decimal
  import Escaping
  import TryFrom

  /** A value of a Rust type that implements `DisplayJson`. A map is the
      sequence of its entries in iteration order. */
  datatype Value =
    | BoolV(b: bool)
    | IntV(n: int)
    | StrV(s: string)
    | OptionV(o: Option<Value>)
    | ArrayV(items: seq<Value>)
    | ObjectV(members: seq<(string, Value)>)

  const NULL: seq<Byte> := [LOWER_N] + NULL_SUFFIX
  const TRUE: seq<Byte> := [LOWER_T] + TRUE_SUFFIX
  const FALSE: seq<Byte> := [LOWER_F] + FALSE_SUFFIX

  /** The texts joined by commas. */
  function Join(xs: seq<seq<Byte>>): seq<Byte>
  {
    if |xs| <= 1 then (if xs == [] then [] else xs[0])
    else Join(xs[..|xs| - 1]) + [COMMA] + xs[|xs| - 1]
  }

  /** What `DisplayJson::fmt` writes for `v`. */
  function Render(v: Value): (r: seq<Byte>)
    ensures |r| > 0
    ensures v.IntV? ==> (r[0] == MINUS <==> v.n < 0)
    ensures v.StrV? ==> r[0] == QUOTE && r[|r| - 1] == QUOTE
    ensures v.ArrayV? ==> r[0] == LBRACKET && r[|r| - 1] == RBRACKET
    ensures v.ObjectV? ==> r[0] == LBRACE && r[|r| - 1] == RBRACE
    decreases v, 1
  {
    match v
    case BoolV(b) => if b then TRUE else FALSE
    case IntV(n) => Decimal.Render(n)
    case StrV(s) => Escaping.Quoted(s)
    case OptionV(o) => if o.Some? then Render(o.value) else NULL
    case ArrayV(items) => [LBRACKET] + Join(RenderAll(items)) + [RBRACKET]
    case ObjectV(members) => [LBRACE] + Join(MembersText(members)) + [RBRACE]
  }

  function RenderAll(items: seq<Value>): (r: seq<seq<Byte>>)
    ensures |r| == |items| && forall k | 0 <= k < |items| :: r[k] == Render(items[k])
    decreases ArrayV(items), 0
  {
    seq(|items|, k requires 0 <= k < |items| => Render(items[k]))
  }

  /** One member of an object: the key as a JSON string, a colon, the value. */
  function MemberText(key: string, v: Value): seq<Byte>
    decreases v, 2
  {
    Escaping.Quoted(key) + [COLON] + Render(v)
  }

  function MembersText(members: seq<(string, Value)>): (r: seq<seq<Byte>>)
    ensures |r| == |members| && forall k | 0 <= k < |members| :: r[k] == MemberText(members[k].0, members[k].1)
    decreases ObjectV(members), 0
  {
    seq(|members|, k requires 0 <= k < |members| => MemberText(members[k].0, members[k].1))
  }

  /** What goes before the entry at `index`: nothing before the first, a
      comma before every later one. */
  function Sep(index: nat): seq<Byte>
  {
    if index == 0 then [] else [COMMA]
  }

  /** What an array writer has written once `items` are in. */
  function ArrayText(items: seq<Value>): seq<Byte>
  {
    [LBRACKET] + Join(RenderAll(items))
  }

  /** What an object writer has written once `members` are in. */
  function ObjectText(members: seq<(string, Value)>): seq<Byte>
  {
    [LBRACE] + Join(MembersText(members))
  }

  /** One more text joins on after a comma, except the first. */
  lemma JoinSnoc(xs: seq<seq<Byte>>, x: seq<Byte>)
    ensures Join(xs + [x]) == Join(xs) + (Sep(|xs|) + x)
  {
    var ys := xs + [x];
    if xs == [] {
      assert ys == [x];
      EmptyAppend(Sep(0), x);
      EmptyAppend(Join(xs), x);
    } else {
      assert ys[..|ys| - 1] == xs;
      Assoc(Join(xs), [COMMA], x);
    }
  }

  /** Joining more texts only extends the result. */
  lemma {:induction false} JoinPrefix(xs: seq<seq<Byte>>, ys: seq<seq<Byte>>)
    ensures Join(xs) <= Join(xs + ys)
    decreases |ys|
  {
    if ys == [] {
      assert xs + ys == xs;
    } else {
      var init := ys[..|ys| - 1];
      var y := ys[|ys| - 1];
      assert xs + ys == (xs + init) + [y];
      JoinPrefix(xs, init);
      JoinSnoc(xs + init, y);
      PrefixOfLonger(Join(xs), Join(xs + init), Sep(|xs + init|) + y);
    }
  }

  lemma RenderAllAppend(a: seq<Value>, b: seq<Value>)
    ensures RenderAll(a + b) == RenderAll(a) + RenderAll(b)
  {
  }

  lemma MembersTextAppend(a: seq<(string, Value)>, b: seq<(string, Value)>)
    ensures MembersText(a + b) == MembersText(a) + MembersText(b)
  {
  }

  /** Writing one more value onto an array: its separator, then its text. */
  lemma ArrayTextSnoc(items: seq<Value>, v: Value)
    ensures ArrayText(items + [v]) == ArrayText(items) + (Sep(|items|) + Render(v))
  {
    RenderAllAppend(items, [v]);
    assert RenderAll([v]) == [Render(v)];
    JoinSnoc(RenderAll(items), Render(v));
    Assoc([LBRACKET], Join(RenderAll(items)), Sep(|items|) + Render(v));
  }

  lemma ObjectTextSnoc(members: seq<(string, Value)>, key: string, v: Value)
    ensures ObjectText(members + [(key, v)]) == ObjectText(members) + (Sep(|members|) + MemberText(key, v))
  {
    MembersTextAppend(members, [(key, v)]);
    assert MembersText([(key, v)]) == [MemberText(key, v)];
    JoinSnoc(MembersText(members), MemberText(key, v));
    Assoc([LBRACE], Join(MembersText(members)), Sep(|members|) + MemberText(key, v));
  }

  /** What was written for a prefix of the values is a prefix of what is
      written for all of them. */
  lemma ArrayTextPrefix(done: seq<Value>, items: seq<Value>)
    requires done <= items
    ensures ArrayText(done) <= ArrayText(items) + [RBRACKET]
  {
    var rest := items[|done|..];
    assert items == done + rest;
    RenderAllAppend(done, rest);
    JoinPrefix(RenderAll(done), RenderAll(rest));
    PrefixOfLonger(ArrayText(done), ArrayText(items), [RBRACKET]);
  }

  lemma ObjectTextPrefix(done: seq<(string, Value)>, members: seq<(string, Value)>)
    requires done <= members
    ensures ObjectText(done) <= ObjectText(members) + [RBRACE]
  {
    var rest := members[|done|..];
    assert members == done + rest;
    MembersTextAppend(done, rest);
    JoinPrefix(MembersText(done), MembersText(rest));
    PrefixOfLonger(ObjectText(done), ObjectText(members), [RBRACE]);
  }

  /** An integer of a Rust integer type is written as an integer token that
      the same type's conversion reads back as the same integer (`0` aside
      for the `NonZero` types, which cannot hold it). */
  lemma IntRoundTrip(n: int, ty: TryFrom.IntType, nonZero: bool)
    requires ty.Min() <= n <= ty.Max() && (nonZero ==> n != 0)
    ensures IntegerText(Render(IntV(n)))
    ensures TryFrom.FromStr(Render(IntV(n)), TryFrom.IntS(ty, nonZero)) == Success(TryFrom.IntV(n))
  {
    var text := Decimal.Render(n);
    Decimal.RenderIsIntegerText(n);
    TryFrom.IntegerTextFromStr(text, ty);
    if !ty.Signed() {
      assert n >= 0;
      assert text[0] != MINUS;
    }
  }

  /** A boolean is written as `true` or `false`, which the `bool`
      conversion reads back. */
  lemma BoolRoundTrip(b: bool)
    ensures Render(BoolV(b)) == if b then TRUE else FALSE
    ensures TryFrom.FromStr(Render(BoolV(b)), TryFrom.BoolS) == Success(TryFrom.BoolV(b))
  {
    assert TRUE != FALSE;
  }

  /** Joining three texts puts a comma between each two; a step of the
      example lemmas below. */
  lemma Join3(a: seq<Byte>, b: seq<Byte>, c: seq<Byte>)
    ensures Join([a, b, c]) == a + [COMMA] + b + [COMMA] + c
  {
    assert [a] + [b] == [a, b];
    assert [a, b] + [c] == [a, b, c];
    JoinSnoc([a], b);
    JoinSnoc([a, b], c);
    Assoc(a, [COMMA], b);
    Assoc(a + [COMMA] + b, [COMMA], c);
  }

  /** The texts of three items, one per item; a step of the example
      lemmas below. */
  lemma RenderAll3(x: Value, y: Value, z: Value)
    ensures RenderAll([x, y, z]) == [Render(x), Render(y), Render(z)]
  {
  }

  /** `Json([1, 2, 3])` is `[1,2,3]`, and an empty sequence is `[]`. */
  lemma ArrayExample()
    ensures Render(ArrayV([IntV(1), IntV(2), IntV(3)])) == [LBRACKET, 0x31, COMMA, 0x32, COMMA, 0x33, RBRACKET]
    ensures Render(ArrayV([])) == [LBRACKET, RBRACKET]
  {
    RenderAll3(IntV(1), IntV(2), IntV(3));
    Join3([0x31], [0x32], [0x33]);
    assert RenderAll([]) == [];
  }

  /** `Json([Some(1), None, Some(3)])` is `[1,null,3]`. */
  lemma OptionExample()
    ensures Render(ArrayV([OptionV(Some(IntV(1))), OptionV(None), OptionV(Some(IntV(3)))]))
         == [LBRACKET, 0x31, COMMA, LOWER_N, 0x75, 0x6C, 0x6C, COMMA, 0x33, RBRACKET]
  {
    RenderAll3(OptionV(Some(IntV(1))), OptionV(None), OptionV(Some(IntV(3))));
    Join3([0x31], NULL, [0x33]);
  }

  /** `{"a":1,"b":[]}`: each member is the quoted key, a colon and the
      value, with no spaces. */
  lemma ObjectExample()
    ensures Render(ObjectV([("a", IntV(1)), ("b", ArrayV([]))]))
         == [LBRACE, QUOTE, 0x61, QUOTE, COLON, 0x31, COMMA, QUOTE, 0x62, QUOTE, COLON, LBRACKET, RBRACKET, RBRACE]
  {
    var a := MemberText("a", IntV(1));
    var b := MemberText("b", ArrayV([]));
    QuotedLetter('a');
    QuotedLetter('b');
    ArrayExample();
    assert a == [QUOTE, 0x61, QUOTE, COLON, 0x31];
    assert b == [QUOTE, 0x62, QUOTE, COLON, LBRACKET, RBRACKET];
    assert MembersText([("a", IntV(1)), ("b", ArrayV([]))]) == [a, b];
    assert [a] + [b] == [a, b];
    JoinSnoc([a], b);
  }

  /** A lowercase letter is written as itself between quotes; a step of
      the object example above. */
  lemma QuotedLetter(c: char)
    requires 'a' <= c <= 'z'
    ensures Escaping.Quoted([c]) == [QUOTE, c as int, QUOTE]
  {
    Escaping.EscapeSingle(c);
    assert Escaping.EscapeChar(c) == [c as int];
  }

  /** `DisplayJson::fmt`: writes `v` onto the sink; `ok` is false once a
      write has failed. */
  method WriteValue(sink: Sink, v: Value) returns (ok: bool)
    requires sink.Valid()
    modifies sink
    ensures sink.Valid() && Appended(old(sink.out), sink.out, Render(v), ok, sink.capacity)
    decreases v, 3
  {
    match v
    case BoolV(b) =>
      ok := sink.Write(if b then TRUE else FALSE);
    case IntV(n) =>
      ok := sink.Write(Decimal.Render(n));
    case StrV(s) =>
      ok := Escaping.WriteEscaped(sink, s);
    case OptionV(o) =>
      if o.Some? {
        ok := WriteValue(sink, o.value);
      } else {
        ok := sink.Write(NULL);
      }
    case ArrayV(items) =>
      ok := WriteArray(sink, items);
    case ObjectV(members) =>
      ok := WriteObject(sink, members);
  }

  /** A sequence: `JsonArrayFormatter::new(f).values(self.iter()).finish()`. */
  method WriteArray(sink: Sink, items: seq<Value>) returns (ok: bool)
    requires sink.Valid()
    modifies sink
    ensures sink.Valid() && Appended(old(sink.out), sink.out, ArrayText(items) + [RBRACKET], ok, sink.capacity)
    decreases ArrayV(items), 2
  {
    ghost var before := sink.out;
    var f := new ArrayFormatter(sink);
    f.Values(items);
    ghost var done := f.items;
    if f.error {
      ArrayTextPrefix(done, items);
      AppendedLonger(before, sink.out, ArrayText(done), ArrayText(items) + [RBRACKET], sink.capacity);
      ok := f.Finish();
    } else {
      assert done == items;
      ok := f.Finish();
    }
  }

  /** A map: `JsonObjectFormatter::new(f).members(self.iter()).finish()`. */
  method WriteObject(sink: Sink, members: seq<(string, Value)>) returns (ok: bool)
    requires sink.Valid()
    modifies sink
    ensures sink.Valid() && Appended(old(sink.out), sink.out, ObjectText(members) + [RBRACE], ok, sink.capacity)
    decreases ObjectV(members), 2
  {
    ghost var before := sink.out;
    var f := new ObjectFormatter(sink);
    f.Members(members);
    ghost var done := f.members;
    if f.error {
      ObjectTextPrefix(done, members);
      AppendedLonger(before, sink.out, ObjectText(done), ObjectText(members) + [RBRACE], sink.capacity);
      ok := f.Finish();
    } else {
      assert done == members;
      ok := f.Finish();
    }
  }

  /** `JsonArrayFormatter`: `[`, the values with a comma before all but the
      first, `]`; the first failed write is latched in `error` and nothing
      is written after it. */
  class ArrayFormatter {
    const sink: Sink
    var first: bool
    var error: bool
    /** What the sink held before the `[`. */
    ghost const start: seq<Byte>
    /** The values written so far, the one whose write failed included. */
    ghost var items: seq<Value>

    ghost predicate Valid()
      reads this, sink
    {
      sink.Valid() && (first <==> items == [])
      && Appended(start, sink.out, ArrayText(items), !error, sink.capacity)
    }

    /** `new`: writes `[` and records whether that failed. */
    constructor (sink: Sink)
      requires sink.Valid()
      modifies sink
      ensures Valid() && this.sink == sink && start == old(sink.out) && items == [] && first
      ensures error <==> |old(sink.out)| + 1 > sink.capacity
    {
      ghost var before := sink.out;
      var ok := sink.Write([LBRACKET]);
      this.sink := sink;
      start := before;
      first := true;
      error := !ok;
      items := [];
      assert ArrayText([]) == [LBRACKET];
    }

    /** `value`: after an error, nothing; otherwise a comma unless this is
        the first value, then the value. */
    method Value(v: Value)
      requires Valid()
      modifies this, sink
      ensures Valid() && (if old(error) then first == old(first) else !first)
      ensures old(error) ==> error && items == old(items) && sink.out == old(sink.out)
      ensures !old(error) ==> items == old(items) + [v]
      ensures !old(error) ==> Appended(old(sink.out), sink.out, Sep(|old(items)|) + Render(v), !error, sink.capacity)
      decreases v, 4
    {
      if error {
        return;
      }
      ghost var before := sink.out;
      ArrayTextSnoc(items, v);
      if !first {
        var ok := sink.Write([COMMA]);
        if !ok {
          AppendedFailed(before, sink.out, [COMMA], Render(v), sink.capacity);
          AppendedThen(start, before, sink.out, ArrayText(items), Sep(|items|) + Render(v), false, sink.capacity);
          error := true;
          items := items + [v];
          return;
        }
      } else {
        first := false;
      }
      ghost var mid := sink.out;
      var ok := WriteValue(sink, v);
      AppendedThen(before, mid, sink.out, Sep(|items|), Render(v), ok, sink.capacity);
      AppendedThen(start, before, sink.out, ArrayText(items), Sep(|items|) + Render(v), ok, sink.capacity);
      error := !ok;
      items := items + [v];
    }

    /** `values`: each value in order, stopping at the first error. */
    method Values(vs: seq<Value>)
      requires Valid()
      modifies this, sink
      ensures Valid()
      ensures old(error) ==> error && items == old(items) && sink.out == old(sink.out)
      ensures !old(error) ==> old(items) <= items <= old(items) + vs
      ensures !error ==> items == old(items) + vs
      decreases ArrayV(vs), 1
    {
      if error {
        return;
      }
      ghost var items0 := items;
      for i := 0 to |vs|
        invariant Valid() && !error && items == items0 + vs[..i]
      {
        Value(vs[i]);
        AppendTake(items0, vs, i);
        if error {
          break;
        }
      }
      AppendAll(items0, vs);
    }

    /** `finish`: the latched error, leaving the `]` unwritten, or else
        the write of `]`. */
    method Finish() returns (ok: bool)
      requires Valid()
      modifies this, sink
      ensures sink.Valid() && !error && items == old(items)
      ensures old(error) ==> !ok && sink.out == old(sink.out)
      ensures Appended(start, sink.out, ArrayText(items) + [RBRACKET], ok, sink.capacity)
    {
      if error {
        error := false;
        AppendedFailed(start, sink.out, ArrayText(items), [RBRACKET], sink.capacity);
        return false;
      }
      ghost var before := sink.out;
      ok := sink.Write([RBRACKET]);
      AppendedThen(start, before, sink.out, ArrayText(items), [RBRACKET], ok, sink.capacity);
    }
  }

  /** `JsonObjectFormatter`: `{`, the members with a comma before all but
      the first, `}`, latching the first error like the array writer. */
  class ObjectFormatter {
    const sink: Sink
    var first: bool
    var error: bool
    ghost const start: seq<Byte>
    ghost var members: seq<(string, Value)>

    ghost predicate Valid()
      reads this, sink
    {
      sink.Valid() && (first <==> members == [])
      && Appended(start, sink.out, ObjectText(members), !error, sink.capacity)
    }

    constructor (sink: Sink)
      requires sink.Valid()
      modifies sink
      ensures Valid() && this.sink == sink && start == old(sink.out) && members == [] && first
      ensures error <==> |old(sink.out)| + 1 > sink.capacity
    {
      ghost var before := sink.out;
      var ok := sink.Write([LBRACE]);
      this.sink := sink;
      start := before;
      first := true;
      error := !ok;
      members := [];
      assert ObjectText([]) == [LBRACE];
    }

    /** `member`: after an error, nothing; otherwise a comma unless this is
        the first member, then the key as a JSON string, `:` and the value. */
    method Member(key: string, v: Value)
      requires Valid()
      modifies this, sink
      ensures Valid() && (if old(error) then first == old(first) else !first)
      ensures old(error) ==> error && members == old(members) && sink.out == old(sink.out)
      ensures !old(error) ==> members == old(members) + [(key, v)]
      ensures !old(error) ==> Appended(old(sink.out), sink.out, Sep(|old(members)|) + MemberText(key, v), !error, sink.capacity)
      decreases v, 5
    {
      if error {
        return;
      }
      ghost var before := sink.out;
      ObjectTextSnoc(members, key, v);
      if !first {
        var ok := sink.Write([COMMA]);
        if !ok {
          AppendedFailed(before, sink.out, [COMMA], MemberText(key, v), sink.capacity);
          AppendedThen(start, before, sink.out, ObjectText(members), Sep(|members|) + MemberText(key, v), false, sink.capacity);
          error := true;
          members := members + [(key, v)];
          return;
        }
      } else {
        first := false;
      }
      ghost var mid := sink.out;
      var ok := WriteMember(sink, key, v);
      AppendedThen(before, mid, sink.out, Sep(|members|), MemberText(key, v), ok, sink.capacity);
      AppendedThen(start, before, sink.out, ObjectText(members), Sep(|members|) + MemberText(key, v), ok, sink.capacity);
      error := !ok;
      members := members + [(key, v)];
    }

    /** `members`: each entry in order, stopping at the first error. */
    method Members(ms: seq<(string, Value)>)
      requires Valid()
      modifies this, sink
      ensures Valid()
      ensures old(error) ==> error && members == old(members) && sink.out == old(sink.out)
      ensures !old(error) ==> old(members) <= members <= old(members) + ms
      ensures !error ==> members == old(members) + ms
      decreases ObjectV(ms), 1
    {
      if error {
        return;
      }
      ghost var members0 := members;
      for i := 0 to |ms|
        invariant Valid() && !error && members == members0 + ms[..i]
      {
        Member(ms[i].0, ms[i].1);
        AppendTake(members0, ms, i);
        if error {
          break;
        }
      }
      AppendAll(members0, ms);
    }

    method Finish() returns (ok: bool)
      requires Valid()
      modifies this, sink
      ensures sink.Valid() && !error && members == old(members)
      ensures old(error) ==> !ok && sink.out == old(sink.out)
      ensures Appended(start, sink.out, ObjectText(members) + [RBRACE], ok, sink.capacity)
    {
      if error {
        error := false;
        AppendedFailed(start, sink.out, ObjectText(members), [RBRACE], sink.capacity);
        return false;
      }
      ghost var before := sink.out;
      ok := sink.Write([RBRACE]);
      AppendedThen(start, before, sink.out, ObjectText(members), [RBRACE], ok, sink.capacity);
    }
  }

  /** `write!(f, "{}:", Json(key))` and then the value: the quoted key,
      `:`, the value, stopping at the first failed write. */
  method WriteMember(sink: Sink, key: string, v: Value) returns (ok: bool)
    requires sink.Valid()
    modifies sink
    ensures sink.Valid() && Appended(old(sink.out), sink.out, MemberText(key, v), ok, sink.capacity)
    decreases v, 4
  {
    ghost var before := sink.out;
    var q := Escaping.Quoted(key);
    ok := Escaping.WriteEscaped(sink, key);
    if !ok {
      AppendedFailed(before, sink.out, q, [COLON] + Render(v), sink.capacity);
      Assoc(q, [COLON], Render(v));
      return;
    }
    ghost var keyed := sink.out;
    ok := sink.Write([COLON]);
    if !ok {
      AppendedFailed(keyed, sink.out, [COLON], Render(v), sink.capacity);
      AppendedThen(before, keyed, sink.out, q, [COLON] + Render(v), false, sink.capacity);
      Assoc(q, [COLON], Render(v));
      return;
    }
    AppendedThen(before, keyed, sink.out, q, [COLON], true, sink.capacity);
    ghost var colon := sink.out;
    ok := WriteValue(sink, v);
    AppendedThen(before, colon, sink.out, q + [COLON], Render(v), ok, sink.capacity);
  }
}
