/** The typed conversions of src/try_from_impls.rs, `TryFrom<RawJsonValue>`
    for Rust types. Rust picks the impl by the target type; here a `Target`
    names that type, `Convert` dispatches on it, and a `Typed` value is what
    the conversion returns. */
module TryFrom {
  import opened Wrappers
  import opened Bytes
  import opened Kind
  import opened ParseError
  import opened Grammar
  import opened Decimal
  import opened Raw

  /** The primitive integer types; `isize` and `usize` are taken as 64 bits. */
  datatype IntType = I8 | I16 | I32 | I64 | I128 | ISize | U8 | U16 | U32 | U64 | U128 | USize {

    predicate Signed() {
      this == I8 || this == I16 || this == I32 || this == I64 || this == I128 || this == ISize
    }

    function Min(): int {
      match this
      case I8 => -0x80
      case I16 => -0x8000
      case I32 => -0x8000_0000
      case I64 | ISize => -0x8000_0000_0000_0000
      case I128 => -0x8000_0000_0000_0000_0000_0000_0000_0000
      case _ => 0
    }

    function Max(): int {
      match this
      case I8 => 0x7F
      case I16 => 0x7FFF
      case I32 => 0x7FFF_FFFF
      case I64 | ISize => 0x7FFF_FFFF_FFFF_FFFF
      case I128 => 0x7FFF_FFFF_FFFF_FFFF_FFFF_FFFF_FFFF_FFFF
      case U8 => 0xFF
      case U16 => 0xFFFF
      case U32 => 0xFFFF_FFFF
      case U64 | USize => 0xFFFF_FFFF_FFFF_FFFF
      case U128 => 0xFFFF_FFFF_FFFF_FFFF_FFFF_FFFF_FFFF_FFFF
    }
  }

  /** `FromStr` of an integer type, which is `from_str_radix(s, 10)`: an
      optional sign (a minus only for a signed type), then digits. */
  function IntFromStr(s: seq<Byte>, ty: IntType): (r: Result<int, IntErrorKind>)
    ensures r.Success? ==> ty.Min() <= r.value <= ty.Max()
  {
    if s == [] then Failure(Empty)
    else if (s[0] == PLUS || s[0] == MINUS) && |s| == 1 then Failure(InvalidDigit)
    else if s[0] == PLUS then Accumulate(s[1..], true, ty.Min(), ty.Max())
    else if s[0] == MINUS && ty.Signed() then Accumulate(s[1..], false, ty.Min(), ty.Max())
    else Accumulate(s, true, ty.Min(), ty.Max())
  }

  /** The digit loop of `from_str_radix` for a type whose range is
      `lo..=hi`, read left to right: the first byte that is not a digit, or
      the first prefix whose value leaves the range, decides the error. */
  function Accumulate(digits: seq<Byte>, positive: bool, lo: int, hi: int): (r: Result<int, IntErrorKind>)
    requires lo <= 0 <= hi
    ensures r.Success? ==> lo <= r.value <= hi
    decreases |digits|
  {
    if digits == [] then Success(0)
    else
      var acc :- Accumulate(digits[..|digits| - 1], positive, lo, hi);
      var d := digits[|digits| - 1];
      if !IsDigit(d) then Failure(InvalidDigit)
      else
        var next := if positive then 10 * acc + (d - ZERO) else 10 * acc - (d - ZERO);
        if next > hi then Failure(PosOverflow)
        else if next < lo then Failure(NegOverflow)
        else Success(next)
  }

  /** On a run of digits the loop fails only by overflow, and only when the
      whole run's value is out of range. */
  lemma {:induction false} AccumulateDigits(digits: seq<Byte>, positive: bool, lo: int, hi: int)
    requires AllDigits(digits) && lo <= 0 <= hi
    ensures var n := if positive then DigitsValue(digits) as int else -(DigitsValue(digits) as int);
      Accumulate(digits, positive, lo, hi)
      == if n > hi then Failure(PosOverflow) else if n < lo then Failure(NegOverflow) else Success(n)
    decreases |digits|
  {
    if digits != [] {
      var init := digits[..|digits| - 1];
      assert AllDigits(init) by {
        assert forall k | 0 <= k < |init| :: init[k] == digits[k];
      }
      AccumulateDigits(init, positive, lo, hi);
      var a: int := DigitsValue(init);
      var d: int := digits[|digits| - 1] - ZERO;
      assert DigitsValue(digits) == 10 * a + d;
      if positive {
        if a > hi {
          assert 10 * a + d > hi;
        }
      } else {
        if -a < lo {
          assert -(10 * a + d) < lo;
        } else {
          assert 10 * -a - d == -(10 * a + d);
        }
      }
    }
  }

  /** The value of an integer token in the range of the type, else the
      overflow on its side; an unsigned type rejects a minus sign even on
      "-0". */
  lemma IntegerTextFromStr(s: seq<Byte>, ty: IntType)
    requires IntegerText(s)
    ensures !ty.Signed() && s[0] == MINUS ==> IntFromStr(s, ty) == Failure(InvalidDigit)
    ensures ty.Signed() || s[0] != MINUS ==>
      IntFromStr(s, ty) == if TextValue(s) > ty.Max() then Failure(PosOverflow)
                           else if TextValue(s) < ty.Min() then Failure(NegOverflow)
                           else Success(TextValue(s))
  {
    var lo, hi := ty.Min(), ty.Max();
    assert lo <= 0 <= hi;
    assert NumberSplit(s, |s|, |s|);
    if s[0] == MINUS {
      assert s[1..] == s[SignLength(s)..|s|];
      if ty.Signed() {
        AccumulateDigits(s[1..], false, lo, hi);
      } else {
        assert Accumulate(s[..1], true, lo, hi) == Failure(InvalidDigit);
        AccumulateFailurePersists(s, 1, lo, hi);
      }
    } else {
      assert s == s[SignLength(s)..|s|];
      AccumulateDigits(s, true, lo, hi);
    }
  }

  /** A failure on a prefix is the failure of the whole run. */
  lemma {:induction false} AccumulateFailurePersists(s: seq<Byte>, i: nat, lo: int, hi: int)
    requires lo <= 0 <= hi && i <= |s| && Accumulate(s[..i], true, lo, hi).Failure?
    ensures Accumulate(s, true, lo, hi) == Accumulate(s[..i], true, lo, hi)
    decreases |s| - i
  {
    if i < |s| {
      assert s[..i + 1][..i] == s[..i];
      AccumulateFailurePersists(s, i + 1, lo, hi);
    } else {
      assert s[..i] == s;
    }
  }

  /** The scalar types read with `str::parse`: `bool`, the integer types and
      their `NonZero` counterparts, and `String`. */
  datatype Scalar = BoolS | IntS(ty: IntType, nonZero: bool) | StringS

  /** The Rust types a value converts into. */
  datatype Target =
    | ScalarT(scalar: Scalar)
    | CowT                            // Cow<str>
    | OptionT(inner: Target)
    | VecT(elem: Target)              // Vec and VecDeque
    | SetT(elem: Target)              // BTreeSet and HashSet
    | ArrayT(n: nat, elem: Target)    // [T; N]
    | TupleT(elems: seq<Target>)      // () and (T0,) up to (T0, ..., T7)
    | MapT(key: Scalar, value: Target)  // BTreeMap and HashMap

  /** The values of those types. Vectors, arrays and tuples are lists. */
  datatype Typed =
    | BoolV(b: bool)
    | IntV(i: int)
    | StrV(s: seq<Byte>)
    | CowV(cow: Cow)
    | NoneV
    | SomeV(some: Typed)
    | ListV(items: seq<Typed>)
    | SetV(elems: set<Typed>)
    | MapV(entries: map<Typed, Typed>)

  predicate ScalarHasType(x: Typed, s: Scalar) {
    match s
    case BoolS => x.BoolV?
    case IntS(ty, nonZero) => x.IntV? && ty.Min() <= x.i <= ty.Max() && (nonZero ==> x.i != 0)
    case StringS => x.StrV?
  }

  /** `x` is a value of the Rust type `t`. */
  predicate HasType(x: Typed, t: Target)
    decreases t
  {
    match t
    case ScalarT(s) => ScalarHasType(x, s)
    case CowT => x.CowV?
    case OptionT(inner) => x.NoneV? || (x.SomeV? && HasType(x.some, inner))
    case VecT(e) => x.ListV? && forall k | 0 <= k < |x.items| :: HasType(x.items[k], e)
    case SetT(e) => x.SetV? && forall y | y in x.elems :: HasType(y, e)
    case ArrayT(n, e) => x.ListV? && |x.items| == n && forall k | 0 <= k < n :: HasType(x.items[k], e)
    case TupleT(ts) => x.ListV? && |x.items| == |ts| && forall k | 0 <= k < |ts| :: HasType(x.items[k], ts[k])
    case MapT(ks, e) => x.MapV? && forall y | y in x.entries :: ScalarHasType(y, ks) && HasType(x.entries[y], e)
  }

  /** `str::parse` into a scalar type (`bool::from_str` accepts exactly
      "true" and "false"; a `NonZero` type parses the integer, then rejects
      0; `String::from_str` cannot fail). */
  function FromStr(text: seq<Byte>, s: Scalar): (r: Result<Typed, Cause>)
    ensures r.Success? ==> ScalarHasType(r.value, s)
  {
    match s
    case BoolS =>
      if text == [LOWER_T] + TRUE_SUFFIX then Success(BoolV(true))
      else if text == [LOWER_F] + FALSE_SUFFIX then Success(BoolV(false))
      else Failure(ParseBool)
    case IntS(ty, nonZero) =>
      (match IntFromStr(text, ty)
       case Failure(e) => Failure(ParseInt(e))
       case Success(n) => if nonZero && n == 0 then Failure(ParseInt(Zero)) else Success(IntV(n)))
    case StringS => Success(StrV(text))
  }

  /** `text.parse().map_err(|e| value.invalid(e))`: a parse failure becomes
      an error at `at`. */
  function ParseAt(at: RawJsonValue, text: seq<Byte>, s: Scalar): (r: Result<Typed, JsonParseError>)
    requires at.index < |at.json.values|
    ensures r.Success? <==> FromStr(text, s).Success?
    ensures r.Success? ==> r.value == FromStr(text, s).value
    ensures r.Failure? ==> r.error == InvalidValue(at.Kind(), at.Position(), FromStr(text, s).error)
  {
    match FromStr(text, s)
    case Success(x) => Success(x)
    case Failure(c) => Failure(InvalidValue(at.Kind(), at.Position(), c))
  }

  /** `to_unquoted_string_str()?.parse()`: how `String` values and map keys
      are read. */
  function FromUnquoted(v: RawJsonValue, s: Scalar): (r: Result<Typed, JsonParseError>)
    requires v.Valid()
    ensures r.Failure? ==> r.error.InvalidValue? && r.error.Position() == v.Position()
  {
    if v.Kind() != String then Failure(v.KindMismatch([String]))
    else ParseAt(v, v.Unquoted().s, s)
  }

  /** The scalar impls: `as_boolean_str()?.parse()` for `bool`,
      `parse_integer` (`as_integer_str()?.parse()`) for the integer and
      `NonZero` types, and `to_unquoted_string_str()?.parse()` for
      `String`. */
  function ConvertScalar(v: RawJsonValue, s: Scalar): (r: Result<Typed, JsonParseError>)
    requires v.Valid()
    ensures r.Success? ==> ScalarHasType(r.value, s)
    ensures r.Failure? ==> r.error.InvalidValue? && r.error.Position() == v.Position()
  {
    match s
    case BoolS =>
      var text :- v.AsBoolStr();
      ParseAt(v, text, s)
    case IntS(_, _) =>
      var text :- v.AsIntegerStr();
      ParseAt(v, text, s)
    case StringS => FromUnquoted(v, s)
  }

  /** `TryFrom<RawJsonValue>` for the type `t`. */
  function Convert(v: RawJsonValue, t: Target): (r: Result<Typed, JsonParseError>)
    requires v.Valid()
    ensures r.Success? ==> HasType(r.value, t)
    decreases t, 1
  {
    match t
    case ScalarT(s) => ConvertScalar(v, s)
    case CowT => if v.Kind() != String then Failure(v.KindMismatch([String])) else Success(CowV(v.Unquoted()))
    case OptionT(inner) => ConvertOption(v, inner)
    case VecT(e) => ConvertVec(v, e)
    case SetT(e) => ConvertSet(v, e)
    case ArrayT(n, e) => ConvertArray(v, n, e)
    case TupleT(ts) => ConvertTuple(v, ts)
    case MapT(ks, e) => ConvertMap(v, ks, e)
  }

  /** `Option<T>`: null is None, anything else is T's result in Some. */
  function ConvertOption(v: RawJsonValue, inner: Target): (r: Result<Typed, JsonParseError>)
    requires v.Valid()
    ensures r.Success? ==> HasType(r.value, OptionT(inner))
    decreases inner, 3
  {
    if v.Kind().IsNull() then Success(NoneV)
    else
      var x :- Convert(v, inner);
      Success(SomeV(x))
  }

  /** The index of the first failure among `rs`, or `|rs|` if none. */
  function FirstFailure<T>(rs: seq<Result<T, JsonParseError>>): (i: nat)
    ensures i <= |rs| && (i < |rs| ==> rs[i].Failure?)
    ensures forall j | 0 <= j < i :: rs[j].Success?
  {
    if rs == [] || rs[0].Failure? then 0
    else
      var i := FirstFailure(rs[1..]);
      assert forall j | 1 <= j < i + 1 :: rs[j] == rs[1..][j - 1];
      1 + i
  }

  /** `collect` into a `Result`: every value in order, or else the first
      error, the later items being left unexamined. */
  function Collect<T>(rs: seq<Result<T, JsonParseError>>): (r: Result<seq<T>, JsonParseError>)
    ensures r.Success? <==> FirstFailure(rs) == |rs|
    ensures r.Success? ==> |r.value| == |rs| && forall k | 0 <= k < |rs| :: rs[k] == Success(r.value[k])
    ensures r.Failure? ==> r.error == rs[FirstFailure(rs)].error
  {
    if rs == [] then Success([])
    else
      var x :- rs[0];
      assert forall k | 1 <= k < |rs| :: rs[k] == rs[1..][k - 1];
      var xs :- Collect(rs[1..]);
      Success([x] + xs)
  }

  /** With no failure among them, `Collect` gives every value in order. */
  lemma CollectAll<T>(rs: seq<Result<T, JsonParseError>>)
    requires forall k | 0 <= k < |rs| :: rs[k].Success?
    ensures Collect(rs) == Success(Values(rs))
  {
    var r := Collect(rs);
    assert FirstFailure(rs) == |rs|;
    assert r.value == Values(rs);
  }

  /** The values of results that all succeeded. */
  function Values<T>(rs: seq<Result<T, JsonParseError>>): (r: seq<T>)
    requires forall k | 0 <= k < |rs| :: rs[k].Success?
    ensures |r| == |rs| && forall k | 0 <= k < |rs| :: rs[k] == Success(r[k])
  {
    seq(|rs|, k requires 0 <= k < |rs| => rs[k].value)
  }

  /** Every one of `vs` is an entry of `json`. */
  predicate EntriesOf(json: RawJson, vs: seq<RawJsonValue>) {
    forall k | 0 <= k < |vs| :: vs[k].json == json && vs[k].index < |json.values|
  }

  /** Each of `vs` converted to `e`, in order. */
  function ConvertElements(json: RawJson, vs: seq<RawJsonValue>, e: Target): (r: Result<seq<Typed>, JsonParseError>)
    requires json.Valid() && EntriesOf(json, vs)
    ensures r.Success? ==> |r.value| == |vs| && forall k | 0 <= k < |vs| :: HasType(r.value[k], e)
    decreases e, 3
  {
    Collect(Results(json, vs, e))
  }

  /** Each of `vs` converted to `e`, errors included. */
  function Results(json: RawJson, vs: seq<RawJsonValue>, e: Target): (rs: seq<Result<Typed, JsonParseError>>)
    requires json.Valid() && EntriesOf(json, vs)
    ensures |rs| == |vs| && forall k | 0 <= k < |vs| :: rs[k].Success? ==> HasType(rs[k].value, e)
    decreases e, 2
  {
    seq(|vs|, k requires 0 <= k < |vs| => Convert(vs[k], e))
  }

  /** The elements of an array (`to_array`), or the kind error. */
  function Elements(v: RawJsonValue): (r: Result<seq<RawJsonValue>, JsonParseError>)
    requires v.Valid()
    ensures r.Success? <==> v.Kind() == Array
    ensures r.Success? ==> |r.value| == |v.ChildIndices()| && forall k | 0 <= k < |r.value| :: r.value[k] == RawJsonValue(v.json, v.ChildIndices()[k])
    ensures r.Failure? ==> r.error == v.KindMismatch([Array])
  {
    if v.Kind() != Array then Failure(v.KindMismatch([Array]))
    else
      var ks := v.ChildIndices();
      Success(seq(|ks|, k requires 0 <= k < |ks| => RawJsonValue(v.json, ks[k])))
  }

  /** `Vec<T>` and `VecDeque<T>`: `to_array()?.map(T::try_from).collect()`. */
  function ConvertVec(v: RawJsonValue, e: Target): (r: Result<Typed, JsonParseError>)
    requires v.Valid()
    ensures v.Kind() != Array ==> r == Failure(v.KindMismatch([Array]))
    ensures r.Success? ==> HasType(r.value, VecT(e))
    decreases e, 4
  {
    var vs :- Elements(v);
    var items :- ConvertElements(v.json, vs, e);
    Success(ListV(items))
  }

  /** `Vec<T>` of an array takes every element in document order: the
      first element that fails to convert gives the error, and otherwise
      the list holds each element's conversion. */
  lemma VecConversion(v: RawJsonValue, e: Target)
    requires v.Valid() && v.Kind() == Array
    ensures var rs := Results(v.json, Elements(v).value, e);
      && (FirstFailure(rs) < |rs| ==> Convert(v, VecT(e)) == Failure(rs[FirstFailure(rs)].error))
      && (FirstFailure(rs) == |rs| ==> Convert(v, VecT(e)) == Success(ListV(Values(rs))))
  {
    var vs := Elements(v).value;
    var rs := Results(v.json, vs, e);
    assert Convert(v, VecT(e)) == ConvertVec(v, e);
    assert ConvertElements(v.json, vs, e) == Collect(rs);
    if FirstFailure(rs) == |rs| {
      CollectAll(rs);
    }
  }

  /** `BTreeSet<T>` and `HashSet<T>`: the same, collected into a set. */
  function ConvertSet(v: RawJsonValue, e: Target): (r: Result<Typed, JsonParseError>)
    requires v.Valid()
    ensures v.Kind() != Array ==> r == Failure(v.KindMismatch([Array]))
    ensures r.Success? ==> HasType(r.value, SetT(e))
    decreases e, 4
  {
    var vs :- Elements(v);
    var items :- ConvertElements(v.json, vs, e);
    Success(SetV(set k | 0 <= k < |items| :: items[k]))
  }

  /** A set of an array converts every element in document order: the
      first element that fails to convert gives the error, and otherwise
      the set holds exactly the elements' conversions. */
  lemma SetConversion(v: RawJsonValue, e: Target)
    requires v.Valid() && v.Kind() == Array
    ensures var rs := Results(v.json, Elements(v).value, e);
      && (FirstFailure(rs) < |rs| ==> Convert(v, SetT(e)) == Failure(rs[FirstFailure(rs)].error))
      && (FirstFailure(rs) == |rs| ==>
            && Convert(v, SetT(e)).Success? && Convert(v, SetT(e)).value.SetV?
            && forall x :: x in Convert(v, SetT(e)).value.elems <==> x in Values(rs))
  {
    var vs := Elements(v).value;
    var rs := Results(v.json, vs, e);
    assert Convert(v, SetT(e)) == ConvertSet(v, e);
    assert ConvertElements(v.json, vs, e) == Collect(rs);
    if FirstFailure(rs) == |rs| {
      CollectAll(rs);
      var items := Values(rs);
      var r := Convert(v, SetT(e));
      assert r == Success(SetV(set k | 0 <= k < |items| :: items[k]));
      forall x
        ensures x in r.value.elems <==> x in items
      {
        if x in items {
          var k :| 0 <= k < |items| && items[k] == x;
        }
      }
    }
  }

  /** `[T; N]`: exactly `n` elements, then each converted. */
  function ConvertArray(v: RawJsonValue, n: nat, e: Target): (r: Result<Typed, JsonParseError>)
    requires v.Valid()
    ensures v.FixedArray(n).Failure? ==> r == Failure(v.FixedArray(n).error)
    ensures r.Success? ==> HasType(r.value, ArrayT(n, e))
    decreases e, 4
  {
    var vs :- v.FixedArray(n);
    var items :- ConvertElements(v.json, vs, e);
    Success(ListV(items))
  }

  /** `[T; N]` as the implementation runs it: the elements are taken
      into a fixed array exactly as `to_fixed_array` does (too few or too
      many is an error at the array), every one is converted, and then the
      first error, if any, is returned. */
  method ArrayFromValue(v: RawJsonValue, n: nat, e: Target) returns (r: Result<Typed, JsonParseError>)
    requires v.Valid()
    ensures r == ConvertArray(v, n, e)
  {
    var vs :- v.ToFixedArray(n);
    var results := ConvertAll(v.json, vs, e);
    var rs := results[..];
    ArrayOfElements(v, n, e, rs);
    var i := FirstError(results);
    if i < n {
      return Failure(results[i].error);
    }
    return Success(ListV(Values(rs)));
  }

  /** `ConvertArray` in terms of the converted elements `rs`. */
  lemma ArrayOfElements(v: RawJsonValue, n: nat, e: Target, rs: seq<Result<Typed, JsonParseError>>)
    requires v.Valid() && v.FixedArray(n).Success?
    requires rs == Results(v.json, v.FixedArray(n).value, e)
    ensures FirstFailure(rs) < n ==> ConvertArray(v, n, e) == Failure(rs[FirstFailure(rs)].error)
    ensures FirstFailure(rs) == n ==> ConvertArray(v, n, e) == Success(ListV(Values(rs)))
  {
    if FirstFailure(rs) == n {
      CollectAll(rs);
    }
  }

  /** `fixed_array.map(T::try_from)`: every element converted, errors
      included. */
  method ConvertAll(json: RawJson, vs: seq<RawJsonValue>, e: Target) returns (results: array<Result<Typed, JsonParseError>>)
    requires json.Valid() && EntriesOf(json, vs)
    ensures fresh(results) && results[..] == Results(json, vs, e)
  {
    results := new Result<Typed, JsonParseError>[|vs|](_ => Success(NoneV));
    for i := 0 to |vs|
      invariant forall k | 0 <= k < i :: results[k] == Convert(vs[k], e)
    {
      results[i] := Convert(vs[i], e);
    }
  }

  /** The loop over the results: the index of the first error, or the
      length when there is none. */
  method FirstError(results: array<Result<Typed, JsonParseError>>) returns (i: nat)
    ensures i == FirstFailure(results[..])
  {
    i := 0;
    while i < results.Length && results[i].Success?
      invariant i <= results.Length && forall k | 0 <= k < i :: results[k].Success?
    {
      i := i + 1;
    }
  }

  /** `()` and the tuples: through `[RawJsonValue; k]`, so exactly as many
      elements as components, each converted left to right. */
  function ConvertTuple(v: RawJsonValue, ts: seq<Target>): (r: Result<Typed, JsonParseError>)
    requires v.Valid()
    ensures v.FixedArray(|ts|).Failure? ==> r == Failure(v.FixedArray(|ts|).error)
    ensures r.Success? ==> HasType(r.value, TupleT(ts))
    decreases ts, 3
  {
    var vs :- v.FixedArray(|ts|);
    var items :- Collect(ComponentResults(v.json, vs, ts));
    Success(ListV(items))
  }

  /** Each of `vs` converted to the component of `ts` at its position. */
  function ComponentResults(json: RawJson, vs: seq<RawJsonValue>, ts: seq<Target>): (rs: seq<Result<Typed, JsonParseError>>)
    requires json.Valid() && EntriesOf(json, vs) && |vs| == |ts|
    ensures |rs| == |ts| && forall k | 0 <= k < |ts| :: rs[k].Success? ==> HasType(rs[k].value, ts[k])
    decreases ts, 2
  {
    seq(|ts|, k requires 0 <= k < |ts| => Convert(vs[k], ts[k]))
  }

  /** A tuple checks the arity first: an array of the wrong length (or a
      non-array) gives the `to_fixed_array` error. With the right arity
      the components convert left to right, the first failing one gives
      the error, and otherwise the list holds each component's value. */
  lemma TupleConversion(v: RawJsonValue, ts: seq<Target>)
    requires v.Valid()
    ensures v.FixedArray(|ts|).Failure? ==> Convert(v, TupleT(ts)) == Failure(v.FixedArray(|ts|).error)
    ensures v.FixedArray(|ts|).Success? ==>
      var rs := ComponentResults(v.json, v.FixedArray(|ts|).value, ts);
      && (FirstFailure(rs) < |rs| ==> Convert(v, TupleT(ts)) == Failure(rs[FirstFailure(rs)].error))
      && (FirstFailure(rs) == |rs| ==> Convert(v, TupleT(ts)) == Success(ListV(Values(rs))))
  {
    assert Convert(v, TupleT(ts)) == ConvertTuple(v, ts);
    if v.FixedArray(|ts|).Success? {
      var rs := ComponentResults(v.json, v.FixedArray(|ts|).value, ts);
      if FirstFailure(rs) == |rs| {
        CollectAll(rs);
      }
    }
  }

  /** One member of a map: the key unquoted and parsed, then the value. */
  function ConvertMember(json: RawJson, m: (nat, nat), ks: Scalar, e: Target): (r: Result<(Typed, Typed), JsonParseError>)
    requires json.Valid() && m.0 < |json.values| && m.1 < |json.values|
    ensures r.Success? ==> ScalarHasType(r.value.0, ks) && HasType(r.value.1, e)
    ensures FromUnquoted(RawJsonValue(json, m.0), ks).Failure? ==> r.Failure? && r.error.Position() == json.values[m.0].text.start
    decreases e, 2
  {
    var key :- FromUnquoted(RawJsonValue(json, m.0), ks);
    var value :- Convert(RawJsonValue(json, m.1), e);
    Success((key, value))
  }

  /** Inserting the pairs in order: a later key replaces an earlier one. */
  function ToMap<K, V>(pairs: seq<(K, V)>): (r: map<K, V>)
    ensures r == map[] <==> pairs == []
    ensures pairs != [] ==> pairs[|pairs| - 1].0 in r && r[pairs[|pairs| - 1].0] == pairs[|pairs| - 1].1
    ensures |r| <= |pairs|
  {
    if pairs == [] then map[]
    else
      var last := pairs[|pairs| - 1];
      ToMap(pairs[..|pairs| - 1])[last.0 := last.1]
  }

  /** Every entry of the map is one of the pairs. */
  lemma {:induction false} MapFromPairs<K, V>(pairs: seq<(K, V)>)
    ensures forall y | y in ToMap(pairs) :: (y, ToMap(pairs)[y]) in pairs
  {
    if pairs != [] {
      var init := pairs[..|pairs| - 1];
      MapFromPairs(init);
      assert forall p | p in init :: p in pairs;
    }
  }

  /** Inserting pairs in order keeps every key, each with the value of its
      last pair. */
  lemma {:induction false} MapLastWins<K, V>(pairs: seq<(K, V)>)
    ensures forall i | 0 <= i < |pairs| :: pairs[i].0 in ToMap(pairs)
    ensures forall i | 0 <= i < |pairs| && (forall j | i < j < |pairs| :: pairs[j].0 != pairs[i].0) ::
      ToMap(pairs)[pairs[i].0] == pairs[i].1
  {
    if pairs != [] {
      var init := pairs[..|pairs| - 1];
      var last := pairs[|pairs| - 1];
      MapLastWins(init);
      var m := ToMap(pairs);
      assert m == ToMap(init)[last.0 := last.1];
      forall i | 0 <= i < |pairs|
        ensures pairs[i].0 in m
      {
        if i < |init| {
          assert init[i] == pairs[i] && init[i].0 in ToMap(init);
        } else {
          assert pairs[i] == last;
        }
      }
      forall i | 0 <= i < |pairs| && (forall j | i < j < |pairs| :: pairs[j].0 != pairs[i].0)
        ensures m[pairs[i].0] == pairs[i].1
      {
        if i < |init| {
          assert init[i] == pairs[i] && pairs[i].0 != last.0;
          assert forall j | i < j < |init| :: init[j] == pairs[j];
        }
      }
    }
  }

  /** `BTreeMap<K, V>` and `HashMap<K, V>`: `to_object()?`, then each
      member, collected into a map. */
  function ConvertMap(v: RawJsonValue, ks: Scalar, e: Target): (r: Result<Typed, JsonParseError>)
    requires v.Valid()
    ensures v.Kind() != Object ==> r == Failure(v.KindMismatch([Object]))
    ensures r.Success? ==> HasType(r.value, MapT(ks, e))
    decreases e, 5
  {
    if v.Kind() != Object then Failure(v.KindMismatch([Object]))
    else ConvertMembers(v.json, v.Members(), ks, e)
  }

  /** The members `ms` converted in order and inserted into a map. */
  function ConvertMembers(json: RawJson, ms: seq<(nat, nat)>, ks: Scalar, e: Target): (r: Result<Typed, JsonParseError>)
    requires json.Valid() && forall k | 0 <= k < |ms| :: ms[k].0 < |json.values| && ms[k].1 < |json.values|
    ensures r.Success? ==> HasType(r.value, MapT(ks, e))
    decreases e, 4
  {
    var pairs :- Collect(MemberResults(json, ms, ks, e));
    MapHasType(pairs, ks, e);
    Success(MapV(ToMap(pairs)))
  }

  /** Each of the members `ms` converted, errors included. */
  function MemberResults(json: RawJson, ms: seq<(nat, nat)>, ks: Scalar, e: Target): (rs: seq<Result<(Typed, Typed), JsonParseError>>)
    requires json.Valid() && forall k | 0 <= k < |ms| :: ms[k].0 < |json.values| && ms[k].1 < |json.values|
    ensures |rs| == |ms| && forall k | 0 <= k < |ms| :: rs[k].Success? ==> ScalarHasType(rs[k].value.0, ks) && HasType(rs[k].value.1, e)
    decreases e, 3
  {
    seq(|ms|, k requires 0 <= k < |ms| => ConvertMember(json, ms[k], ks, e))
  }

  /** The members are converted in order and the first member that fails
      (its key or its value) aborts with its error; otherwise the map is
      built from every member's pair, in order. */
  lemma MembersConversion(json: RawJson, ms: seq<(nat, nat)>, ks: Scalar, e: Target)
    requires json.Valid() && forall k | 0 <= k < |ms| :: ms[k].0 < |json.values| && ms[k].1 < |json.values|
    ensures var rs := MemberResults(json, ms, ks, e);
      && (FirstFailure(rs) < |rs| ==> ConvertMembers(json, ms, ks, e) == Failure(rs[FirstFailure(rs)].error))
      && (FirstFailure(rs) == |rs| ==> ConvertMembers(json, ms, ks, e) == Success(MapV(ToMap(Values(rs)))))
  {
    var rs := MemberResults(json, ms, ks, e);
    if FirstFailure(rs) == |rs| {
      CollectAll(rs);
    }
  }

  /** When every member converts, the map has every member's key, and a
      key that is not repeated later holds that member's value: a later
      duplicate replaces an earlier one. */
  lemma MembersMapEntries(json: RawJson, ms: seq<(nat, nat)>, ks: Scalar, e: Target)
    requires json.Valid() && forall k | 0 <= k < |ms| :: ms[k].0 < |json.values| && ms[k].1 < |json.values|
    requires FirstFailure(MemberResults(json, ms, ks, e)) == |ms|
    ensures var pairs := Values(MemberResults(json, ms, ks, e));
      var m := ConvertMembers(json, ms, ks, e).value.entries;
      && (forall i | 0 <= i < |pairs| :: pairs[i].0 in m)
      && (forall i | 0 <= i < |pairs| && (forall j | i < j < |pairs| :: pairs[j].0 != pairs[i].0) :: m[pairs[i].0] == pairs[i].1)
  {
    var rs := MemberResults(json, ms, ks, e);
    MembersConversion(json, ms, ks, e);
    var pairs := Values(rs);
    assert ConvertMembers(json, ms, ks, e).value.entries == ToMap(pairs);
    MapLastWins(pairs);
  }

  /** A map of an object is its members converted: a non-object gives the
      kind error, and otherwise the result is that of `ConvertMembers`
      over the object's members in document order. */
  lemma MapConversion(v: RawJsonValue, ks: Scalar, e: Target)
    requires v.Valid()
    ensures v.Kind() != Object ==> Convert(v, MapT(ks, e)) == Failure(v.KindMismatch([Object]))
    ensures v.Kind() == Object ==>
      var rs := MemberResults(v.json, v.Members(), ks, e);
      && (FirstFailure(rs) < |rs| ==> Convert(v, MapT(ks, e)) == Failure(rs[FirstFailure(rs)].error))
      && (FirstFailure(rs) == |rs| ==> Convert(v, MapT(ks, e)) == Success(MapV(ToMap(Values(rs)))))
  {
    assert Convert(v, MapT(ks, e)) == ConvertMap(v, ks, e);
    if v.Kind() == Object {
      MembersConversion(v.json, v.Members(), ks, e);
    }
  }

  lemma MapHasType(pairs: seq<(Typed, Typed)>, ks: Scalar, e: Target)
    requires forall k | 0 <= k < |pairs| :: ScalarHasType(pairs[k].0, ks) && HasType(pairs[k].1, e)
    ensures HasType(MapV(ToMap(pairs)), MapT(ks, e))
  {
    MapFromPairs(pairs);
  }

  /** `()` accepts exactly the empty array. */
  lemma UnitConversion(v: RawJsonValue)
    requires v.Valid()
    ensures Convert(v, TupleT([])).Success? <==> v.Kind() == Array && v.ChildIndices() == []
    ensures Convert(v, TupleT([])).Success? ==> Convert(v, TupleT([])).value == ListV([])
    ensures v.Kind() == Array && v.ChildIndices() != [] ==>
      Convert(v, TupleT([])) == Failure(InvalidValue(Array, v.Position(), TooManyElements(0, |v.ChildIndices()|)))
  {
  }

  /** `Option<T>`: null is None whatever `T` is; any other value gives T's
      result, wrapped in Some, and T's error unchanged. */
  lemma OptionConversion(v: RawJsonValue, t: Target)
    requires v.Valid()
    ensures v.Kind() == Null ==> Convert(v, OptionT(t)) == Success(NoneV)
    ensures v.Kind() != Null ==> (Convert(v, OptionT(t)).Success? <==> Convert(v, t).Success?)
    ensures v.Kind() != Null && Convert(v, t).Success? ==> Convert(v, OptionT(t)) == Success(SomeV(Convert(v, t).value))
    ensures v.Kind() != Null && Convert(v, t).Failure? ==> Convert(v, OptionT(t)) == Failure(Convert(v, t).error)
  {
  }

  /** `bool` accepts only a boolean, and reads "true" as true. */
  lemma BoolConversion(v: RawJsonValue)
    requires v.Valid()
    ensures Convert(v, ScalarT(BoolS))
      == if v.Kind() != Bool then Failure(v.KindMismatch([Bool]))
         else Success(BoolV(v.AsRawStr() == [LOWER_T] + TRUE_SUFFIX))
  {
  }

  /** The integer and `NonZero` types accept only an integer token (a float
      is a kind error); the value must fit the type, an unsigned type
      rejects a minus sign, and a `NonZero` type rejects 0. Every error is
      at the number. */
  lemma IntegerConversion(v: RawJsonValue, ty: IntType, nonZero: bool)
    requires v.Valid()
    ensures v.Kind() != Integer ==> Convert(v, ScalarT(IntS(ty, nonZero))) == Failure(v.KindMismatch([Integer]))
    ensures v.Kind() == Integer ==>
      var c := IntegerCause(v.AsRawStr(), ty, nonZero);
      Convert(v, ScalarT(IntS(ty, nonZero)))
      == if c.Some? then Failure(InvalidValue(Integer, v.Position(), ParseInt(c.value)))
         else Success(IntV(TextValue(v.AsRawStr())))
  {
    if v.Kind() == Integer {
      IntegerFromStr(v.AsRawStr(), ty, nonZero);
    }
  }

  /** Why an integer token does not fit an integer type, if it does not:
      a minus sign for an unsigned type, a value above or below the range,
      or zero for a `NonZero` type. */
  function IntegerCause(s: seq<Byte>, ty: IntType, nonZero: bool): Option<IntErrorKind>
    requires IntegerText(s)
  {
    if !ty.Signed() && s[0] == MINUS then Some(InvalidDigit)
    else if TextValue(s) > ty.Max() then Some(PosOverflow)
    else if TextValue(s) < ty.Min() then Some(NegOverflow)
    else if nonZero && TextValue(s) == 0 then Some(Zero)
    else None
  }

  /** The parse of an integer token fails exactly for the cause above. */
  lemma IntegerFromStr(s: seq<Byte>, ty: IntType, nonZero: bool)
    requires IntegerText(s)
    ensures var c := IntegerCause(s, ty, nonZero);
      FromStr(s, IntS(ty, nonZero)) == if c.Some? then Failure(ParseInt(c.value)) else Success(IntV(TextValue(s)))
  {
    IntegerTextFromStr(s, ty);
  }

  /** `String` accepts only a string, and gives its unescaped text. */
  lemma StringConversion(v: RawJsonValue)
    requires v.Valid()
    ensures Convert(v, ScalarT(StringS))
      == if v.Kind() != String then Failure(v.KindMismatch([String]))
         else Success(StrV(Unescape(v.Content())))
  {
  }
}
