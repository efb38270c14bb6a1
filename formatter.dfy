/** The writer-based formatter of src/formatter.rs: `JsonFormatter` over a
    `std::fmt::Write`, and its array writer. Only `bool` and `usize`
    implement its `JsonDisplay`, and both are written with `Display`. */
module Formatter {
  import opened Bytes
  import opened Sinks
  import opened Seqs
  import Decimal
  import Fmt

  type Usize = n: nat | n < 0x1_0000_0000_0000_0000

  /** A value of a `JsonDisplay` type. */
  datatype Display = Bool(b: bool) | Size(n: Usize)

  /** `{value}`: what `Display` writes. */
  function Text(d: Display): (r: seq<Byte>)
    ensures r == Fmt.Render(AsValue(d))
  {
    match d
    case Bool(b) => if b then Fmt.TRUE else Fmt.FALSE
    case Size(n) => Decimal.Render(n)
  }

  function Texts(ds: seq<Display>): (r: seq<seq<Byte>>)
    ensures |r| == |ds| && forall k | 0 <= k < |ds| :: r[k] == Text(ds[k])
  {
    seq(|ds|, k requires 0 <= k < |ds| => Text(ds[k]))
  }

  /** What the array writer has written once `ds` are in. */
  function ArrayText(ds: seq<Display>): seq<Byte>
  {
    [LBRACKET] + Fmt.Join(Texts(ds))
  }

  lemma ArrayTextSnoc(ds: seq<Display>, d: Display)
    ensures ArrayText(ds + [d]) == ArrayText(ds) + (Fmt.Sep(|ds|) + Text(d))
  {
    assert Texts(ds + [d]) == Texts(ds) + [Text(d)];
    Fmt.JoinSnoc(Texts(ds), Text(d));
    Assoc([LBRACKET], Fmt.Join(Texts(ds)), Fmt.Sep(|ds|) + Text(d));
  }

  /** The value `DisplayJson` would write for the same Rust value. */
  function AsValue(d: Display): Fmt.Value
  {
    match d
    case Bool(b) => Fmt.BoolV(b)
    case Size(n) => Fmt.IntV(n)
  }

  /** Both generations of the serialiser write the same text for a
      sequence of booleans or `usize`s. */
  lemma SameAsFmt(ds: seq<Display>)
    ensures ArrayText(ds) + [RBRACKET] == Fmt.Render(Fmt.ArrayV(seq(|ds|, k requires 0 <= k < |ds| => AsValue(ds[k]))))
  {
    var vs := seq(|ds|, k requires 0 <= k < |ds| => AsValue(ds[k]));
    assert Fmt.RenderAll(vs) == Texts(ds);
  }

  /** `JsonFormatter`: it owns the writer. */
  class JsonFormatter {
    const writer: Sink

    constructor (writer: Sink)
      ensures this.writer == writer
    {
      this.writer := writer;
    }

    /** `array`: an array writer that has written `[`. */
    method Array() returns (a: ArrayFormatter)
      requires writer.Valid()
      modifies writer
      ensures fresh(a) && a.Valid() && a.fmt == this && a.start == old(writer.out) && a.values == [] && a.first
      ensures a.error <==> |old(writer.out)| + 1 > writer.capacity
    {
      a := new ArrayFormatter(this);
    }
  }

  /** `JsonArrayFormatter`: `[`, each value with a comma before all but the
      first, `]`; once a write fails, `value` writes nothing. */
  class ArrayFormatter {
    const fmt: JsonFormatter
    var error: bool
    var first: bool
    ghost const start: seq<Byte>
    /** The values written so far, the one whose write failed included. */
    ghost var values: seq<Display>

    ghost predicate Valid()
      reads this, fmt, fmt.writer
    {
      fmt.writer.Valid() && (first <==> values == [])
      && Appended(start, fmt.writer.out, ArrayText(values), !error, fmt.writer.capacity)
    }

    /** `new`: `write_char('[')`, recording a failure. */
    constructor (fmt: JsonFormatter)
      requires fmt.writer.Valid()
      modifies fmt.writer
      ensures Valid() && this.fmt == fmt && start == old(fmt.writer.out) && values == [] && first
      ensures error <==> |old(fmt.writer.out)| + 1 > fmt.writer.capacity
    {
      ghost var before := fmt.writer.out;
      var ok := fmt.writer.Write([LBRACKET]);
      this.fmt := fmt;
      start := before;
      error := !ok;
      first := true;
      values := [];
      assert ArrayText([]) == [LBRACKET];
    }

    /** `value`: nothing once an error is set; the first value alone;
        every later one as `,{value}`. */
    method Value(d: Display)
      requires Valid()
      modifies this, fmt.writer
      ensures Valid() && (if old(error) then first == old(first) else !first)
      ensures old(error) ==> error && values == old(values) && fmt.writer.out == old(fmt.writer.out)
      ensures !old(error) ==> values == old(values) + [d]
      ensures !old(error) ==> Appended(old(fmt.writer.out), fmt.writer.out, Fmt.Sep(|old(values)|) + Text(d), !error, fmt.writer.capacity)
    {
      var w := fmt.writer;
      ghost var before := w.out;
      if error {
      } else if first {
        first := false;
        var ok := w.Write(Text(d));
        ArrayTextSnoc(values, d);
        EmptyAppend(Fmt.Sep(0), Text(d));
        AppendedThen(start, before, w.out, ArrayText(values), Text(d), ok, w.capacity);
        error := !ok;
        values := values + [d];
      } else {
        ArrayTextSnoc(values, d);
        var ok := w.Write([COMMA]);
        if ok {
          ghost var mid := w.out;
          ok := w.Write(Text(d));
          AppendedThen(before, mid, w.out, [COMMA], Text(d), ok, w.capacity);
        } else {
          AppendedFailed(before, w.out, [COMMA], Text(d), w.capacity);
        }
        AppendedThen(start, before, w.out, ArrayText(values), [COMMA] + Text(d), ok, w.capacity);
        error := !ok;
        values := values + [d];
      }
    }

    /** `values`: `value` on each item in order; after an error the rest
        are passed over without writing. */
    method Values(ds: seq<Display>)
      requires Valid()
      modifies this, fmt.writer
      ensures Valid()
      ensures old(error) ==> error && values == old(values) && fmt.writer.out == old(fmt.writer.out)
      ensures !old(error) ==> old(values) <= values <= old(values) + ds
      ensures !error ==> values == old(values) + ds
    {
      ghost var values0 := values;
      ghost var wrote := 0;
      for i := 0 to |ds|
        invariant Valid() && wrote <= i
        invariant old(error) ==> error && values == values0 && fmt.writer.out == old(fmt.writer.out)
        invariant !old(error) ==> values == values0 + ds[..wrote]
        invariant !error ==> wrote == i
      {
        var failed := error;
        Value(ds[i]);
        if !failed {
          AppendTake(values0, ds, i);
          wrote := i + 1;
        }
      }
      AppendAll(values0, ds);
      if !old(error) {
        PrefixTake(values0, ds, wrote);
      }
    }

    /** `finish`: the stored error, leaving `]` unwritten, or else the
        result of `write_char(']')`. */
    method Finish() returns (ok: bool)
      requires Valid()
      modifies fmt.writer
      ensures fmt.writer.Valid()
      ensures error ==> !ok && fmt.writer.out == old(fmt.writer.out)
      ensures Appended(start, fmt.writer.out, ArrayText(values) + [RBRACKET], ok, fmt.writer.capacity)
    {
      var w := fmt.writer;
      if error {
        AppendedFailed(start, w.out, ArrayText(values), [RBRACKET], w.capacity);
        return false;
      }
      ghost var before := w.out;
      ok := w.Write([RBRACKET]);
      AppendedThen(start, before, w.out, ArrayText(values), [RBRACKET], ok, w.capacity);
    }
  }
}
