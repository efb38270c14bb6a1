/** Decimal integer text: the value a run of digits denotes, and what Rust's
    `Display` prints for an integer (`write!(f, "{self}")`, which the
    integer impls of src/fmt.rs use). */
module Decimal {
  import opened Bytes
  import opened Grammar

  /** The value of a run of decimal digits, most significant first. */
  function DigitsValue(ds: seq<Byte>): nat
    requires AllDigits(ds)
  {
    if ds == [] then 0 else 10 * DigitsValue(ds[..|ds| - 1]) + (ds[|ds| - 1] - ZERO)
  }

  /** The value of an integer token: an optional minus, then digits. */
  function TextValue(s: seq<Byte>): int
    requires IntegerText(s)
  {
    assert NumberSplit(s, |s|, |s|);
    assert s[SignLength(s)..|s|] == if s[0] == MINUS then s[1..] else s;
    if s[0] == MINUS then -(DigitsValue(s[1..]) as int) else DigitsValue(s)
  }

  /** The digits of `n`, most significant first, without leading zeros. */
  function Digits(n: nat): (r: seq<Byte>)
    ensures |r| > 0 && AllDigits(r)
    ensures r[0] == ZERO <==> n == 0
    ensures |r| == 1 <==> n < 10
  {
    if n < 10 then [ZERO + n] else Digits(n / 10) + [ZERO + n % 10]
  }

  /** `Display` of an integer: a minus sign for a negative one, then the
      digits of its magnitude. */
  function Render(n: int): (r: seq<Byte>)
    ensures |r| > 0 && (r[0] == MINUS <==> n < 0)
    ensures n < 0 ==> AllDigits(r[1..]) && |r| >= 2
    ensures n >= 0 ==> AllDigits(r)
  {
    if n < 0 then [MINUS] + Digits(-n) else Digits(n)
  }

  lemma {:induction false} DigitsValueOfDigits(n: nat)
    ensures DigitsValue(Digits(n)) == n
  {
    if n >= 10 {
      var r := Digits(n);
      assert r[..|r| - 1] == Digits(n / 10);
      DigitsValueOfDigits(n / 10);
    }
  }

  /** What `Display` prints for an integer is an integer token of the JSON
      grammar, and it denotes that integer. */
  lemma RenderIsIntegerText(n: int)
    ensures IntegerText(Render(n)) && TextValue(Render(n)) == n
  {
    var r := Render(n);
    if n < 0 {
      assert r[1..] == Digits(-n);
      assert r[SignLength(r)..|r|] == Digits(-n);
      DigitsValueOfDigits(-n);
    } else {
      assert r[SignLength(r)..|r|] == Digits(n);
      DigitsValueOfDigits(n);
    }
  }
}
