/** UTF-8 (RFC 3629, section 3): the bytes Rust stores for a `char` and a
    `str`. Dafny's `char` is a Unicode scalar value, like Rust's. */
module Utf8 {
  import opened Bytes

  /** The one to four bytes of the scalar value `v`. */
  function EncodeScalar(v: nat): (r: seq<Byte>)
    requires v < 0x11_0000
    ensures 1 <= |r| <= 4
    ensures v < 0x80 <==> |r| == 1
    ensures |r| == 1 ==> r[0] == v
    ensures |r| > 1 ==> forall k | 0 <= k < |r| :: r[k] >= 0x80
  {
    if v < 0x80 then [v]
    else if v < 0x800 then [0xC0 + v / 0x40, 0x80 + v % 0x40]
    else if v < 0x1_0000 then [0xE0 + v / 0x1000, 0x80 + v / 0x40 % 0x40, 0x80 + v % 0x40]
    else [0xF0 + v / 0x4_0000, 0x80 + v / 0x1000 % 0x40, 0x80 + v / 0x40 % 0x40, 0x80 + v % 0x40]
  }

  /** The bytes of a string, character by character. */
  function Encode(s: string): (r: seq<Byte>)
    ensures |r| >= |s|
  {
    if s == [] then [] else EncodeScalar(s[0] as int) + Encode(s[1..])
  }

  lemma {:induction false} EncodeAppend(a: string, b: string)
    ensures Encode(a + b) == Encode(a) + Encode(b)
  {
    if a == [] {
      assert a + b == b;
    } else {
      assert (a + b)[1..] == a[1..] + b;
      EncodeAppend(a[1..], b);
    }
  }
}
