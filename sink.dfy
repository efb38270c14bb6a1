/** The output of the writers: Rust's `std::fmt::Formatter` (src/fmt.rs,
    src/format.rs) and the `W: std::fmt::Write` of src/formatter.rs. What
    makes a write fail is not part of the library; here the sink holds at
    most `capacity` bytes and a write that would overflow it fails and
    writes nothing. */
module Sinks {
  import opened Bytes

  /** After writing `r` onto `before` the sink holds `after`: all of `r`
      when `ok`, otherwise a prefix of it that the capacity could not take
      in full. */
  predicate Appended(before: seq<Byte>, after: seq<Byte>, r: seq<Byte>, ok: bool, capacity: nat) {
    |before| <= |after| <= capacity && after <= before + r
    && (ok ==> after == before + r)
    && (!ok ==> |before + r| > capacity)
  }

  /** A write reports success exactly when the whole text fits. */
  lemma AppendedOk(before: seq<Byte>, after: seq<Byte>, r: seq<Byte>, ok: bool, capacity: nat)
    requires Appended(before, after, r, ok, capacity)
    ensures ok <==> |before| + |r| <= capacity
    ensures ok <==> after == before + r
  {
  }

  /** A successful write followed by another is one write of both texts. */
  lemma AppendedThen(a: seq<Byte>, b: seq<Byte>, c: seq<Byte>, r1: seq<Byte>, r2: seq<Byte>, ok: bool, capacity: nat)
    requires Appended(a, b, r1, true, capacity) && Appended(b, c, r2, ok, capacity)
    ensures Appended(a, c, r1 + r2, ok, capacity)
  {
    assert a + r1 + r2 == a + (r1 + r2);
  }

  /** A failed write stays failed whatever was meant to follow it. */
  lemma AppendedFailed(a: seq<Byte>, b: seq<Byte>, r1: seq<Byte>, r2: seq<Byte>, capacity: nat)
    requires Appended(a, b, r1, false, capacity)
    ensures Appended(a, b, r1 + r2, false, capacity)
  {
    assert a + r1 <= a + (r1 + r2);
  }

  /** A failed write of `r` is a failed write of anything `r` begins. */
  lemma AppendedLonger(before: seq<Byte>, after: seq<Byte>, r: seq<Byte>, r2: seq<Byte>, capacity: nat)
    requires Appended(before, after, r, false, capacity) && r <= r2
    ensures Appended(before, after, r2, false, capacity)
  {
    assert before + r <= before + r2;
  }

  class Sink {
    var out: seq<Byte>
    const capacity: nat

    ghost predicate Valid()
      reads this
    {
      |out| <= capacity
    }

    constructor (capacity: nat)
      ensures Valid() && out == [] && this.capacity == capacity
    {
      out := [];
      this.capacity := capacity;
    }

    /** `write_str`: all of `bs`, or nothing and an error. */
    method Write(bs: seq<Byte>) returns (ok: bool)
      requires Valid()
      modifies this
      ensures Valid()
      ensures ok <==> |old(out)| + |bs| <= capacity
      ensures out == if ok then old(out) + bs else old(out)
      ensures Appended(old(out), out, bs, ok, capacity)
    {
      if |out| + |bs| <= capacity {
        out := out + bs;
        return true;
      }
      return false;
    }
  }
}
