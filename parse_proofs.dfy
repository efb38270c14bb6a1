/** Properties of the parse of src/parse.rs: every successful parse yields a
    well-formed index (`Table.WellFormed`), each entry's range holding a
    token of its kind: literals and numbers as RFC 8259 defines them, and
    strings by the parser's string grammar `Grammar.StringContent`. */
module ParseProofs {
  import opened Wrappers
  import opened Bytes
  import opened Kind
  import opened ParseError
  import opened Grammar
  import opened Table
  import opened ParseSpec

  /* ---------------------------------------------------------------------
     Shapes of partial indexes
     --------------------------------------------------------------------- */

  /** Entries `n..` of `v` are the entries of one value: a subtree rooted at
      `n` whose ranges all lie within `lo..hi`. */
  ghost predicate ValueTree(text: seq<Byte>, v: seq<JsonValueIndexEntry>, n: nat, lo: nat, hi: nat) {
    n < |v| && v[n].endIndex == |v| && Segment(text, v, n, |v|) && Within(v, n, |v|, lo, hi)
  }

  function OpenByte(k: JsonValueKind): Byte {
    if k == Array then LBRACKET else LBRACE
  }

  function CloseByte(k: JsonValueKind): Byte {
    if k == Array then RBRACKET else RBRACE
  }

  /** Inside a container of kind `k` whose placeholder is entry `index`:
      the elements parsed so far are whole subtrees lying after the opening
      bracket and up to `hi`; an object's members pair up to entry `m`. */
  ghost predicate Open(text: seq<Byte>, v: seq<JsonValueIndexEntry>, index: nat, k: JsonValueKind, m: nat, hi: nat) {
    index < |v| && IsComposite(k) && v[index].kind == k
    && v[index].text.start < |text| && text[v[index].text.start] == OpenByte(k)
    && Segment(text, v, index + 1, |v|) && Within(v, index + 1, |v|, v[index].text.start + 1, hi)
    && (k == Object ==> Pairs(v, index + 1, m))
  }

  /* ---------------------------------------------------------------------
     Framing and composition
     --------------------------------------------------------------------- */

  /** Pairing only reads the entries it spans. */
  lemma {:induction false} PairsFrame(v: seq<JsonValueIndexEntry>, w: seq<JsonValueIndexEntry>, c: nat, e: nat, a: nat, b: nat)
    requires a <= c <= e <= b <= |v| && b <= |w| && v[a..b] == w[a..b]
    requires Pairs(v, c, e)
    ensures Pairs(w, c, e)
    decreases e - c
  {
    if c < e {
      assert v[c] == v[a..b][c - a] == w[c];
      assert v[c + 1] == v[a..b][c + 1 - a] == w[c + 1];
      PairsFrame(v, w, v[c + 1].endIndex, e, a, b);
    }
  }

  /** A segment only reads its own entries. */
  lemma SegmentFrame(text: seq<Byte>, v: seq<JsonValueIndexEntry>, w: seq<JsonValueIndexEntry>, a: nat, b: nat)
    requires b <= |v| && b <= |w| && a <= b && v[a..b] == w[a..b]
    requires Segment(text, v, a, b)
    ensures Segment(text, w, a, b)
  {
    forall i | a <= i < b
      ensures w[i] == v[i]
    {
      assert v[i] == v[a..b][i - a];
      assert w[i] == w[a..b][i - a];
    }
    forall i | a <= i < b
      ensures EntryOk(text, w, b, i)
    {
      assert EntryOk(text, v, b, i);
      if v[i].kind == Object {
        PairsFrame(v, w, i + 1, v[i].endIndex, a, b);
      }
    }
    forall i, j | a <= i < j < b
      ensures Laminar(w, i, j)
    {
      assert Laminar(v, i, j);
    }
  }

  /** Two adjacent segments, the first ending before the second starts in
      the text, make one. */
  lemma SegmentJoin(text: seq<Byte>, v: seq<JsonValueIndexEntry>, a: nat, b: nat, c: nat, lo1: nat, hi: nat, lo: nat, hi2: nat)
    requires Segment(text, v, a, b) && Segment(text, v, b, c)
    requires Within(v, a, b, lo1, hi) && Within(v, b, c, lo, hi2) && hi < lo
    ensures Segment(text, v, a, c)
  {
    forall i | a <= i < c
      ensures EntryOk(text, v, c, i)
    {
      if i < b {
        assert EntryOk(text, v, b, i);
      } else {
        assert EntryOk(text, v, c, i);
      }
    }
    forall i, j | a <= i < j < c
      ensures Laminar(v, i, j)
    {
      if j < b || b <= i {
      } else {
        assert EntryOk(text, v, b, i);
      }
    }
  }

  /** A key followed by one value extends the pairing. */
  lemma {:induction false} PairsAppend(v: seq<JsonValueIndexEntry>, c: nat, e: nat, m: nat)
    requires Pairs(v, c, e) && e + 1 < m <= |v|
    requires v[e].kind == String && v[e].endIndex == e + 1 && v[e + 1].endIndex == m
    ensures Pairs(v, c, m)
    decreases e - c
  {
    if c < e {
      PairsAppend(v, v[c + 1].endIndex, e, m);
    }
  }

  /** One entry without children is a value on its own. */
  lemma LeafTree(text: seq<Byte>, v: seq<JsonValueIndexEntry>, n: nat)
    requires n + 1 == |v| && v[n].endIndex == n + 1 && v[n].kind != Object
    requires v[n].text.start < v[n].text.end <= |text| && TokenOk(text, v[n])
    ensures ValueTree(text, v, n, v[n].text.start, v[n].text.end)
  {
    assert EntryOk(text, v, n + 1, n);
  }

  /** The elements of a container grow by one value, which starts after
      the last element ended. */
  lemma OpenExtend(text: seq<Byte>, v: seq<JsonValueIndexEntry>, w: seq<JsonValueIndexEntry>,
                   index: nat, k: JsonValueKind, m: nat, hi: nat, lo: nat, hi': nat)
    requires Open(text, v, index, k, m, hi) && m <= |v| && v[index].text.start <= hi
    requires |v| < |w| && w[..|v|] == v && ValueTree(text, w, |v|, lo, hi') && hi < lo
    ensures Open(text, w, index, k, m, hi')
  {
    assert w[index] == v[index];
    assert EntryOk(text, w, |w|, |v|);
    assert v[index + 1..|v|] == w[index + 1..|v|];
    SegmentFrame(text, v, w, index + 1, |v|);
    assert Within(w, index + 1, |v|, w[index].text.start + 1, hi) by {
      forall i | index + 1 <= i < |v| ensures w[i] == v[i] {
        assert w[i] == w[..|v|][i];
      }
    }
    if index + 1 < |v| {
      SegmentJoin(text, w, index + 1, |v|, |w|, w[index].text.start + 1, hi, lo, hi');
    }
    if k == Object {
      PairsFrame(v, w, index + 1, m, index + 1, |v|);
    }
  }

  /** A value after a pending key completes an object member. */
  lemma OpenAddMember(text: seq<Byte>, v: seq<JsonValueIndexEntry>, w: seq<JsonValueIndexEntry>,
                      index: nat, hi: nat, lo: nat, hi': nat)
    requires index + 2 <= |v| && Open(text, v, index, Object, |v| - 1, hi) && v[index].text.start <= hi
    requires v[|v| - 1].kind == String && v[|v| - 1].endIndex == |v|
    requires |v| < |w| && w[..|v|] == v && ValueTree(text, w, |v|, lo, hi') && hi < lo
    ensures Open(text, w, index, Object, |w|, hi')
  {
    OpenExtend(text, v, w, index, Object, |v| - 1, hi, lo, hi');
    assert w[|v| - 1] == v[|v| - 1];
    PairsAppend(w, index + 1, |v| - 1, |w|);
  }

  /** The elements of a container may end anywhere up to a later bound. */
  lemma OpenWiden(text: seq<Byte>, v: seq<JsonValueIndexEntry>, index: nat, k: JsonValueKind, m: nat, hi: nat, hi': nat)
    requires Open(text, v, index, k, m, hi) && hi <= hi'
    ensures Open(text, v, index, k, m, hi')
  {
  }

  /** `finalize_entry` after the closing bracket turns the placeholder and
      the elements into one value. */
  lemma FinalizeClose(text: seq<Byte>, st: PState, index: nat, k: JsonValueKind)
    requires index < |st.values| && st.values[index].text.start < st.pos <= |text|
    requires Open(text, st.values, index, k, |st.values|, st.pos - 1) && text[st.pos - 1] == CloseByte(k)
    ensures ValueTree(text, FinalizeEntry(st, index).values, index, st.values[index].text.start, st.pos)
  {
    var v, pos := st.values, st.pos;
    var e := v[index];
    var w := FinalizeEntry(st, index).values;
    assert w == v[index := e.(text := e.text.(end := pos), endIndex := |v|)];
    assert v[index + 1..|v|] == w[index + 1..|v|];
    SegmentFrame(text, v, w, index + 1, |v|);
    forall i | index + 1 <= i < |v|
      ensures w[i] == v[i]
    {
    }
    if k == Object {
      PairsFrame(v, w, index + 1, |v|, index + 1, |v|);
    }
    var t := text[e.text.start..pos];
    assert t[0] == OpenByte(k) && t[|t| - 1] == CloseByte(k);
    assert TokenOk(text, w[index]);
    assert EntryOk(text, w, |w|, index);
    forall i, j | index <= i < j < |w|
      ensures Laminar(w, i, j)
    {
      if i > index {
        assert Laminar(v, i, j);
      } else {
        assert EntryOk(text, w, |w|, j);
      }
    }
  }

  /* ---------------------------------------------------------------------
     Tokens
     --------------------------------------------------------------------- */

  /** A slice of a slice of the text is a slice of the text. */
  lemma SubSlice(text: seq<Byte>, p: nat, e: nat, a: nat, b: nat)
    requires p <= e <= |text| && a <= b <= e - p
    ensures text[p..e][a..b] == text[p + a..p + b]
  {
    assert forall k | 0 <= k < b - a :: text[p..e][a..b][k] == text[p + a + k];
  }

  /** A literal is pushed as one entry spanning its first byte and the
      whole suffix. */
  lemma LiteralToken(text: seq<Byte>, st: PState, k: JsonValueKind, suffix: seq<Byte>)
    requires st.pos < |text| && ParseLiteral(text, st, k, suffix).Success?
    ensures var r := ParseLiteral(text, st, k, suffix).value;
      r.values == st.values + [JsonValueIndexEntry(k, false, Range(st.pos, r.pos), |st.values| + 1)]
      && text[st.pos..r.pos] == [text[st.pos]] + suffix
  {
    var r := ParseLiteral(text, st, k, suffix).value;
    assert text[st.pos..r.pos] == [text[st.pos]] + text[st.pos + 1..r.pos];
  }

  /** A literal that does not match is reported at its first differing
      byte, or as an unexpected end when the text stops first. */
  lemma LiteralMismatch(text: seq<Byte>, st: PState, k: JsonValueKind, suffix: seq<Byte>)
    requires st.pos < |text| && ParseLiteral(text, st, k, suffix).Failure?
    ensures var e := ParseLiteral(text, st, k, suffix).error;
      (e == UnexpectedEos(Some(k), |text|) && |text| < st.pos + 1 + |suffix|
        && text[st.pos + 1..] == suffix[..|text| - st.pos - 1])
      || (exists i | 0 <= i < |suffix| ::
            e == UnexpectedValueChar(Some(k), st.pos + 1 + i) && st.pos + 1 + i < |text|
            && text[st.pos + 1 + i] != suffix[i] && text[st.pos + 1..st.pos + 1 + i] == suffix[..i])
  {
    var s := st.pos + 1;
    match FirstMismatch(text, s, suffix, 0)
    case Some(i) =>
      assert text[s..s + i] == suffix[..i];
    case None =>
      assert text[s..] == suffix[..|text| - s];
  }

  /** `[ minus ] int` of `parse_number` stops after an RFC 8259 `int`. */
  lemma NumberIntToken(text: seq<Byte>, p: nat)
    requires p < |text| && NumberInt(text, p).Success?
    ensures var i := NumberInt(text, p).value;
      var sign := if text[p] == MINUS then 1 else 0;
      p + sign <= i && IntPart(text[p + sign..i])
  {
    var s := if text[p] == MINUS then p + 1 else p;
    if !(s < |text| && text[s] == ZERO) {
      StrippedDigits(text, Some(Integer), s);
    }
  }

  /** `[ frac ]` of `parse_number` consumes nothing or an RFC 8259 `frac`. */
  lemma NumberFracToken(text: seq<Byte>, s: nat)
    requires s <= |text| && NumberFrac(text, s).Success?
    ensures var f := NumberFrac(text, s).value.end;
      f == s || FracPart(text[s..f])
  {
    if s < |text| && text[s] == DOT {
      var f := NumberFrac(text, s).value.end;
      StrippedDigits(text, Some(Float), s + 1);
      assert text[s..f][1..] == text[s + 1..f];
    }
  }

  /** `[ exp ]` of `parse_number` consumes nothing or an RFC 8259 `exp`. */
  lemma NumberExpToken(text: seq<Byte>, scan: NumberScan)
    requires scan.end <= |text| && NumberExp(text, scan).Success?
    ensures var e := NumberExp(text, scan).value.end;
      e == scan.end || ExpPart(text[scan.end..e])
  {
    var s := scan.end;
    if s < |text| && (text[s] == LOWER_E || text[s] == UPPER_E) {
      var e := NumberExp(text, scan).value.end;
      var d := if s + 1 < |text| && (text[s + 1] == MINUS || text[s + 1] == PLUS) then s + 2 else s + 1;
      StrippedDigits(text, Some(Float), d);
      assert text[s..e][d - s..] == text[d..e];
    }
  }

  /** The three parts of a number, found at `p`, `i` and `f` of the text,
      split the token `p..e` as the grammar does. */
  lemma NumberSplitOf(text: seq<Byte>, p: nat, i: nat, f: nat, e: nat)
    requires p < i <= f <= e <= |text|
    requires var sign := if text[p] == MINUS then 1 else 0;
      p + sign <= i && IntPart(text[p + sign..i])
    requires f == i || FracPart(text[i..f])
    requires e == f || ExpPart(text[f..e])
    ensures NumberSplit(text[p..e], i - p, f - p)
  {
    var t := text[p..e];
    var sign := SignLength(t);
    assert t[0] == text[p];
    SubSlice(text, p, e, sign, i - p);
    SubSlice(text, p, e, i - p, f - p);
    SubSlice(text, p, e, f - p, e - p);
    assert t[f - p..] == t[f - p..e - p];
  }

  /** The three stages of `parse_number` from `p` scan an RFC 8259
      number, an Integer exactly when neither a fraction nor an exponent is
      present. */
  lemma NumberScanText(text: seq<Byte>, p: nat, i: nat, sc: NumberScan, x: NumberScan)
    requires p < |text| && NumberInt(text, p) == Success(i)
    requires i <= |text| && NumberFrac(text, i) == Success(sc)
    requires sc.end <= |text| && NumberExp(text, sc) == Success(x)
    ensures p < x.end <= |text|
    ensures (x.kind == Integer && IntegerText(text[p..x.end])) || (x.kind == Float && FloatText(text[p..x.end]))
  {
    NumberIntToken(text, p);
    NumberFracToken(text, i);
    NumberExpToken(text, sc);
    NumberSplitOf(text, p, i, sc.end, x.end);
    if x.kind == Integer {
      assert x == sc && sc.end == i;
    } else {
      assert i - p < x.end - p;
    }
  }

  /** `parse_number` pushes one Integer or Float entry whose text is an
      RFC 8259 number; it is an Integer exactly when neither a fraction nor
      an exponent is present. */
  lemma NumberToken(text: seq<Byte>, st: PState)
    requires st.pos < |text| && ParseNumber(text, st).Success?
    ensures var r := ParseNumber(text, st).value;
      var n := |st.values|;
      var t := text[st.pos..r.pos];
      |r.values| == n + 1 && r.values[..n] == st.values
      && r.values[n] == JsonValueIndexEntry(r.values[n].kind, false, Range(st.pos, r.pos), n + 1)
      && ((r.values[n].kind == Integer && IntegerText(t)) || (r.values[n].kind == Float && FloatText(t)))
  {
    var p := st.pos;
    var i := NumberInt(text, p).value;
    var sc := NumberFrac(text, i).value;
    var x := NumberExp(text, sc).value;
    assert ParseNumber(text, st) == Success(PushEntry(st.(kind := Some(x.kind)), x.end - p));
    NumberScanText(text, p, i, sc, x);
  }

  /** Bytes that stand for themselves form string content without a
      backslash. */
  lemma {:induction false} PlainContent(c: seq<Byte>)
    requires forall k | 0 <= k < |c| :: IsPlain(c[k])
    ensures StringContent(c) && BACKSLASH !in c
    decreases |c|
  {
    if c != [] {
      PlainContent(c[1..]);
    }
  }

  /** Plain bytes may precede any string content. */
  lemma {:induction false} PlainThenContent(p: seq<Byte>, c: seq<Byte>)
    requires forall k | 0 <= k < |p| :: IsPlain(p[k])
    requires StringContent(c)
    ensures StringContent(p + c)
    decreases |p|
  {
    if p == [] {
      assert p + c == c;
    } else {
      assert (p + c)[0] == p[0];
      assert (p + c)[1..] == p[1..] + c;
      PlainThenContent(p[1..], c);
    }
  }

  /** An accepted escape sequence is a backslash and either one of the
      simple escape letters or `u` and four bytes denoting a character. */
  lemma EscapeToken(text: seq<Byte>, q: nat)
    requires q <= |text| && Escape(text, Some(String), q).Success?
    ensures var q' := Escape(text, Some(String), q).value;
      q < |text| && text[q] == BACKSLASH
      && ((q' == q + 2 && IsSimpleEscape(text[q + 1]))
          || (q' == q + 6 && text[q + 1] == LOWER_U && Hex4Ok(text[q + 2..q + 6])))
  {
  }

  /** An accepted escape sequence followed by string content is string
      content. */
  lemma EscapeThenContent(text: seq<Byte>, q: nat, e: nat)
    requires q <= |text| && Escape(text, Some(String), q).Success?
    requires Escape(text, Some(String), q).value <= e <= |text|
    requires StringContent(text[Escape(text, Some(String), q).value..e])
    ensures StringContent(text[q..e])
  {
    var q' := Escape(text, Some(String), q).value;
    EscapeToken(text, q);
    var c := text[q..e];
    SubSlice(text, q, e, q' - q, e - q);
    assert c[q' - q..] == c[q' - q..e - q];
    if q' == q + 6 {
      SubSlice(text, q, e, 2, 6);
    }
  }

  /** The run of plain bytes `trim_start_matches` skips inside a string is
      string content without a backslash. */
  lemma PlainRun(text: seq<Byte>, s: nat)
    requires s <= |text|
    ensures var q := TrimStartMatches(text, s, Unescaped);
      (forall k | 0 <= k < q - s :: IsPlain(text[s..q][k]))
      && StringContent(text[s..q]) && BACKSLASH !in text[s..q]
  {
    var q := TrimStartMatches(text, s, Unescaped);
    TrimmedBytesMatch(text, s, Unescaped);
    assert forall k | 0 <= k < q - s :: text[s..q][k] == text[s + k];
    PlainContent(text[s..q]);
  }

  /** Plain bytes, then content starting with a backslash. */
  lemma PlainThenEscape(text: seq<Byte>, s: nat, q: nat, e: nat)
    requires s <= q < e <= |text| && text[q] == BACKSLASH
    requires forall k | 0 <= k < q - s :: IsPlain(text[s..q][k])
    requires StringContent(text[q..e])
    ensures StringContent(text[s..e]) && BACKSLASH in text[s..e]
  {
    PlainThenContent(text[s..q], text[q..e]);
    assert text[s..e] == text[s..q] + text[q..e];
    assert text[s..e][q - s] == BACKSLASH;
  }

  /** The loop of `parse_string` accepts only content of the string
      grammar `Grammar.StringContent`,
      and the flag it returns says whether a backslash occurred. */
  lemma {:induction false} StringEndContent(text: seq<Byte>, s: nat, escaped: bool)
    requires s <= |text| && StringEnd(text, s, escaped).Success?
    ensures var r := StringEnd(text, s, escaped).value;
      StringContent(text[s..r.0]) && (r.1 <==> escaped || BACKSLASH in text[s..r.0])
    decreases |text| - s
  {
    var q := TrimStartMatches(text, s, Unescaped);
    PlainRun(text, s);
    if !(q < |text| && text[q] == QUOTE) {
      var q' := Escape(text, Some(String), q).value;
      var e := StringEnd(text, q', true).value.0;
      assert StringEnd(text, s, escaped) == StringEnd(text, q', true);
      StringEndContent(text, q', true);
      EscapeThenContent(text, q, e);
      EscapeToken(text, q);
      PlainThenEscape(text, s, q, e);
    }
  }

  /** In string content closed by a quote at `q`, the plain run from `s`
      stops at or before that quote, and what is left before it is still
      content. */
  lemma {:induction false} ContentRun(text: seq<Byte>, s: nat, q: nat)
    requires s <= q < |text| && text[q] == QUOTE && StringContent(text[s..q])
    ensures var t := TrimStartMatches(text, s, Unescaped);
      t <= q && StringContent(text[t..q])
    decreases q - s
  {
    if s < q && IsPlain(text[s]) {
      assert text[s..q][0] == text[s];
      assert text[s..q][1..] == text[s + 1..q];
      ContentRun(text, s + 1, q);
    }
  }

  /** Content that starts with a byte that is not plain starts with an
      escape the loop accepts, and the rest up to the quote is content. */
  lemma ContentEscape(text: seq<Byte>, t: nat, q: nat)
    requires t < q < |text| && StringContent(text[t..q]) && !IsPlain(text[t])
    ensures text[t] == BACKSLASH && Escape(text, Some(String), t).Success?
    ensures var e := Escape(text, Some(String), t).value;
      e <= q && StringContent(text[e..q])
  {
    var c := text[t..q];
    assert c[0] == text[t];
    if IsSimpleEscape(c[1]) {
      assert c[2..] == text[t + 2..q];
      assert Escape(text, Some(String), t) == Success(t + 2);
    } else {
      SubSlice(text, t, q, 2, 6);
      assert c[6..] == text[t + 6..q];
      assert Escape(text, Some(String), t) == Success(t + 6);
    }
  }

  /** Conversely, the loop of `parse_string` accepts all content of the
      string grammar `Grammar.StringContent` followed by a quote: it stops at that quote, with the flag
      set exactly when a backslash occurred. */
  lemma {:induction false} ContentAccepted(text: seq<Byte>, s: nat, q: nat, escaped: bool)
    requires s <= q < |text| && text[q] == QUOTE && StringContent(text[s..q])
    ensures StringEnd(text, s, escaped) == Success((q, escaped || BACKSLASH in text[s..q]))
    decreases q - s
  {
    var t := TrimStartMatches(text, s, Unescaped);
    ContentRun(text, s, q);
    PlainRun(text, s);
    if t < q {
      ContentEscape(text, t, q);
      var e := Escape(text, Some(String), t).value;
      assert StringEnd(text, s, escaped) == StringEnd(text, e, true);
      ContentAccepted(text, e, q, true);
      assert text[s..q][t - s] == BACKSLASH;
    }
  }

  /** `parse_string` pushes one String entry whose text is a string of the
      parser's string grammar `Grammar.StringText`, flagged `escaped` exactly when its content has a backslash. */
  lemma StringToken(text: seq<Byte>, st: PState)
    requires st.pos < |text| && text[st.pos] == QUOTE && ParseString(text, st, st.pos + 1).Success?
    ensures var r := ParseString(text, st, st.pos + 1).value;
      var n := |st.values|;
      var t := text[st.pos..r.pos];
      r.values == st.values + [JsonValueIndexEntry(String, r.values[n].escaped, Range(st.pos, r.pos), n + 1)]
      && StringText(t) && (r.values[n].escaped <==> BACKSLASH in t[1..|t| - 1])
  {
    var r := ParseString(text, st, st.pos + 1).value;
    StringEndContent(text, st.pos + 1, false);
    var t := text[st.pos..r.pos];
    SubSlice(text, st.pos, r.pos, 1, |t| - 1);
  }

  /* ---------------------------------------------------------------------
     The index is well formed
     --------------------------------------------------------------------- */

  /** A literal is a value of one entry. */
  lemma LiteralTree(text: seq<Byte>, st: PState, k: JsonValueKind, suffix: seq<Byte>)
    requires st.pos < |text| && ParseLiteral(text, st, k, suffix).Success?
    requires (k == Null && text[st.pos] == LOWER_N && suffix == NULL_SUFFIX)
      || (k == Bool && text[st.pos] == LOWER_T && suffix == TRUE_SUFFIX)
      || (k == Bool && text[st.pos] == LOWER_F && suffix == FALSE_SUFFIX)
    ensures var r := ParseLiteral(text, st, k, suffix).value;
      ValueTree(text, r.values, |st.values|, st.pos, r.pos)
  {
    var r := ParseLiteral(text, st, k, suffix).value;
    LiteralToken(text, st, k, suffix);
    LeafTree(text, r.values, |st.values|);
  }

  /** A string is a value of one entry. */
  lemma StringTree(text: seq<Byte>, st: PState)
    requires st.pos < |text| && text[st.pos] == QUOTE && ParseString(text, st, st.pos + 1).Success?
    ensures var r := ParseString(text, st, st.pos + 1).value;
      ValueTree(text, r.values, |st.values|, st.pos, r.pos)
      && r.values[|st.values|].kind == String && |r.values| == |st.values| + 1
  {
    var r := ParseString(text, st, st.pos + 1).value;
    StringToken(text, st);
    LeafTree(text, r.values, |st.values|);
  }

  /** A number is a value of one entry. */
  lemma NumberTree(text: seq<Byte>, st: PState)
    requires st.pos < |text| && ParseNumber(text, st).Success?
    ensures var r := ParseNumber(text, st).value;
      ValueTree(text, r.values, |st.values|, st.pos, r.pos)
  {
    var r := ParseNumber(text, st).value;
    NumberToken(text, st);
    LeafTree(text, r.values, |st.values|);
  }

  /** `parse`: on success the index is one well-formed tree rooted at
      entry 0. */
  lemma ParseWellFormed(text: seq<Byte>, mode: Mode, comments: seq<Range>)
    requires Parse(text, mode, comments).Success?
    ensures WellFormed(text, Parse(text, mode, comments).value.0)
  {
    ValueWF(text, mode, PState(0, None, [], comments));
  }

  /** `parse_value` appends the entries of exactly one value, lying between
      the start position and the end position. */
  lemma ValueWF(text: seq<Byte>, mode: Mode, st: PState)
    requires st.pos <= |text| && ParseValue(text, mode, st).Success?
    ensures var r := ParseValue(text, mode, st).value;
      ValueTree(text, r.values, |st.values|, st.pos, r.pos)
    decreases |text| - st.pos, 4
  {
    var sk := SkipWsAndComments(text, mode, st, st.pos).value;
    ValueAtWF(text, mode, sk);
  }

  lemma ValueAtWF(text: seq<Byte>, mode: Mode, st: PState)
    requires st.pos <= |text| && ValueAt(text, mode, st).Success?
    ensures var r := ValueAt(text, mode, st).value;
      ValueTree(text, r.values, |st.values|, st.pos, r.pos)
    decreases |text| - st.pos, 3
  {
    var c := text[st.pos];
    if c == LOWER_N {
      assert ValueAt(text, mode, st) == ParseLiteral(text, st, Null, NULL_SUFFIX);
      LiteralTree(text, st, Null, NULL_SUFFIX);
    } else if c == LOWER_T {
      assert ValueAt(text, mode, st) == ParseLiteral(text, st, Bool, TRUE_SUFFIX);
      LiteralTree(text, st, Bool, TRUE_SUFFIX);
    } else if c == LOWER_F {
      assert ValueAt(text, mode, st) == ParseLiteral(text, st, Bool, FALSE_SUFFIX);
      LiteralTree(text, st, Bool, FALSE_SUFFIX);
    } else if c == QUOTE {
      assert ValueAt(text, mode, st) == ParseString(text, st, st.pos + 1);
      StringTree(text, st);
    } else if c == LBRACKET {
      assert ValueAt(text, mode, st) == ParseArray(text, mode, st);
      ArrayWF(text, mode, st);
    } else if c == LBRACE {
      assert ValueAt(text, mode, st) == ParseObject(text, mode, st);
      ObjectWF(text, mode, st);
    } else {
      assert ValueAt(text, mode, st) == ParseNumber(text, st);
      NumberTree(text, st);
    }
  }

  lemma ArrayWF(text: seq<Byte>, mode: Mode, st: PState)
    requires st.pos < |text| && text[st.pos] == LBRACKET && ParseArray(text, mode, st).Success?
    ensures var r := ParseArray(text, mode, st).value;
      ValueTree(text, r.values, |st.values|, st.pos, r.pos)
    decreases |text| - st.pos, 2
  {
    var sk := SkipWsAndComments(text, mode, st.(kind := Some(Array)), st.pos + 1).value;
    ArrayOpenedWF(text, mode, st.(kind := Some(Array), comments := sk.comments), sk.pos);
  }

  lemma ArrayOpenedWF(text: seq<Byte>, mode: Mode, st: PState, s: nat)
    requires st.pos < s <= |text| && st.kind == Some(Array) && text[st.pos] == LBRACKET
    requires ArrayOpened(text, mode, st, s).Success?
    ensures var r := ArrayOpened(text, mode, st, s).value;
      ValueTree(text, r.values, |st.values|, st.pos, r.pos)
    decreases |text| - st.pos, 1
  {
    var n := |st.values|;
    if s < |text| && text[s] == RBRACKET {
      var v := PushEntry(st, s + 1 - st.pos).values;
      var t := text[st.pos..s + 1];
      assert t[0] == LBRACKET && t[|t| - 1] == RBRACKET;
      LeafTree(text, v, n);
    } else {
      var st' := PushEntry(st, s - st.pos);
      assert Open(text, st'.values, n, Array, n + 1, s - 1);
      ArrayElementsWF(text, mode, st', n);
    }
  }

  lemma ArrayElementsWF(text: seq<Byte>, mode: Mode, st: PState, index: nat)
    requires st.pos <= |text| && index < |st.values| && st.values[index].text.start < st.pos
    requires Open(text, st.values, index, Array, |st.values|, st.pos - 1)
    requires ArrayElements(text, mode, st, index).Success?
    ensures var r := ArrayElements(text, mode, st, index).value;
      ValueTree(text, r.values, index, st.values[index].text.start, r.pos)
    decreases |text| - st.pos, 5
  {
    var st1 := ParseValue(text, mode, st).value;
    ValueWF(text, mode, st);
    assert st1.values[..|st.values|] == st.values;
    OpenExtend(text, st.values, st1.values, index, Array, |st.values|, st.pos - 1, st.pos, st1.pos);
    PrefixOfPrefix(st.values, st1.values, |st.values|, index);
    ArrayAfterElementWF(text, mode, st, st1.(kind := Some(Array)), index);
  }

  lemma ArrayAfterElementWF(text: seq<Byte>, mode: Mode, st0: PState, st: PState, index: nat)
    requires st0.pos < st.pos <= |text| && index < |st0.values| < |st.values| && st.kind == Some(Array)
    requires st.values[..index] == st0.values[..index] && st0.comments <= st.comments
    requires st.values[index].text.start < st.pos
    requires Open(text, st.values, index, Array, |st.values|, st.pos)
    requires ArrayAfterElement(text, mode, st0, st, index).Success?
    ensures var r := ArrayAfterElement(text, mode, st0, st, index).value;
      ValueTree(text, r.values, index, st.values[index].text.start, r.pos)
    decreases |text| - st.pos, 7
  {
    var sk := SkipWsAndComments(text, mode, st, st.pos).value;
    OpenWiden(text, st.values, index, Array, |st.values|, st.pos, sk.pos);
    ArrayNextWF(text, mode, st0, sk, index);
  }

  lemma ArrayNextWF(text: seq<Byte>, mode: Mode, st0: PState, st: PState, index: nat)
    requires st0.pos < st.pos <= |text| && index < |st0.values| < |st.values| && st.kind == Some(Array)
    requires st.values[..index] == st0.values[..index] && st0.comments <= st.comments
    requires st.values[index].text.start < st.pos
    requires Open(text, st.values, index, Array, |st.values|, st.pos)
    requires ArrayNext(text, mode, st0, st, index).Success?
    ensures var r := ArrayNext(text, mode, st0, st, index).value;
      ValueTree(text, r.values, index, st.values[index].text.start, r.pos)
    decreases |text| - st.pos, 6
  {
    if st.pos < |text| && text[st.pos] == RBRACKET {
      FinalizeClose(text, st.(pos := st.pos + 1), index, Array);
    } else {
      ArrayElementsWF(text, mode, st.(pos := st.pos + 1), index);
    }
  }

  lemma ObjectWF(text: seq<Byte>, mode: Mode, st: PState)
    requires st.pos < |text| && text[st.pos] == LBRACE && ParseObject(text, mode, st).Success?
    ensures var r := ParseObject(text, mode, st).value;
      ValueTree(text, r.values, |st.values|, st.pos, r.pos)
    decreases |text| - st.pos, 2
  {
    var sk := SkipWsAndComments(text, mode, st.(kind := Some(Object)), st.pos + 1).value;
    ObjectOpenedWF(text, mode, st.(kind := Some(Object), comments := sk.comments), sk.pos);
  }

  lemma ObjectOpenedWF(text: seq<Byte>, mode: Mode, st: PState, s: nat)
    requires st.pos < s <= |text| && st.kind == Some(Object) && text[st.pos] == LBRACE
    requires ObjectOpened(text, mode, st, s).Success?
    ensures var r := ObjectOpened(text, mode, st, s).value;
      ValueTree(text, r.values, |st.values|, st.pos, r.pos)
    decreases |text| - st.pos, 1
  {
    var n := |st.values|;
    if s < |text| && text[s] == RBRACE {
      var v := PushEntry(st, s + 1 - st.pos).values;
      var t := text[st.pos..s + 1];
      assert t[0] == LBRACE && t[|t| - 1] == RBRACE;
      assert Pairs(v, n + 1, n + 1);
      assert EntryOk(text, v, n + 1, n);
    } else {
      var st' := PushEntry(st, s - st.pos);
      assert Pairs(st'.values, n + 1, n + 1);
      assert Open(text, st'.values, n, Object, n + 1, s - 1);
      ObjectMembersWF(text, mode, st', n);
    }
  }

  /** One step of `ObjectMembers`: the key, then the rest of the round. */
  lemma ObjectMembersStep(text: seq<Byte>, mode: Mode, st: PState, index: nat)
    requires st.pos <= |text| && index < |st.values| && ObjectMembers(text, mode, st, index).Success?
    ensures st.pos < |text| && text[st.pos] == QUOTE && ParseString(text, st, st.pos + 1).Success?
    ensures var st1 := ParseString(text, st, st.pos + 1).value;
      st1.values[..index] == st.values[..index]
      && ObjectMembers(text, mode, st, index) == ObjectAfterKey(text, mode, st, st1.(kind := Some(Object)), index)
  {
    var s := StripChar(text, st.kind, st.pos, QUOTE);
    assert s.Success? && s.value == st.pos + 1;
    var r1 := ParseString(text, st, st.pos + 1);
    assert r1.Success?;
    PrefixOfPrefix(st.values, r1.value.values, |st.values|, index);
  }

  /** One step of `ObjectNext` on '}': the object closes. */
  lemma ObjectNextClose(text: seq<Byte>, mode: Mode, st0: PState, st: PState, index: nat)
    requires st0.pos < st.pos < |text| && index < |st0.values| < |st.values| && st.kind == Some(Object)
    requires st.values[..index] == st0.values[..index] && st0.comments <= st.comments
    requires text[st.pos] == RBRACE
    ensures ObjectNext(text, mode, st0, st, index) == Success(FinalizeEntry(st.(pos := st.pos + 1), index))
  {
  }

  /** One step of `ObjectNext` otherwise: ',' and blanks start the next member. */
  lemma ObjectNextComma(text: seq<Byte>, mode: Mode, st0: PState, st: PState, index: nat)
    requires st0.pos < st.pos <= |text| && index < |st0.values| < |st.values| && st.kind == Some(Object)
    requires st.values[..index] == st0.values[..index] && st0.comments <= st.comments
    requires !(st.pos < |text| && text[st.pos] == RBRACE)
    requires ObjectNext(text, mode, st0, st, index).Success?
    ensures st.pos < |text| && text[st.pos] == COMMA
    ensures SkipWsAndComments(text, mode, st, st.pos + 1).Success?
    ensures var sk := SkipWsAndComments(text, mode, st, st.pos + 1).value;
      sk.values == st.values && st.pos < sk.pos
      && ObjectNext(text, mode, st0, st, index) == ObjectMembers(text, mode, sk, index)
  {
    var s := StripChar(text, st.kind, st.pos, COMMA);
    assert s.Success?;
    var sk := SkipWsAndComments(text, mode, st, s.value);
    assert sk.Success?;
    assert ObjectNext(text, mode, st0, st, index) == ObjectMembers(text, mode, sk.value, index);
  }

  /** After the key of a member, the object is still open, with the key
      as its last entry. */
  lemma KeyOpen(text: seq<Byte>, v: seq<JsonValueIndexEntry>, r: PState, index: nat, hi: nat)
    requires Open(text, v, index, Object, |v|, hi) && v[index].text.start <= hi
    requires |r.values| == |v| + 1 && r.values[..|v|] == v && r.values[|v|].kind == String
    requires ValueTree(text, r.values, |v|, hi + 1, r.pos)
    ensures index + 2 <= |r.values| && r.values[index].text.start < r.pos
    ensures Open(text, r.values, index, Object, |r.values| - 1, r.pos)
    ensures r.values[|r.values| - 1].kind == String && r.values[|r.values| - 1].endIndex == |r.values|
  {
    OpenExtend(text, v, r.values, index, Object, |v|, hi, hi + 1, r.pos);
    assert r.values[index] == v[index];
    assert EntryOk(text, r.values, |r.values|, |v|);
    assert hi + 1 <= r.values[|v|].text.start;
  }

  lemma ObjectMembersWF(text: seq<Byte>, mode: Mode, st: PState, index: nat)
    requires st.pos <= |text| && index < |st.values| && st.values[index].text.start < st.pos
    requires Open(text, st.values, index, Object, |st.values|, st.pos - 1)
    requires ObjectMembers(text, mode, st, index).Success?
    ensures var r := ObjectMembers(text, mode, st, index).value;
      ValueTree(text, r.values, index, st.values[index].text.start, r.pos)
    decreases |text| - st.pos, 4
  {
    ObjectMembersStep(text, mode, st, index);
    KeyThenRestWF(text, mode, st, index);
  }

  /** The rest of a member after its key keeps the object well formed. */
  lemma KeyThenRestWF(text: seq<Byte>, mode: Mode, st: PState, index: nat)
    requires index < |st.values| && 0 < st.pos < |text| && st.values[index].text.start < st.pos
    requires Open(text, st.values, index, Object, |st.values|, st.pos - 1)
    requires text[st.pos] == QUOTE && ParseString(text, st, st.pos + 1).Success?
    requires var st1 := ParseString(text, st, st.pos + 1).value;
      st1.values[..index] == st.values[..index]
      && ObjectAfterKey(text, mode, st, st1.(kind := Some(Object)), index).Success?
    ensures var st1 := ParseString(text, st, st.pos + 1).value;
      var r := ObjectAfterKey(text, mode, st, st1.(kind := Some(Object)), index).value;
      ValueTree(text, r.values, index, st.values[index].text.start, r.pos)
    decreases |text| - st.pos, 3
  {
    MemberKeyOpen(text, st, index);
    var st1 := ParseString(text, st, st.pos + 1).value.(kind := Some(Object));
    ObjectAfterKeyWF(text, mode, st, st1, index);
  }

  /** The key of a member leaves the object open, with the key as its
      last entry. */
  lemma MemberKeyOpen(text: seq<Byte>, st: PState, index: nat)
    requires index < |st.values| && 0 < st.pos < |text| && st.values[index].text.start < st.pos
    requires Open(text, st.values, index, Object, |st.values|, st.pos - 1)
    requires text[st.pos] == QUOTE && ParseString(text, st, st.pos + 1).Success?
    ensures var st1 := ParseString(text, st, st.pos + 1).value.(kind := Some(Object));
      st.pos < st1.pos <= |text| && |st.values| < |st1.values| && st.comments <= st1.comments
      && index + 2 <= |st1.values| && st1.values[index].text.start < st1.pos
      && Open(text, st1.values, index, Object, |st1.values| - 1, st1.pos)
      && st1.values[|st1.values| - 1].kind == String && st1.values[|st1.values| - 1].endIndex == |st1.values|
  {
    var r := ParseString(text, st, st.pos + 1).value;
    assert r.values[..|st.values|] == st.values;
    StringTree(text, st);
    KeyOpen(text, st.values, r, index, st.pos - 1);
  }

  lemma ObjectAfterKeyWF(text: seq<Byte>, mode: Mode, st0: PState, st: PState, index: nat)
    requires st0.pos < st.pos <= |text| && index < |st0.values| < |st.values| && st.kind == Some(Object)
    requires st.values[..index] == st0.values[..index] && st0.comments <= st.comments
    requires st.values[index].text.start < st.pos && index + 2 <= |st.values|
    requires Open(text, st.values, index, Object, |st.values| - 1, st.pos)
    requires st.values[|st.values| - 1].kind == String && st.values[|st.values| - 1].endIndex == |st.values|
    requires ObjectAfterKey(text, mode, st0, st, index).Success?
    ensures var r := ObjectAfterKey(text, mode, st0, st, index).value;
      ValueTree(text, r.values, index, st.values[index].text.start, r.pos)
    decreases |text| - st.pos, 6
  {
    var sk := SkipWsAndComments(text, mode, st, st.pos).value;
    OpenWiden(text, st.values, index, Object, |st.values| - 1, st.pos, sk.pos);
    ObjectValueWF(text, mode, st0, sk.(pos := sk.pos + 1), index);
  }

  lemma ObjectValueWF(text: seq<Byte>, mode: Mode, st0: PState, st: PState, index: nat)
    requires st0.pos < st.pos <= |text| && index < |st0.values| < |st.values| && st.kind == Some(Object)
    requires st.values[..index] == st0.values[..index] && st0.comments <= st.comments
    requires st.values[index].text.start < st.pos && index + 2 <= |st.values|
    requires Open(text, st.values, index, Object, |st.values| - 1, st.pos - 1)
    requires st.values[|st.values| - 1].kind == String && st.values[|st.values| - 1].endIndex == |st.values|
    requires ObjectValue(text, mode, st0, st, index).Success?
    ensures var r := ObjectValue(text, mode, st0, st, index).value;
      ValueTree(text, r.values, index, st.values[index].text.start, r.pos)
    decreases |text| - st.pos, 5
  {
    var st2 := ParseValue(text, mode, st).value;
    ValueWF(text, mode, st);
    assert st2.values[..|st.values|] == st.values;
    OpenAddMember(text, st.values, st2.values, index, st.pos - 1, st.pos, st2.pos);
    PrefixOfPrefix(st.values, st2.values, |st.values|, index);
    ObjectAfterValueWF(text, mode, st0, st2.(kind := Some(Object)), index);
  }

  lemma ObjectAfterValueWF(text: seq<Byte>, mode: Mode, st0: PState, st: PState, index: nat)
    requires st0.pos < st.pos <= |text| && index < |st0.values| < |st.values| && st.kind == Some(Object)
    requires st.values[..index] == st0.values[..index] && st0.comments <= st.comments
    requires st.values[index].text.start < st.pos
    requires Open(text, st.values, index, Object, |st.values|, st.pos)
    requires ObjectAfterValue(text, mode, st0, st, index).Success?
    ensures var r := ObjectAfterValue(text, mode, st0, st, index).value;
      ValueTree(text, r.values, index, st.values[index].text.start, r.pos)
    decreases |text| - st.pos, 5
  {
    var sk := SkipWsAndComments(text, mode, st, st.pos).value;
    OpenWiden(text, st.values, index, Object, |st.values|, st.pos, sk.pos);
    ObjectNextWF(text, mode, st0, sk, index);
  }

  lemma ObjectNextWF(text: seq<Byte>, mode: Mode, st0: PState, st: PState, index: nat)
    requires st0.pos < st.pos <= |text| && index < |st0.values| < |st.values| && st.kind == Some(Object)
    requires st.values[..index] == st0.values[..index] && st0.comments <= st.comments
    requires st.values[index].text.start < st.pos
    requires Open(text, st.values, index, Object, |st.values|, st.pos)
    requires ObjectNext(text, mode, st0, st, index).Success?
    ensures var r := ObjectNext(text, mode, st0, st, index).value;
      ValueTree(text, r.values, index, st.values[index].text.start, r.pos)
    decreases |text| - st.pos, 4
  {
    if st.pos < |text| && text[st.pos] == RBRACE {
      ObjectNextClose(text, mode, st0, st, index);
      FinalizeClose(text, st.(pos := st.pos + 1), index, Object);
    } else {
      ObjectNextComma(text, mode, st0, st, index);
      var sk := SkipWsAndComments(text, mode, st, st.pos + 1).value;
      OpenWiden(text, st.values, index, Object, |st.values|, st.pos, sk.pos - 1);
      ObjectMembersWF(text, mode, sk, index);
    }
  }
}
