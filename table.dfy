/** The value index a parse produces (`JsonValueIndexEntry` of src/raw.rs,
    built by src/parse.rs) and the shape every successful parse gives it.

    Entries are in pre-order: a value's entry comes before the entries of
    its elements or members, and `endIndex` is one past the last entry of
    its subtree. An object's children alternate key, value. */
module Table {
  import opened Bytes
  import opened Kind
  import opened Grammar

  /** A half-open byte range `start..end` of the text. */
  datatype Range = Range(start: nat, end: nat)

  datatype JsonValueIndexEntry = JsonValueIndexEntry(kind: JsonValueKind, escaped: bool, text: Range, endIndex: nat)

  predicate IsComposite(k: JsonValueKind) {
    k == Array || k == Object
  }

  /** Children `c..e` form key/value pairs: a string leaf, then a subtree. */
  predicate Pairs(values: seq<JsonValueIndexEntry>, c: nat, e: nat)
    decreases e - c
  {
    if c >= e then c == e
    else
      c + 1 < e && e <= |values|
      && values[c].kind == String && values[c].endIndex == c + 1
      && c + 1 < values[c + 1].endIndex <= e
      && Pairs(values, values[c + 1].endIndex, e)
  }

  /** The token of a leaf entry, or the brackets of a composite one. */
  ghost predicate TokenOk(text: seq<Byte>, e: JsonValueIndexEntry)
    requires e.text.start < e.text.end <= |text|
  {
    var t := text[e.text.start..e.text.end];
    match e.kind
    case Null => t == [LOWER_N] + NULL_SUFFIX
    case Bool => t == [LOWER_T] + TRUE_SUFFIX || t == [LOWER_F] + FALSE_SUFFIX
    case Integer => IntegerText(t)
    case Float => FloatText(t)
    case String => StringText(t) && (e.escaped <==> BACKSLASH in t[1..|t| - 1])
    case Array => t[0] == LBRACKET && t[|t| - 1] == RBRACKET
    case Object => t[0] == LBRACE && t[|t| - 1] == RBRACE
  }

  /** Entry `i` of a segment ending at `b`: its subtree ends inside the
      segment, its range is a non-empty part of the text holding a token of
      its kind, a leaf has no children and an object's children pair up. */
  ghost predicate EntryOk(text: seq<Byte>, values: seq<JsonValueIndexEntry>, b: nat, i: nat)
    requires i < |values|
  {
    var e := values[i];
    i < e.endIndex <= b && e.text.start < e.text.end <= |text|
    && TokenOk(text, e)
    && (!IsComposite(e.kind) ==> e.endIndex == i + 1)
    && (e.kind == Object ==> Pairs(values, i + 1, e.endIndex))
  }

  /** Two entries `i < j` are either nested (j in the subtree of i, whose
      range then strictly contains j's) or disjoint, with i's range ending
      strictly before j's starts. */
  predicate Laminar(values: seq<JsonValueIndexEntry>, i: nat, j: nat)
    requires i < j < |values|
  {
    if j < values[i].endIndex then
      values[j].endIndex <= values[i].endIndex
      && values[i].text.start < values[j].text.start
      && values[j].text.end < values[i].text.end
    else
      values[i].text.end < values[j].text.start
  }

  /** Entries `a..b` form a sequence of complete subtrees. */
  ghost predicate Segment(text: seq<Byte>, values: seq<JsonValueIndexEntry>, a: nat, b: nat) {
    a <= b <= |values|
    && (forall i | a <= i < b :: EntryOk(text, values, b, i))
    && (forall i, j | a <= i < j < b :: Laminar(values, i, j))
  }

  /** Every range of entries `a..b` lies within `lo..hi`. */
  predicate Within(values: seq<JsonValueIndexEntry>, a: nat, b: nat, lo: nat, hi: nat)
    requires a <= b <= |values|
  {
    forall i | a <= i < b :: lo <= values[i].text.start && values[i].text.end <= hi
  }

  /** The index of a parsed JSON text: one tree, rooted at entry 0. */
  ghost predicate WellFormed(text: seq<Byte>, values: seq<JsonValueIndexEntry>) {
    |values| > 0 && values[0].endIndex == |values| && Segment(text, values, 0, |values|)
  }
}
