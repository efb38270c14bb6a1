/** The tree a well-formed value index describes, seen through `endIndex`
    alone: the direct children of an entry are reached by hopping from the
    entry after it along `endIndex` (what `Children` of src/raw.rs does), and
    the value at a byte position is found by descending into the child whose
    range contains it (what `RawJson::get_value_by_position` does). */
module Tree {
  import opened Wrappers
  import opened Bytes
  import opened Grammar
  import opened Kind
  import opened Table

  /** The structural part of well-formedness: each subtree is a non-empty
      range of entries with a non-empty byte range, and any two entries are
      nested or disjoint. */
  predicate Nested(values: seq<JsonValueIndexEntry>) {
    && (forall i | 0 <= i < |values| :: i < values[i].endIndex <= |values| && values[i].text.start < values[i].text.end)
    && (forall i, j | 0 <= i < j < |values| :: Laminar(values, i, j))
  }

  lemma WellFormedNested(text: seq<Byte>, values: seq<JsonValueIndexEntry>)
    requires WellFormed(text, values)
    ensures Nested(values) && values[0].endIndex == |values|
  {
    forall i | 0 <= i < |values|
      ensures i < values[i].endIndex <= |values| && values[i].text.start < values[i].text.end
    {
      assert EntryOk(text, values, |values|, i);
    }
  }

  /** Byte `p` lies in the half-open range `r` (`Range::contains`). */
  predicate Contains(r: Range, p: nat) {
    r.start <= p < r.end
  }

  /** Hopping along `endIndex` from entry `c` reaches `e`, moving forward at
      every hop. */
  predicate Chain(values: seq<JsonValueIndexEntry>, c: nat, e: nat)
    decreases e - c
  {
    c == e || (c < e <= |values| && c < values[c].endIndex <= e && Chain(values, values[c].endIndex, e))
  }

  /** The entries visited by hopping from `c` until `e`. */
  function ChildrenFrom(values: seq<JsonValueIndexEntry>, c: nat, e: nat): (r: seq<nat>)
    requires Chain(values, c, e)
    ensures forall k | 0 <= k < |r| :: c <= r[k] < e
    ensures c < e ==> |r| > 0 && r[0] == c
    decreases e - c
  {
    if c == e then [] else [c] + ChildrenFrom(values, values[c].endIndex, e)
  }

  /** Inside the subtree of `i`, hopping from any entry reaches the end of
      the subtree. */
  lemma {:induction false} SubtreeChain(values: seq<JsonValueIndexEntry>, i: nat, c: nat)
    requires Nested(values) && i < |values| && i < c <= values[i].endIndex
    ensures Chain(values, c, values[i].endIndex)
    decreases values[i].endIndex - c
  {
    if c < values[i].endIndex {
      assert Laminar(values, i, c);
      SubtreeChain(values, i, values[c].endIndex);
    }
  }

  /** The direct children of entry `i`, in table order. */
  function ChildrenOf(values: seq<JsonValueIndexEntry>, i: nat): (r: seq<nat>)
    requires Nested(values) && i < |values|
    ensures forall k | 0 <= k < |r| :: i < r[k] < values[i].endIndex
  {
    SubtreeChain(values, i, i + 1);
    ChildrenFrom(values, i + 1, values[i].endIndex)
  }

  /** Entries met earlier on a chain end their subtree before later ones. */
  lemma {:induction false} ChainOrder(values: seq<JsonValueIndexEntry>, c: nat, e: nat, x: nat, y: nat)
    requires Chain(values, c, e)
    requires x < y < |ChildrenFrom(values, c, e)|
    ensures var ks := ChildrenFrom(values, c, e); ks[x] < values[ks[x]].endIndex <= ks[y]
    decreases e - c
  {
    var m := values[c].endIndex;
    var ks := ChildrenFrom(values, c, e);
    assert ks == [c] + ChildrenFrom(values, m, e);
    if x > 0 {
      ChainOrder(values, m, e, x - 1, y - 1);
    } else {
      assert ks[y] == ChildrenFrom(values, m, e)[y - 1];
    }
  }

  /** Every entry from `c` to `e` lies in the subtree of one entry of the
      chain. */
  lemma {:induction false} ChainCover(values: seq<JsonValueIndexEntry>, c: nat, e: nat, j: nat) returns (x: nat)
    requires Chain(values, c, e) && c <= j < e
    ensures var ks := ChildrenFrom(values, c, e); x < |ks| && ks[x] <= j < values[ks[x]].endIndex
    decreases e - c
  {
    var m := values[c].endIndex;
    assert ChildrenFrom(values, c, e) == [c] + ChildrenFrom(values, m, e);
    if j < m {
      x := 0;
    } else {
      var y := ChainCover(values, m, e, j);
      x := y + 1;
    }
  }

  /** Two direct children of one entry have disjoint ranges. */
  lemma SiblingsDisjoint(values: seq<JsonValueIndexEntry>, i: nat, x: nat, y: nat)
    requires Nested(values) && i < |values|
    requires x < y < |ChildrenOf(values, i)|
    ensures var ks := ChildrenOf(values, i); values[ks[x]].text.end < values[ks[y]].text.start
  {
    var ks := ChildrenOf(values, i);
    SubtreeChain(values, i, i + 1);
    assert ks == ChildrenFrom(values, i + 1, values[i].endIndex);
    ChainOrder(values, i + 1, values[i].endIndex, x, y);
    assert Laminar(values, ks[x], ks[y]);
  }

  /** A descendant's range lies inside its ancestor's range. */
  lemma InsideAncestor(values: seq<JsonValueIndexEntry>, a: nat, d: nat)
    requires Nested(values) && a < |values| && a <= d < values[a].endIndex
    ensures values[a].text.start <= values[d].text.start && values[d].text.end <= values[a].text.end
  {
    if a < d {
      assert Laminar(values, a, d);
    }
  }

  /** The first of the entries `ks` whose range contains `p` (`Iterator::find`). */
  function FirstContaining(values: seq<JsonValueIndexEntry>, ks: seq<nat>, p: nat): (r: Option<nat>)
    requires forall k | 0 <= k < |ks| :: ks[k] < |values|
    ensures r.Some? ==> exists x | 0 <= x < |ks| :: ks[x] == r.value && Contains(values[r.value].text, p)
    ensures r.None? <==> forall x | 0 <= x < |ks| :: !Contains(values[ks[x]].text, p)
  {
    if ks == [] then None
    else if Contains(values[ks[0]].text, p) then Some(ks[0])
    else
      var r := FirstContaining(values, ks[1..], p);
      assert forall x | 1 <= x < |ks| :: ks[x] == ks[1..][x - 1];
      r
  }

  /** The value `get_value_by_position` reaches from entry `i`: descend into
      the first child containing `p` until none does. */
  function Deepest(values: seq<JsonValueIndexEntry>, i: nat, p: nat): (d: nat)
    requires Nested(values) && i < |values|
    ensures i <= d < values[i].endIndex
    decreases |values| - i
  {
    match FirstContaining(values, ChildrenOf(values, i), p)
    case None => i
    case Some(c) =>
      assert Laminar(values, i, c);
      Deepest(values, c, p)
  }

  /** The value reached contains `p` when the start does, and none of its
      children contains `p`. */
  lemma {:induction false} DeepestContains(values: seq<JsonValueIndexEntry>, i: nat, p: nat)
    requires Nested(values) && i < |values| && Contains(values[i].text, p)
    ensures var d := Deepest(values, i, p);
      Contains(values[d].text, p)
      && forall x | 0 <= x < |ChildrenOf(values, d)| :: !Contains(values[ChildrenOf(values, d)[x]].text, p)
    decreases |values| - i
  {
    match FirstContaining(values, ChildrenOf(values, i), p)
    case None =>
    case Some(c) =>
      DeepestContains(values, c, p);
  }

  /** The value reached is the deepest one containing `p`: every entry of the
      subtree of `i` whose range contains `p` is an ancestor of it (or it). */
  lemma {:induction false} DeepestIsDeepest(values: seq<JsonValueIndexEntry>, i: nat, p: nat, j: nat)
    requires Nested(values) && i < |values| && i <= j < values[i].endIndex && Contains(values[j].text, p)
    ensures var d := Deepest(values, i, p); j <= d < values[j].endIndex
    decreases |values| - i
  {
    if j > i {
      var ks := ChildrenOf(values, i);
      SubtreeChain(values, i, i + 1);
      var x := ChainCover(values, i + 1, values[i].endIndex, j);
      var k := ks[x];
      InsideAncestor(values, k, j);
      assert Contains(values[k].text, p);
      var first := FirstContaining(values, ks, p);
      var y :| 0 <= y < |ks| && ks[y] == first.value && Contains(values[first.value].text, p);
      if y < x {
        SiblingsDisjoint(values, i, y, x);
        assert false;
      } else if x < y {
        SiblingsDisjoint(values, i, x, y);
        assert false;
      }
      DeepestIsDeepest(values, k, p, j);
    }
  }

  /** Every entry but the first is a direct child of some entry. */
  lemma {:induction false} ParentExists(values: seq<JsonValueIndexEntry>, a: nat, i: nat) returns (q: nat)
    requires Nested(values) && a < |values| && a < i < values[a].endIndex
    ensures q < i < values[q].endIndex && i in ChildrenOf(values, q)
    decreases i - a
  {
    var ks := ChildrenOf(values, a);
    SubtreeChain(values, a, a + 1);
    var x := ChainCover(values, a + 1, values[a].endIndex, i);
    if ks[x] == i {
      q := a;
    } else {
      q := ParentExists(values, ks[x], i);
    }
  }

  /** The byte before a child starts lies in its parent and in no child of
      the parent, so the parent is the deepest value containing it. */
  lemma ParentIsDeepestBefore(values: seq<JsonValueIndexEntry>, q: nat, i: nat)
    requires Nested(values) && |values| > 0 && values[0].endIndex == |values|
    requires q < |values| && q < i < values[q].endIndex && i in ChildrenOf(values, q)
    ensures 0 < values[i].text.start && Contains(values[0].text, values[i].text.start - 1)
    ensures Deepest(values, 0, values[i].text.start - 1) == q
  {
    var p := values[i].text.start - 1;
    assert Laminar(values, q, i);
    InsideAncestor(values, 0, q);
    assert Contains(values[q].text, p);
    DeepestContains(values, 0, p);
    DeepestIsDeepest(values, 0, p, q);
    var d := Deepest(values, 0, p);
    if d != q {
      var ks := ChildrenOf(values, q);
      SubtreeChain(values, q, q + 1);
      var x := ChainCover(values, q + 1, values[q].endIndex, d);
      var k := ks[x];
      InsideAncestor(values, k, d);
      assert Contains(values[k].text, p);
      var y :| 0 <= y < |ks| && ks[y] == i;
      if x < y {
        SiblingsDisjoint(values, q, x, y);
      } else if y < x {
        SiblingsDisjoint(values, q, y, x);
      }
      assert false;
    }
  }

  /** The (key, value) entry pairs of children `c..e` that pair up, in
      table order (what `JsonKeyValuePairs` yields). */
  function MembersFrom(values: seq<JsonValueIndexEntry>, c: nat, e: nat): (r: seq<(nat, nat)>)
    requires Pairs(values, c, e)
    ensures forall k | 0 <= k < |r| :: c <= r[k].0 && r[k].0 + 1 == r[k].1 < e && values[r[k].0].kind == String
    decreases e - c
  {
    if c >= e then [] else [(c, c + 1)] + MembersFrom(values, values[c + 1].endIndex, e)
  }

  /** Paired children are a chain whose entries alternate key, value: the
      children at even places are the keys, the ones after them the values. */
  lemma {:induction false} PairsChain(values: seq<JsonValueIndexEntry>, c: nat, e: nat)
    requires Pairs(values, c, e)
    ensures Chain(values, c, e)
    ensures var ks := ChildrenFrom(values, c, e); var ms := MembersFrom(values, c, e);
      |ks| == 2 * |ms| && forall k | 0 <= k < |ms| :: ks[2 * k] == ms[k].0 && ks[2 * k + 1] == ms[k].1
    decreases e - c
  {
    if c < e {
      var m := values[c + 1].endIndex;
      PairsChain(values, m, e);
      assert Chain(values, c + 1, e);
      var ks := ChildrenFrom(values, c, e);
      var rest := ChildrenFrom(values, m, e);
      assert ChildrenFrom(values, c + 1, e) == [c + 1] + rest;
      assert ks == [c] + ChildrenFrom(values, c + 1, e);
      var ms := MembersFrom(values, c, e);
      assert ms == [(c, c + 1)] + MembersFrom(values, m, e);
      forall k | 1 <= k < |ms|
        ensures ks[2 * k] == ms[k].0 && ks[2 * k + 1] == ms[k].1
      {
        assert ks[2 * k] == rest[2 * (k - 1)];
        assert ks[2 * k + 1] == rest[2 * (k - 1) + 1];
      }
    }
  }
}
