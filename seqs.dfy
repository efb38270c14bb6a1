/** Facts about concatenation, stated over any element type. Stated once
    here, they keep each proof about byte strings from asking the solver
    to re-derive them together with the range of every byte. */
module Seqs {
  lemma Assoc<T>(a: seq<T>, b: seq<T>, c: seq<T>)
    ensures a + (b + c) == a + b + c
  {
  }

  lemma Assoc4<T>(a: seq<T>, b: seq<T>, c: seq<T>, d: seq<T>)
    ensures a + (b + c + d) == a + b + c + d
  {
  }

  lemma PrefixOfLonger<T>(a: seq<T>, x: seq<T>, y: seq<T>)
    requires a <= x
    ensures a <= x + y
  {
  }

  lemma SplitAt<T>(s: seq<T>, i: nat)
    requires i <= |s|
    ensures s == s[..i] + s[i..]
  {
  }

  lemma TakeSnoc<T>(s: seq<T>, i: nat)
    requires i < |s|
    ensures s[..i + 1] == s[..i] + [s[i]]
  {
  }

  lemma TailOfAppend<T>(a: seq<T>, b: seq<T>)
    requires a != []
    ensures (a + b)[1..] == a[1..] + b
  {
  }

  lemma EmptyAppend<T>(a: seq<T>, b: seq<T>)
    requires a == []
    ensures a + b == b
  {
  }

  lemma HeadOfAppend<T>(a: seq<T>, b: seq<T>)
    requires a != []
    ensures (a + b)[0] == a[0]
  {
  }

  lemma ConsTail<T>(a: seq<T>)
    requires a != []
    ensures [a[0]] + a[1..] == a
  {
  }

  lemma AppendTake<T>(pre: seq<T>, s: seq<T>, i: nat)
    requires i < |s|
    ensures pre + s[..i] + [s[i]] == pre + s[..i + 1]
    ensures pre <= pre + s[..i + 1] <= pre + s
  {
    assert s[..i + 1] == s[..i] + [s[i]];
  }

  lemma AppendAll<T>(pre: seq<T>, s: seq<T>)
    ensures pre + s[..|s|] == pre + s
  {
    assert s[..|s|] == s;
  }

  lemma PrefixTake<T>(pre: seq<T>, s: seq<T>, n: nat)
    requires n <= |s|
    ensures pre <= pre + s[..n] <= pre + s
  {
    assert s == s[..n] + s[n..];
  }
}
