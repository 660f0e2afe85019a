/** Small facts about sequences, stated once so that the proofs that use them stay short. */
module Seqs {

  /** Growing a prefix by one element. */
  lemma PrefixSnoc<T>(a: seq<T>, xs: seq<T>, j: nat)
    requires j < |xs|
    ensures a + xs[..j + 1] == a + xs[..j] + [xs[j]]
  {
    assert xs[..j + 1] == xs[..j] + [xs[j]];
  }

  lemma TakeSnoc<T>(xs: seq<T>, j: nat)
    requires j < |xs|
    ensures xs[..j + 1] == xs[..j] + [xs[j]]
  {
  }

  /** Regrouping a concatenation of five so that the first stands apart. */
  lemma HeadApart<T>(a: seq<T>, b: seq<T>, c: seq<T>, d: seq<T>, e: seq<T>)
    ensures a + b + c + d + e == a + (b + c + d + e)
  {
  }

  /** Dropping the last element of `a + b`, with `b` not empty. */
  lemma ConcatDropLast<T>(a: seq<T>, b: seq<T>)
    requires |b| > 0
    ensures (a + b)[..|a + b| - 1] == a + b[..|b| - 1]
    ensures (a + b)[|a + b| - 1] == b[|b| - 1]
  {
  }

  lemma Assoc<T>(a: seq<T>, b: seq<T>, c: seq<T>)
    ensures a + b + c == a + (b + c)
  {
  }

  lemma PrefixEnds<T>(a: seq<T>, xs: seq<T>)
    ensures a + xs[..0] == a && xs[..|xs|] == xs
  {
  }

  lemma LastOfCons<T>(x: T, xs: seq<T>)
    requires |xs| > 0
    ensures |[x] + xs| == 1 + |xs| && ([x] + xs)[|[x] + xs| - 1] == xs[|xs| - 1]
  {
  }

  /** Moving the head of a sequence in front of its extended tail. */
  lemma ConsSnoc<T>(xs: seq<T>, e: T)
    requires |xs| > 0
    ensures xs + [e] == [xs[0]] + (xs[1..] + [e])
  {
  }

  /** Cutting a sequence at `j + 1` is cutting its tail at `j`, with the head in front. */
  lemma ConsSlices<T>(xs: seq<T>, j: nat)
    requires j + 1 < |xs|
    ensures xs[..j + 1] == [xs[0]] + xs[1..][..j] && xs[j + 2..] == xs[1..][j + 1..]
    ensures [xs[0]] + (xs[1..][..j] + xs[1..][j + 1..]) == xs[..j + 1] + xs[j + 2..]
  {
  }

  /** The sequence without the element at index `i`. */
  lemma DeleteAt<T>(xs: seq<T>, i: nat, r: seq<T>)
    requires i < |xs| && r == xs[..i] + xs[i + 1..]
    ensures |r| == |xs| - 1
    ensures forall k :: 0 <= k < i ==> r[k] == xs[k]
    ensures forall k :: i <= k < |r| ==> r[k] == xs[k + 1]
  {
  }

  /** A sequence is what lies before index `i`, the element at `i`, and what follows. */
  lemma SplitAround<T>(xs: seq<T>, i: nat)
    requires i < |xs|
    ensures xs == xs[..i] + [xs[i]] + xs[i + 1..]
    ensures multiset(xs[..i] + xs[i + 1..]) == multiset(xs) - multiset{xs[i]}
  {
    assert xs == xs[..i] + [xs[i]] + xs[i + 1..];
  }

  /** Removing the last element removes one copy of it from the multiset. */
  lemma DropLastMultiset<T>(xs: seq<T>)
    requires |xs| > 0
    ensures multiset(xs[..|xs| - 1]) == multiset(xs) - multiset{xs[|xs| - 1]}
  {
    assert xs == xs[..|xs| - 1] + [xs[|xs| - 1]];
  }
}
