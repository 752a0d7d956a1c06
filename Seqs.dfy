/**
 * Facts about sequences of any element type, used to keep the proofs about lists of lines
 * and lists of blocks short.
 */
module Seqs {

  lemma AppendAssoc<T>(a: seq<T>, b: seq<T>, c: seq<T>)
    ensures a + b + c == a + (b + c)
  {
  }

  lemma AppendEmpty<T>(a: seq<T>)
    ensures a + [] == a && [] + a == a
  {
  }

  /** The prefix of length i + 1 is the prefix of length i and then element i. */
  lemma PrefixSnoc<T>(xs: seq<T>, i: nat)
    requires i < |xs|
    ensures |xs[..i + 1]| == i + 1
    ensures xs[..i + 1][..i] == xs[..i] && xs[..i + 1][i] == xs[i]
  {
  }

  lemma TakeAll<T>(xs: seq<T>)
    ensures xs[..|xs|] == xs && xs[0..] == xs
  {
  }

  /** Dropping the last element of a concatenation drops it from the second part. */
  lemma DropLastAppend<T>(a: seq<T>, b: seq<T>)
    requires |b| >= 1
    ensures (a + b)[..|a + b| - 1] == a + b[..|b| - 1]
    ensures (a + b)[|a + b| - 1] == b[|b| - 1]
  {
  }

  /** Regrouping a join of three parts around the same separator. */
  lemma Regroup<T>(x: seq<T>, sep: seq<T>, a: seq<T>, z: seq<T>)
    ensures x + sep + (a + sep + z) == x + sep + a + sep + z
  {
  }

  /** The first element and the rest of a concatenation whose left part is not empty. */
  lemma FrontTail<T>(a: seq<T>, b: seq<T>)
    requires |a| >= 1
    ensures (a + b)[0] == a[0] && (a + b)[1..] == a[1..] + b
  {
  }

  /** Taking from and dropping from a suffix, in terms of the whole. */
  lemma SliceOfSlice<T>(s: seq<T>, i: nat, j: nat)
    requires i + j <= |s|
    ensures s[i..][..j] == s[i..i + j] && s[i..][j..] == s[i + j..]
  {
  }
}
