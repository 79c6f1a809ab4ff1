/** Small facts about sequences, stated once so that proofs over strings can cite them. */
module SeqFacts {

  /** Slicing a concatenation inside its left part. */
  lemma SliceOfAppend<T>(x: seq<T>, y: seq<T>, n: nat)
    requires n <= |x|
    ensures (x + y)[..n] == x[..n] && (x + y)[n..] == x[n..] + y
  {
  }

  /** Slicing a concatenation inside its right part. */
  lemma SliceOfAppendRight<T>(x: seq<T>, y: seq<T>, a: nat, b: nat)
    requires a <= b <= |y|
    ensures (x + y)[|x| + a..|x| + b] == y[a..b]
  {
  }

  /** A prefix of a prefix is a prefix. */
  lemma PrefixOfPrefix<T>(s: seq<T>, n: nat, i: nat)
    requires i <= n <= |s|
    ensures s[..n][..i] == s[..i]
  {
  }

  /** A non-empty sequence is its head followed by its tail. */
  lemma HeadTail<T>(s: seq<T>)
    requires s != []
    ensures [s[0]] + s[1..] == s
  {
  }

  /** Concatenation is associative. */
  lemma ConcatAssoc<T>(x: seq<T>, y: seq<T>, z: seq<T>)
    ensures x + y + z == x + (y + z)
  {
  }

  /** The first and last elements of a concatenation of non-empty sequences. */
  lemma EndsOfAppend<T>(x: seq<T>, y: seq<T>)
    requires x != [] && y != []
    ensures (x + y)[0] == x[0] && (x + y)[|x + y| - 1] == y[|y| - 1]
  {
  }

  /** A sequence with a non-empty prefix starts with that prefix's first element. */
  lemma PrefixFirst<T>(x: seq<T>, y: seq<T>)
    requires y != [] && |y| <= |x| && x[..|y|] == y
    ensures x != [] && x[0] == y[0]
  {
    assert x[..|y|][0] == x[0];
  }

  /** Growing a prefix by one element. */
  lemma PrefixStep<T>(s: seq<T>, i: nat)
    requires i < |s|
    ensures s[..i + 1][..i] == s[..i] && s[..i + 1][i] == s[i] && |s[..i + 1]| == i + 1
  {
  }

  /** The prefix of full length is the sequence. */
  lemma PrefixAll<T>(s: seq<T>)
    ensures s[..|s|] == s
  {
  }

  /** The empty sequence is a left unit of concatenation. */
  lemma ConcatEmptyLeft<T>(x: seq<T>)
    ensures [] + x == x
  {
  }

  /** A non-empty sequence is its prefix followed by its last element. */
  lemma InitLast<T>(s: seq<T>)
    requires s != []
    ensures s[..|s| - 1] + [s[|s| - 1]] == s
  {
  }
}
