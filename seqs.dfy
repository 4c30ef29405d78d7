/**
 * Facts about slicing sequences, proved once in an empty context so that the proofs that use
 * them do not have to redo the extensionality argument among many other facts.
 */
module Seqs {
  /** A non-empty sequence is its prefix followed by its last element. */
  lemma LastSplit<T>(s: seq<T>)
    requires |s| > 0
    ensures s == s[..|s| - 1] + [s[|s| - 1]]
  {
  }

  /** A non-empty sequence is its first element followed by the rest. */
  lemma FirstSplit<T>(s: seq<T>)
    requires |s| > 0
    ensures s == [s[0]] + s[1..]
  {
  }

  /** Growing a prefix by one element keeps the shorter prefix. */
  lemma PrefixGrow<T>(s: seq<T>, k: nat)
    requires k < |s|
    ensures s[..k + 1][..k] == s[..k] && s[..k + 1] == s[..k] + [s[k]]
  {
  }

  /** The first part of a concatenation is its prefix of that length. */
  lemma AppendPrefix<T>(a: seq<T>, b: seq<T>)
    ensures (a + b)[..|a|] == a && (a + b)[|a|..] == b
  {
  }

  /** The head and the tail of a concatenation whose first part is not empty. */
  lemma ConcatTail<T>(a: seq<T>, b: seq<T>)
    requires |a| > 0
    ensures (a + b)[0] == a[0] && (a + b)[1..] == a[1..] + b
  {
  }

  /** Dropping the first element of a sequence with one element appended. */
  lemma AppendTail<T>(a: seq<T>, e: T)
    requires |a| > 0
    ensures (a + [e])[1..] == a[1..] + [e]
  {
  }

  /** The prefix of full length is the whole sequence. */
  /** Indexing past the head of a list, and of one with an element put in front. */
  lemma ShiftIndex<T>(x: T, s: seq<T>)
    ensures forall i :: 1 <= i < |s| ==> s[i] == s[1..][i - 1]
    ensures forall i :: 1 <= i <= |s| ==> ([x] + s)[i] == s[i - 1]
  {
  }

  lemma Whole<T>(s: seq<T>)
    ensures s[..|s|] == s
  {
  }

  /** Dropping one more element of a suffix. */
  lemma SuffixShrink<T>(s: seq<T>, i: nat)
    requires i < |s|
    ensures s[i..][0] == s[i] && s[i..][1..] == s[i + 1..]
  {
  }

  /** Concatenation is associative. */
  lemma AppendAssoc<T>(x: seq<T>, y: seq<T>, z: seq<T>)
    ensures x + (y + z) == (x + y) + z
  {
  }

  /** A prefix and a suffix of a suffix, as slices of the whole sequence. */
  lemma SuffixSlices<T>(s: seq<T>, i: nat, k: nat)
    requires i + k <= |s|
    ensures s[i..][..k] == s[i..i + k] && s[i..][k..] == s[i + k..]
  {
  }

  /** Four short literals, one after another, make the one literal of their elements. */
  lemma Splice1213<T>(a: T, b: T, c: T, d: T, e: T, f: T, g: T)
    ensures [a] + [b, c] + [d] + [e, f, g] == [a, b, c, d, e, f, g]
  {
  }

  /** A sequence between two single elements, followed by more: where each part sits. */
  lemma Enclosed<T>(a: T, b: seq<T>, c: T, d: seq<T>)
    ensures var s := [a] + b + [c] + d;
      |s| == |b| + 2 + |d| && s[0] == a && s[|b| + 1] == c && s[1..|b| + 1] == b
      && (forall j :: 1 <= j <= |b| ==> s[j] == b[j - 1])
      && (forall j :: |b| + 2 <= j < |s| ==> s[j] == d[j - |b| - 2])
  {
    var s := [a] + b + [c] + d;
    assert s[1..|b| + 1] == ([a] + b)[1..];
  }
}
