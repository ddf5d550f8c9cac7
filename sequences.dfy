/** Facts about sequences that the byte-level and list-level proofs use
    over and over, proved once in a context of their own. */
module Sequences {

  /** The first |a| elements of a + b are a; the rest is b. */
  lemma Split<T>(a: seq<T>, b: seq<T>)
    ensures (a + b)[..|a|] == a && (a + b)[|a|..] == b
    ensures (a + b)[|a|..|a| + |b|] == b
  {
  }

  /** A slice within the first part of a concatenation. */
  lemma SliceLeft<T>(x: seq<T>, y: seq<T>, i: nat, j: nat)
    requires i <= j <= |x|
    ensures (x + y)[i..j] == x[i..j]
  {
  }

  /** The first k elements of the first n are the first k. */
  lemma PrefixOfPrefix<T>(s: seq<T>, n: nat, k: nat)
    requires k <= n <= |s|
    ensures s[..n][..k] == s[..k]
  {
  }

  /** Concatenation is associative. */
  lemma Assoc<T>(x: seq<T>, y: seq<T>, z: seq<T>)
    ensures x + y + z == x + (y + z)
  {
  }

  /** A sequence is what precedes position k, the element there, and
      what follows. */
  lemma Around<T>(s: seq<T>, k: nat)
    requires k < |s|
    ensures s == s[..k] + [s[k]] + s[k + 1..]
  {
  }

  /** A non-empty sequence is its front followed by its last element. */
  lemma ButLast<T>(s: seq<T>)
    requires s != []
    ensures s == s[..|s| - 1] + [s[|s| - 1]]
  {
  }

  /** Dropping the first element of the suffix from i leaves the suffix
      from i + 1. */
  lemma DropOne<T>(s: seq<T>, i: nat)
    requires i < |s|
    ensures s[i..][0] == s[i] && s[i..][1..] == s[i + 1..]
  {
  }

  /** Where the middle part of x + w + y sits. */
  lemma Middle<T>(x: seq<T>, w: seq<T>, y: seq<T>)
    ensures (x + w + y)[|x|..|x| + |w|] == w
    ensures forall k :: 0 <= k < |w| ==> (x + w + y)[|x| + k] == w[k]
    ensures |y| > 0 ==> (x + w + y)[|x| + |w|] == y[0]
  {
  }
}
