// Sequences: distinct elements, taking one out, and writing over a part.

module Seqs {
  ghost predicate Distinct<T>(s: seq<T>) {
    forall i, j :: 0 <= i < j < |s| ==> s[i] != s[j]
  }

  /** The sequence without element i. */
  function Cut<T>(s: seq<T>, i: nat): (r: seq<T>)
    requires i < |s|
    ensures |r| == |s| - 1
  {
    s[..i] + s[i + 1..]
  }

  /** The sequence with b written over it from `at` on. */
  function Splice<T>(s: seq<T>, at: int, b: seq<T>): (r: seq<T>)
    requires 0 <= at && at + |b| <= |s|
    ensures |r| == |s|
  {
    s[..at] + b + s[at + |b|..]
  }

  /** Writing two pieces one behind the other is writing both at once. */
  lemma SpliceJoins<T>(s: seq<T>, at: int, a: seq<T>, b: seq<T>)
    requires 0 <= at && at + |a| + |b| <= |s|
    ensures Splice(Splice(s, at, a), at + |a|, b) == Splice(s, at, a + b)
  {
  }

  /** Writing one more element behind a piece. */
  lemma SpliceNext<T>(s: seq<T>, at: int, a: seq<T>, x: T, p: int)
    requires 0 <= at && p == at + |a| < |s|
    ensures Splice(s, at, a)[p := x] == Splice(s, at, a + [x])
  {
  }

  lemma Regroup<T>(a: seq<T>, b: seq<T>, c: seq<T>)
    ensures (a + b) + c == a + (b + c)
  {
  }
}
