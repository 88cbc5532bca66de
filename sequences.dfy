/** Subsequences: `a` is obtained from `b` by deleting elements, keeping the
    relative order of what remains.  Both the query filter of the comic
    matcher and the link filter of the search command produce one. */
module Sequences {

  /** `idx` lists, in strictly increasing order, the positions of `b` that
      the elements of `a` came from. */
  ghost predicate SubsequenceWitness<T>(a: seq<T>, b: seq<T>, idx: seq<nat>) {
    && |idx| == |a|
    && (forall k :: 0 <= k < |idx| ==> idx[k] < |b| && a[k] == b[idx[k]])
    && (forall k, l :: 0 <= k < l < |idx| ==> idx[k] < idx[l])
  }

  ghost predicate IsSubsequence<T>(a: seq<T>, b: seq<T>) {
    exists idx :: SubsequenceWitness(a, b, idx)
  }

  /** Positions 0, 1, ..., n - 1. */
  function Identity(n: nat): seq<nat> {
    seq(n, k requires 0 <= k < n => k)
  }

  lemma SubsequenceRefl<T>(a: seq<T>)
    ensures IsSubsequence(a, a)
  {
    assert SubsequenceWitness(a, a, Identity(|a|));
  }

  lemma SubsequenceTrans<T>(a: seq<T>, b: seq<T>, c: seq<T>)
    requires IsSubsequence(a, b) && IsSubsequence(b, c)
    ensures IsSubsequence(a, c)
  {
    var i1: seq<nat> :| SubsequenceWitness(a, b, i1);
    var i2: seq<nat> :| SubsequenceWitness(b, c, i2);
    var i3: seq<nat> := seq(|i1|, k requires 0 <= k < |i1| => i2[i1[k]]);
    assert SubsequenceWitness(a, c, i3);
  }

  /** Deleting the element at position j leaves a subsequence. */
  lemma RemoveAtSubsequence<T>(s: seq<T>, j: nat)
    requires j < |s|
    ensures IsSubsequence(s[..j] + s[j + 1..], s)
  {
    var r := s[..j] + s[j + 1..];
    var idx: seq<nat> := seq(|s| - 1, k requires 0 <= k < |s| - 1 => if k < j then k else k + 1);
    assert SubsequenceWitness(r, s, idx);
  }

  /** Keeping the head of both sequences preserves the relation. */
  lemma SubsequenceConsBoth<T>(x: T, a: seq<T>, b: seq<T>)
    requires IsSubsequence(a, b)
    ensures IsSubsequence([x] + a, [x] + b)
  {
    var i1: seq<nat> :| SubsequenceWitness(a, b, i1);
    var i2: seq<nat> := [0] + seq(|i1|, k requires 0 <= k < |i1| => i1[k] + 1);
    assert SubsequenceWitness([x] + a, [x] + b, i2);
  }

  /** Dropping the head of the longer sequence preserves the relation. */
  lemma SubsequenceConsRight<T>(x: T, a: seq<T>, b: seq<T>)
    requires IsSubsequence(a, b)
    ensures IsSubsequence(a, [x] + b)
  {
    var i1: seq<nat> :| SubsequenceWitness(a, b, i1);
    var i2: seq<nat> := seq(|i1|, k requires 0 <= k < |i1| => i1[k] + 1);
    assert SubsequenceWitness(a, [x] + b, i2);
  }

  /** A subsequence never holds more copies of a value than the original. */
  lemma {:induction false} SubsequenceMultiset<T>(a: seq<T>, b: seq<T>)
    requires IsSubsequence(a, b)
    ensures multiset(a) <= multiset(b)
    decreases |b|
  {
    var idx: seq<nat> :| SubsequenceWitness(a, b, idx);
    if a == [] {
    } else if idx[0] == 0 {
      var rest: seq<nat> := seq(|idx| - 1, k requires 0 <= k < |idx| - 1 => idx[k + 1] - 1);
      assert SubsequenceWitness(a[1..], b[1..], rest);
      SubsequenceMultiset(a[1..], b[1..]);
      assert a == [a[0]] + a[1..];
      assert b == [b[0]] + b[1..];
    } else {
      var rest: seq<nat> := seq(|idx|, k requires 0 <= k < |idx| => idx[k] - 1);
      assert forall k :: 0 <= k < |idx| ==> idx[k] >= idx[0];
      assert SubsequenceWitness(a, b[1..], rest);
      SubsequenceMultiset(a, b[1..]);
      assert b == [b[0]] + b[1..];
    }
  }

  /** A sequence without repeated elements has as many distinct elements as
      positions. */
  lemma {:induction false} DistinctCardinality<T>(s: seq<T>)
    requires forall i, j :: 0 <= i < j < |s| ==> s[i] != s[j]
    ensures |set x | x in s| == |s|
    decreases |s|
  {
    if s != [] {
      var t := s[1..];
      forall i, j | 0 <= i < j < |t|
        ensures t[i] != t[j]
      {
        assert t[i] == s[i + 1] && t[j] == s[j + 1];
      }
      DistinctCardinality(t);
      assert s[0] !in t;
      assert (set x | x in s) == {s[0]} + (set x | x in t);
    }
  }

  /** Python's `list.index(x)`: the position of the first occurrence. */
  function IndexOf<T(==)>(s: seq<T>, x: T): (j: nat)
    requires x in s
    ensures j < |s| && s[j] == x && x !in s[..j]
  {
    if s[0] == x then 0 else 1 + IndexOf(s[1..], x)
  }

  /** Python's `list.pop(j)`, as the list that remains. */
  function RemoveAt<T>(s: seq<T>, j: nat): (r: seq<T>)
    requires j < |s|
    ensures |r| == |s| - 1
    ensures multiset(r) == multiset(s) - multiset{s[j]}
  {
    assert s == s[..j] + [s[j]] + s[j + 1..];
    s[..j] + s[j + 1..]
  }

  /** Python's `list.remove(x)`: drops the first occurrence of `x`. */
  function RemoveFirst<T(==)>(s: seq<T>, x: T): (r: seq<T>)
    requires x in s
    ensures |r| == |s| - 1
    ensures multiset(r) == multiset(s) - multiset{x}
  {
    RemoveAt(s, IndexOf(s, x))
  }
}
