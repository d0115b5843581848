/**
  Sequences of bucket counts, indexed by bucket id. A bucket beyond the end of a
  sequence counts as 0 (Get), which is how the merges treat a shorter operand.
*/
module Counters {

  function Min(a: nat, b: nat): nat { if a < b then a else b }

  function Max(a: nat, b: nat): nat { if a > b then a else b }

  /** The count of bucket `i`, 0 outside the sequence. */
  function Get(s: seq<nat>, i: int): nat
  {
    if 0 <= i < |s| then s[i] else 0
  }

  function Zeros(n: nat): (r: seq<nat>)
    ensures |r| == n && forall i :: 0 <= i < n ==> r[i] == 0
  {
    seq(n, _ => 0)
  }

  /** Sum of the counts of buckets 0 .. n-1. */
  function Prefix(s: seq<nat>, n: nat): nat
  {
    if n == 0 then 0 else Prefix(s, n - 1) + Get(s, n - 1)
  }

  /** Sum of all counts. */
  function Total(s: seq<nat>): nat
  {
    Prefix(s, |s|)
  }

  /** Buckets past the end of the sequence add nothing. */
  lemma {:induction false} PrefixPastEnd(s: seq<nat>, n: nat)
    requires |s| <= n
    ensures Prefix(s, n) == Total(s)
  {
    if n > |s| {
      PrefixPastEnd(s, n - 1);
    }
  }

  /** Two sequences that agree on the first n buckets have the same prefix sum there. */
  lemma {:induction false} PrefixAgree(s: seq<nat>, t: seq<nat>, n: nat)
    requires forall i :: 0 <= i < n ==> Get(s, i) == Get(t, i)
    ensures Prefix(s, n) == Prefix(t, n)
  {
    if n > 0 {
      PrefixAgree(s, t, n - 1);
    }
  }

  /** A prefix sum of 0 means every bucket in it is empty. */
  lemma {:induction false} ZeroPrefix(s: seq<nat>, n: nat, i: nat)
    requires Prefix(s, n) == 0 && i < n
    ensures Get(s, i) == 0
  {
    if i < n - 1 {
      ZeroPrefix(s, n - 1, i);
    }
  }

  /** `s` followed by empty buckets up to length n (the realloc-and-memset growth). */
  function Padded(s: seq<nat>, n: nat): (r: seq<nat>)
    requires |s| <= n
    ensures |r| == n && forall i :: 0 <= i < n ==> r[i] == Get(s, i)
  {
    s + Zeros(n - |s|)
  }

  /** Elementwise sum of two count sequences over the first n buckets. */
  function Merged(a: seq<nat>, b: seq<nat>, n: nat): (r: seq<nat>)
    ensures |r| == n
    ensures forall i :: 0 <= i < n ==> r[i] == Get(a, i) + Get(b, i)
  {
    seq(n, i requires 0 <= i < n => Get(a, i) + Get(b, i))
  }

  /** The counts of a merge add up to the counts of both operands. */
  lemma {:induction false} MergedPrefix(a: seq<nat>, b: seq<nat>, n: nat, k: nat)
    requires k <= n
    ensures Prefix(Merged(a, b, n), k) == Prefix(a, k) + Prefix(b, k)
  {
    if k > 0 {
      MergedPrefix(a, b, n, k - 1);
    }
  }

  lemma MergedTotal(a: seq<nat>, b: seq<nat>, n: nat)
    requires |a| <= n && |b| <= n
    ensures Total(Merged(a, b, n)) == Total(a) + Total(b)
  {
    MergedPrefix(a, b, n, n);
    PrefixPastEnd(a, n);
    PrefixPastEnd(b, n);
  }

  /** Raising one bucket by one raises the total by one. */
  lemma {:induction false} BumpedPrefix(s: seq<nat>, i: nat, n: nat)
    requires i < |s| && n <= |s|
    ensures Prefix(s[i := s[i] + 1], n) == Prefix(s, n) + (if i < n then 1 else 0)
  {
    if n > 0 {
      BumpedPrefix(s, i, n - 1);
    }
  }

  /** No bucket below `lo` holds a count. */
  predicate EmptyBelow(s: seq<nat>, lo: nat)
  {
    forall i :: 0 <= i < |s| && i < lo ==> s[i] == 0
  }

  /** Buckets that are not empty lie at or below `hi`. */
  predicate EmptyAbove(s: seq<nat>, hi: int)
  {
    forall i :: 0 <= i < |s| && hi < i ==> s[i] == 0
  }
}
