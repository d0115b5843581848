/**
  heistogram_prank: the percentile rank of a value, the share of the recorded count
  that lies below it, found by summing the buckets below the value's bucket and
  taking the value's position inside its own bucket.

  The query value is a whole number here (the histogram records whole numbers) and
  doubles are taken as exact reals.
*/
module Prank {
  import opened Varint
  import opened Buckets
  import opened Counters
  import opened Histogram
  import opened Wire
  import opened Percentile

  /**
    How far `value` lies into the bucket [lower, upper], from 0 to 1; 0.5 when the
    bounds coincide. The width max_val - min_val is a uint64_t difference.
  */
  function Position(value: nat, lower: nat, upper: nat): real
  {
    if Wrap64(upper - lower) == 0 then 0.5
    else (value as real - lower as real) / Wrap64(upper - lower) as real
  }

  /** 100 * (below + pos * count) / total_count; a total of 0 (a NaN in the source) gives 0. */
  function Rank(below: nat, pos: real, count: nat, total: nat): real
  {
    if total == 0 then 0.0 else 100.0 * (below as real + pos * count as real) / total as real
  }

  /** The rank once the value is known to lie below max and inside the capacity. */
  function RankInside(s: State, scale: LogScale, value: nat): real
    requires BucketId(scale, value) < |s.counts|
  {
    var bid := BucketId(scale, value);
    var lower := BucketMin(scale, bid);
    Rank(Prefix(s.counts, bid), Position(value, lower, BucketMax(lower)), s.counts[bid], s.totalCount)
  }

  /** heistogram_prank as written: a value at or above max answers max itself. */
  function PrankAsWritten(s: State, scale: LogScale, value: nat): real
  {
    if value >= s.max then s.max as real
    else if BucketId(scale, value) >= |s.counts| then 100.0
    else RankInside(s, scale, value)
  }

  /** Any histogram whose max exceeds 100, queried at its max, gets a rank above 100. */
  lemma PrankAsWrittenExceeds(s: State, scale: LogScale, value: nat)
    requires 100 < s.max <= value
    ensures PrankAsWritten(s, scale, value) > 100.0
  {
  }

  /** heistogram_prank, with a value at or above max ranked 100. */
  function PrankSpec(s: State, scale: LogScale, value: nat): real
  {
    if value >= s.max then 100.0
    else if BucketId(scale, value) >= |s.counts| then 100.0
    else RankInside(s, scale, value)
  }

  /** The value lies between the bounds of its own bucket, as the bucket mapper intends. */
  predicate InOwnBucket(scale: LogScale, value: nat)
  {
    var lower := BucketMin(scale, BucketId(scale, value));
    lower <= value <= BucketMax(lower)
  }

  /** In the identity region every value is its own bucket. */
  lemma IdentityInOwnBucket(scale: LogScale, value: nat)
    requires value <= MAX_UNMAPPED_BUCKET
    ensures InOwnBucket(scale, value)
  {
    IdentityRegionExact(scale, value);
  }

  /** The counts below bucket n never exceed the total. */
  lemma {:induction false} PrefixAtMostTotal(s: seq<nat>, n: nat)
    requires n <= |s|
    ensures Prefix(s, n) <= Total(s)
    decreases |s| - n
  {
    if n < |s| {
      PrefixAtMostTotal(s, n + 1);
    }
  }

  lemma PositionInUnit(value: nat, lower: nat, upper: nat)
    requires lower <= value <= upper < U64_MOD
    ensures 0.0 <= Position(value, lower, upper) <= 1.0
  {
    if Wrap64(upper - lower) != 0 {
      assert Wrap64(upper - lower) == upper - lower;
      FractionInUnit(value as real - lower as real, (upper - lower) as real);
    }
  }

  lemma ScaledWithin(below: nat, pos: real, count: nat, total: nat)
    requires 0.0 <= pos <= 1.0 && below + count <= total
    ensures 0.0 <= Rank(below, pos, count, total) <= 100.0
  {
    if total > 0 {
      var part := below as real + pos * count as real;
      PartOfWidth(pos, count as real);
      FractionInUnit(part, total as real);
      assert Rank(below, pos, count, total) == 100.0 * (part / total as real);
    }
  }

  /** A consistent histogram ranks every value that lies in its own bucket between 0 and 100. */
  lemma PrankWithin(s: State, scale: LogScale, value: nat)
    requires Consistent(s) && InOwnBucket(scale, value)
    ensures 0.0 <= PrankSpec(s, scale, value) <= 100.0
  {
    var bid := BucketId(scale, value);
    if value < s.max && bid < |s.counts| {
      var lower := BucketMin(scale, bid);
      var upper := BucketMax(lower);
      assert lower < U32_MOD;
      PositionInUnit(value, lower, upper);
      PrefixAtMostTotal(s.counts, bid + 1);
      assert Prefix(s.counts, bid + 1) == Prefix(s.counts, bid) + s.counts[bid];
      ScaledWithin(Prefix(s.counts, bid), Position(value, lower, upper), s.counts[bid], s.totalCount);
    }
  }

  /** A value whose bucket is empty and above every recorded bucket ranks 100 * total / total. */
  lemma PrankOfEmptyBucket(s: State, scale: LogScale, value: nat)
    requires Consistent(s) && value < s.max && s.totalCount > 0
    requires BucketId(scale, value) < |s.counts|
    requires forall i :: BucketId(scale, value) <= i < |s.counts| ==> s.counts[i] == 0
    ensures PrankSpec(s, scale, value) == 100.0
  {
    var bid := BucketId(scale, value);
    ZeroSuffix(s.counts, bid, |s.counts|);
    var lower := BucketMin(scale, bid);
    RankOfAll(Prefix(s.counts, bid), Position(value, lower, BucketMax(lower)), s.totalCount);
  }

  lemma RankOfAll(below: nat, pos: real, total: nat)
    requires 0 < below == total
    ensures Rank(below, pos, 0, total) == 100.0
  {
    assert pos * 0 as real == 0.0;
    assert below as real / total as real == 1.0;
    assert 100.0 * (below as real + 0.0) / total as real == 100.0 * (below as real / total as real);
  }

  /** Empty buckets from n up add nothing to the total. */
  lemma {:induction false} ZeroSuffix(s: seq<nat>, n: nat, m: nat)
    requires n <= m <= |s|
    requires forall i :: n <= i < |s| ==> s[i] == 0
    ensures Prefix(s, m) == Prefix(s, n)
    decreases m
  {
    if m > n {
      ZeroSuffix(s, n, m - 1);
    }
  }

  /** heistogram_prank: the running sum of the counts below the value's bucket, then the rank. */
  method Prank(h: Heistogram, scale: LogScale, value: nat) returns (r: real)
    requires h.Valid()
    ensures r == PrankSpec(h.Model(), scale, value)
  {
    if value >= h.max {
      return 100.0;
    }
    var bid := BucketId(scale, value);
    if bid >= h.capacity {
      return 100.0;
    }
    ghost var s := h.Model();
    var cumsum := 0;
    var i := 0;
    while i < bid
      invariant i <= bid
      invariant cumsum == Prefix(s.counts, i)
    {
      assert h.buckets[i] == Get(s.counts, i);
      cumsum := cumsum + h.buckets[i];
      i := i + 1;
    }
    var lower := BucketMin(scale, bid);
    var upper := BucketMax(lower);
    var pos := Position(value, lower, upper);
    assert h.buckets[bid] == s.counts[bid];
    r := Rank(cumsum, pos, h.buckets[bid], h.totalCount);
  }
}
