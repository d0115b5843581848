/**
  The counter store (the Heistogram struct, heistogram_create, heistogram_add, the
  getters) and the two merges of live histograms.

  State is the value a live histogram stands for: its bucket counts up to its
  capacity and its four summary fields. The class Heistogram keeps the same data in
  fields and an array, as the struct does, and each of its methods is specified by a
  function on State.
*/
module Histogram {
  import opened Buckets
  import opened Counters

  const INITIAL_CAPACITY: nat := 16
  /** heistogram_add grows the bucket array to the new id plus this many slots. */
  const GROWTH_HEADROOM: nat := 16

  /** counts[i] is the count of bucket i; |counts| is the capacity. */
  datatype State = State(minBucketId: nat, totalCount: nat, min: nat, max: nat, counts: seq<nat>)

  /** The state heistogram_create returns. */
  function Empty(): (s: State)
    ensures |s.counts| == INITIAL_CAPACITY && Total(s.counts) == 0
  {
    var s := State(0, 0, 0, 0, Zeros(INITIAL_CAPACITY));
    assert Total(s.counts) == 0 by { PrefixPastEnd([], INITIAL_CAPACITY); PrefixAgree(s.counts, [], INITIAL_CAPACITY); }
    s
  }

  /**
    The invariant every histogram built by create, add and the merges keeps: the
    total is the sum of the buckets, and no bucket below minBucketId holds a count.
  */
  predicate Consistent(s: State)
  {
    s.totalCount == Total(s.counts) && EmptyBelow(s.counts, s.minBucketId)
  }

  /** heistogram_add: the state after recording `value`. */
  function AddSpec(s: State, scale: LogScale, value: nat): (r: State)
    ensures var bid := BucketId(scale, value);
      |r.counts| == (if bid >= |s.counts| then bid + GROWTH_HEADROOM else |s.counts|)
    ensures var bid := BucketId(scale, value);
      forall i :: 0 <= i < |r.counts| ==> r.counts[i] == Get(s.counts, i) + (if i == bid then 1 else 0)
    ensures r.totalCount == s.totalCount + 1
    ensures s.totalCount == 0 ==>
      r.min == value && r.max == value && r.minBucketId == BucketId(scale, value)
    ensures s.totalCount > 0 ==>
      r.min == Min(s.min, value) && r.max == Max(s.max, value) && r.minBucketId == Min(s.minBucketId, BucketId(scale, value))
  {
    var bid := BucketId(scale, value);
    var grown := if bid >= |s.counts| then Padded(s.counts, bid + GROWTH_HEADROOM) else s.counts;
    if s.totalCount == 0 then
      State(bid, 1, value, value, grown[bid := grown[bid] + 1])
    else
      State(Min(s.minBucketId, bid), s.totalCount + 1, Min(s.min, value), Max(s.max, value),
            grown[bid := grown[bid] + 1])
  }

  /** Adding a value keeps the store consistent. */
  lemma AddConsistent(s: State, scale: LogScale, value: nat)
    requires Consistent(s)
    ensures Consistent(AddSpec(s, scale, value))
  {
    var bid := BucketId(scale, value);
    var r := AddSpec(s, scale, value);
    var grown := if bid >= |s.counts| then Padded(s.counts, bid + GROWTH_HEADROOM) else s.counts;
    assert r.counts == grown[bid := grown[bid] + 1];
    PrefixAgree(grown, s.counts, |grown|);
    PrefixPastEnd(s.counts, |grown|);
    BumpedPrefix(grown, bid, |grown|);
    if s.totalCount == 0 {
      forall i | 0 <= i < |s.counts| ensures s.counts[i] == 0 {
        ZeroPrefix(s.counts, |s.counts|, i);
      }
    }
  }

  /** heistogram_merge: a new histogram holding both operands. */
  function MergeSpec(a: State, b: State): (r: State)
    ensures |r.counts| == Max(INITIAL_CAPACITY, Max(|a.counts|, |b.counts|))
    ensures forall i :: 0 <= i < |r.counts| ==> r.counts[i] == Get(a.counts, i) + Get(b.counts, i)
    ensures r.totalCount == a.totalCount + b.totalCount
    ensures r.min == Min(a.min, b.min) && r.max == Max(a.max, b.max)
    ensures r.minBucketId == Min(a.minBucketId, b.minBucketId)
  {
    var n := Max(INITIAL_CAPACITY, Max(|a.counts|, |b.counts|));
    State(Min(a.minBucketId, b.minBucketId), a.totalCount + b.totalCount,
          Min(a.min, b.min), Max(a.max, b.max), Merged(a.counts, b.counts, n))
  }

  /** heistogram_merge_inplace: the first operand after the second is added into it. */
  function MergeIntoSpec(a: State, b: State): (r: State)
    ensures |r.counts| == Max(|a.counts|, |b.counts|)
    ensures forall i :: 0 <= i < |r.counts| ==> r.counts[i] == Get(a.counts, i) + Get(b.counts, i)
    ensures r.totalCount == a.totalCount + b.totalCount
    ensures r.min == Min(a.min, b.min) && r.max == Max(a.max, b.max)
    ensures r.minBucketId == Min(a.minBucketId, b.minBucketId)
  {
    State(Min(a.minBucketId, b.minBucketId), a.totalCount + b.totalCount,
          Min(a.min, b.min), Max(a.max, b.max), Merged(a.counts, b.counts, Max(|a.counts|, |b.counts|)))
  }

  /** Both merges keep the store consistent. */
  lemma MergeConsistent(a: State, b: State)
    requires Consistent(a) && Consistent(b)
    ensures Consistent(MergeSpec(a, b)) && Consistent(MergeIntoSpec(a, b))
  {
    MergedTotal(a.counts, b.counts, Max(INITIAL_CAPACITY, Max(|a.counts|, |b.counts|)));
    MergedTotal(a.counts, b.counts, Max(|a.counts|, |b.counts|));
  }

  /** The in-place merge and the merge into a new histogram agree on every bucket. */
  lemma MergeIntoAgrees(a: State, b: State)
    ensures forall i :: Get(MergeIntoSpec(a, b).counts, i) == Get(MergeSpec(a, b).counts, i)
    ensures MergeIntoSpec(a, b).totalCount == MergeSpec(a, b).totalCount
    ensures MergeIntoSpec(a, b).min == MergeSpec(a, b).min && MergeIntoSpec(a, b).max == MergeSpec(a, b).max
  {
  }

  /** Merging a histogram into itself doubles every bucket and the total and keeps the summary bounds. */
  lemma MergeIntoSelf(a: State)
    ensures |MergeIntoSpec(a, a).counts| == |a.counts|
    ensures forall i :: 0 <= i < |a.counts| ==> MergeIntoSpec(a, a).counts[i] == 2 * a.counts[i]
    ensures MergeIntoSpec(a, a).totalCount == 2 * a.totalCount
    ensures MergeIntoSpec(a, a).min == a.min && MergeIntoSpec(a, a).max == a.max
    ensures MergeIntoSpec(a, a).minBucketId == a.minBucketId
  {
  }

  class Heistogram {
    var capacity: nat
    var minBucketId: nat
    var totalCount: nat
    var min: nat
    var max: nat
    /** Allocated slots; only the first `capacity` are part of the histogram. */
    var buckets: array<nat>

    ghost predicate Valid()
      reads this
    {
      capacity <= buckets.Length
    }

    ghost function Model(): State
      reads this, buckets
      requires Valid()
    {
      State(minBucketId, totalCount, min, max, buckets[..capacity])
    }

    /** heistogram_create (allocation failure is not modelled). */
    constructor ()
      ensures Valid() && fresh(buckets) && buckets.Length == capacity && Model() == Empty()
    {
      capacity := INITIAL_CAPACITY;
      totalCount := 0;
      max := 0;
      min := 0;
      minBucketId := 0;
      buckets := new nat[INITIAL_CAPACITY](_ => 0);
      new;
      assert buckets[..capacity] == Zeros(INITIAL_CAPACITY);
    }

    /** heistogram_count */
    function Count(): (c: nat)
      reads this, buckets
      requires Valid()
      ensures c == Model().totalCount
    {
      totalCount
    }

    /** heistogram_min */
    function Min(): (m: nat)
      reads this, buckets
      requires Valid()
      ensures m == Model().min
    {
      min
    }

    /** heistogram_max */
    function Max(): (m: nat)
      reads this, buckets
      requires Valid()
      ensures m == Model().max
    {
      max
    }

    /**
      The realloc-and-memset step the operations share: a fresh array of `length`
      slots that starts with the current buckets and is zero past the capacity.
      The capacity field is left to the caller.
    */
    method Reserve(length: nat)
      requires Valid() && capacity <= length
      modifies this
      ensures Valid() && fresh(buckets) && buckets.Length == length
      ensures forall i :: 0 <= i < length ==> buckets[i] == Get(old(buckets[..capacity]), i)
      ensures capacity == old(capacity) && minBucketId == old(minBucketId) && totalCount == old(totalCount)
      ensures min == old(min) && max == old(max)
    {
      var grown := new nat[length](_ => 0);
      var i := 0;
      while i < capacity
        modifies grown
        invariant 0 <= i <= capacity
        invariant forall k :: 0 <= k < i ==> grown[k] == buckets[k]
        invariant forall k :: capacity <= k < length ==> grown[k] == 0
      {
        grown[i] := buckets[i];
        i := i + 1;
      }
      buckets := grown;
    }

    /** heistogram_add */
    method Add(value: nat, scale: LogScale)
      requires Valid()
      modifies this, buckets
      ensures Valid() && Model() == AddSpec(old(Model()), scale, value)
    {
      ghost var before := Model();
      var bid := BucketId(scale, value);
      Observe(value, bid);
      if bid >= capacity {
        var newCapacity := bid + GROWTH_HEADROOM;
        Reserve(newCapacity);
        capacity := newCapacity;
      }
      ghost var grown := buckets[..capacity];
      assert grown == if bid >= |before.counts| then Padded(before.counts, bid + GROWTH_HEADROOM) else before.counts;
      buckets[bid] := buckets[bid] + 1;
      totalCount := totalCount + 1;
      assert buckets[..capacity] == grown[bid := grown[bid] + 1];
    }

    /** The summary step of heistogram_add: the first value sets min, max and min_bucket_id, later ones widen them. */
    method Observe(value: nat, bid: nat)
      modifies this
      ensures buckets == old(buckets) && capacity == old(capacity) && totalCount == old(totalCount)
      ensures old(totalCount) == 0 ==> min == value && max == value && minBucketId == bid
      ensures old(totalCount) > 0 ==>
        min == Counters.Min(old(min), value) && max == Counters.Max(old(max), value)
        && minBucketId == Counters.Min(old(minBucketId), bid)
    {
      if totalCount == 0 {
        min := value;
        max := value;
        minBucketId := bid;
      } else {
        if min > value { min := value; }
        if max < value { max := value; }
        if bid < minBucketId { minBucketId := bid; }
      }
    }

    /**
      heistogram_merge_inplace: adds `other` into this histogram and returns 1.
      `other` may be this histogram itself, which doubles every bucket and the total.
    */
    method MergeInPlace(other: Heistogram) returns (status: int)
      requires Valid() && other.Valid()
      modifies this, buckets
      ensures Valid() && status == 1
      ensures Model() == MergeIntoSpec(old(Model()), old(other.Model()))
    {
      ghost var before, added := Model(), other.Model();
      if other.capacity > capacity {
        Reserve(other.capacity);
        capacity := other.capacity;
      }
      assert capacity == Counters.Max(|before.counts|, |added.counts|);
      AddInto(other);
      assert buckets[..capacity] == Merged(before.counts, added.counts, capacity) == MergeIntoSpec(before, added).counts;
      totalCount := totalCount + other.totalCount;
      if other.min < min { min := other.min; }
      if other.max > max { max := other.max; }
      if other.minBucketId < minBucketId { minBucketId := other.minBucketId; }
      status := 1;
    }

    /** The summary assignments that close every merge. */
    method SetSummary(newMinBucketId: nat, newTotal: nat, newMin: nat, newMax: nat)
      requires Valid()
      modifies this
      ensures Valid() && buckets == old(buckets) && capacity == old(capacity)
      ensures Model() == State(newMinBucketId, newTotal, newMin, newMax, old(Model()).counts)
    {
      minBucketId := newMinBucketId;
      totalCount := newTotal;
      min := newMin;
      max := newMax;
    }

    /**
      The loop `buckets[i] += other->buckets[i]` over the other histogram's capacity.
      Step i reads and writes slot i only, so the sums are those of the old counts
      even when `other` shares this histogram's array.
    */
    method AddInto(other: Heistogram)
      requires Valid() && other.Valid() && other.capacity <= capacity
      modifies buckets
      ensures forall i :: 0 <= i < capacity ==> buckets[i] == old(buckets[i]) + Get(old(other.Model()).counts, i)
    {
      var i := 0;
      while i < other.capacity
        invariant 0 <= i <= other.capacity
        invariant forall k :: 0 <= k < capacity ==>
          buckets[k] == old(buckets[k]) + (if k < i then old(other.buckets[k]) else 0)
        invariant forall k :: i <= k < other.capacity ==> other.buckets[k] == old(other.buckets[k])
      {
        buckets[i] := buckets[i] + other.buckets[i];
        i := i + 1;
      }
    }
  }

  /** heistogram_merge: a fresh histogram; neither operand changes (nothing is modified). */
  method Merge(h1: Heistogram, h2: Heistogram) returns (result: Heistogram)
    requires h1.Valid() && h2.Valid()
    ensures fresh(result) && fresh(result.buckets) && result.Valid()
    ensures result.Model() == MergeSpec(h1.Model(), h2.Model())
  {
    ghost var a, b := h1.Model(), h2.Model();
    var maxCapacity := if h1.capacity > h2.capacity then h1.capacity else h2.capacity;
    result := CreateWithCapacity(maxCapacity);
    result.AddInto(h1);
    result.AddInto(h2);
    ghost var merged := Merged(a.counts, b.counts, result.capacity);
    assert result.buckets[..result.capacity] == merged;
    result.SetSummary(
      if h1.minBucketId < h2.minBucketId then h1.minBucketId else h2.minBucketId,
      h1.totalCount + h2.totalCount,
      if h1.min < h2.min then h1.min else h2.min,
      if h1.max > h2.max then h1.max else h2.max);
    assert h1.Model() == a && h2.Model() == b;
  }

  /**
    heistogram_create followed by the growth the merges and deserialize perform when
    they need more than the initial capacity: every bucket is empty.
  */
  method CreateWithCapacity(wanted: nat) returns (h: Heistogram)
    ensures fresh(h) && fresh(h.buckets) && h.Valid()
    ensures h.capacity == Max(INITIAL_CAPACITY, wanted) == h.buckets.Length
    ensures h.Model() == State(0, 0, 0, 0, Zeros(h.capacity))
  {
    h := new Heistogram();
    if wanted > h.capacity {
      h.Reserve(wanted);
      h.capacity := wanted;
    }
    assert h.buckets[..h.capacity] == Zeros(h.capacity);
  }
}
