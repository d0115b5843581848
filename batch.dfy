/**
  heistogram_percentiles and heistogram_percentiles_serialized: many percentiles in
  one walk down the buckets. The requested percentiles are copied and exchange-sorted
  into descending order, each sorted value is mapped back to the first position in
  the request that holds it, and the walk answers the sorted percentiles in turn,
  since a larger percentile is answered no lower than a smaller one.

  Neither function checks the range of p: each answer is PercentileCore (live) or
  PercentileSerializedSpec (serialized) of the requested value. A value requested
  twice is answered only at its first position; the later positions keep what the
  caller's array held.
*/
module Batch {
  import opened Varint
  import opened Runs
  import opened Buckets
  import opened Counters
  import opened Histogram
  import opened Wire
  import opened Percentile

  /** Larger percentiles first. */
  predicate SortedDesc(s: seq<real>)
  {
    forall i, j :: 0 <= i < j < |s| ==> s[i] >= s[j]
  }

  /** Position j holds the first occurrence of its value in `ps`. */
  predicate IsFirst(ps: seq<real>, j: int)
  {
    0 <= j < |ps| && forall k :: 0 <= k < j ==> ps[k] != ps[j]
  }

  /** Two first occurrences of the same value are the same position. */
  lemma FirstIsUnique(ps: seq<real>, j: int, j': int)
    requires IsFirst(ps, j) && IsFirst(ps, j') && ps[j] == ps[j']
    ensures j == j'
  {
  }

  /** The exchange sort of the batch functions, in place on the copy of the request. */
  method SortDescending(a: array<real>)
    modifies a
    ensures SortedDesc(a[..]) && multiset(a[..]) == multiset(old(a[..]))
  {
    var i := 0;
    while i < a.Length
      invariant 0 <= i <= a.Length
      invariant multiset(a[..]) == multiset(old(a[..]))
      invariant forall x, y :: 0 <= x < y < i ==> a[x] >= a[y]
      invariant forall x, y :: 0 <= x < i <= y < a.Length ==> a[x] >= a[y]
    {
      PlaceLargest(a, i);
      i := i + 1;
    }
  }

  /** The inner loop of the exchange sort: moves the largest of a[i..] to position i. */
  method PlaceLargest(a: array<real>, i: nat)
    requires i < a.Length
    requires forall x, y :: 0 <= x < i <= y < a.Length ==> a[x] >= a[y]
    modifies a
    ensures a[..i] == old(a[..i]) && multiset(a[..]) == multiset(old(a[..]))
    ensures forall y :: i < y < a.Length ==> a[i] >= a[y]
    ensures forall x, y :: 0 <= x < i <= y < a.Length ==> a[x] >= a[y]
  {
    var j := i + 1;
    while j < a.Length
      invariant i < j <= a.Length
      invariant a[..i] == old(a[..i]) && multiset(a[..]) == multiset(old(a[..]))
      invariant forall y :: i < y < j ==> a[i] >= a[y]
      invariant forall x, y :: 0 <= x < i <= y < a.Length ==> a[x] >= a[y]
    {
      if a[i] < a[j] {
        Swap(a, i, j);
      }
      j := j + 1;
    }
  }

  /** The exchange of p_sorted[i] and p_sorted[j]. */
  method Swap(a: array<real>, i: nat, j: nat)
    requires i < j < a.Length
    modifies a
    ensures a[..] == old(a[..])[i := old(a[j])][j := old(a[i])]
    ensures multiset(a[..]) == multiset(old(a[..]))
  {
    a[i], a[j] := a[j], a[i];
  }

  /** The search of the index mapping: the first position of `ps` that holds `x`. */
  method FindFirst(ps: seq<real>, x: real) returns (j: nat)
    requires x in ps
    ensures j < |ps| && ps[j] == x && IsFirst(ps, j)
  {
    j := 0;
    while ps[j] != x
      invariant j < |ps| && x in ps[j..]
      invariant forall k :: 0 <= k < j ==> ps[k] != x
      decreases |ps| - j
    {
      j := j + 1;
    }
  }

  /** Each sorted percentile is mapped to the first position in the request that holds it. */
  predicate Indexed(sorted: seq<real>, idx: seq<nat>, ps: seq<real>)
  {
    |idx| == |sorted|
    && forall k :: 0 <= k < |idx| ==> idx[k] < |ps| && ps[idx[k]] == sorted[k] && IsFirst(ps, idx[k])
  }

  /** The mapping from sorted to original positions (p_indices). */
  method IndexMap(sorted: array<real>, ps: seq<real>) returns (idx: array<nat>)
    requires forall k :: 0 <= k < sorted.Length ==> sorted[k] in ps
    ensures fresh(idx) && Indexed(sorted[..], idx[..], ps)
  {
    idx := new nat[sorted.Length];
    var i := 0;
    while i < sorted.Length
      invariant 0 <= i <= sorted.Length
      invariant forall k :: 0 <= k < i ==> idx[k] < |ps| && ps[idx[k]] == sorted[k] && IsFirst(ps, idx[k])
    {
      idx[i] := FindFirst(ps, sorted[i]);
      i := i + 1;
    }
  }

  /** Every first position of the request is the target of some sorted percentile. */
  lemma SlotOf(sorted: seq<real>, idx: seq<nat>, ps: seq<real>, j: int) returns (k: nat)
    requires multiset(sorted) == multiset(ps) && Indexed(sorted, idx, ps) && IsFirst(ps, j)
    ensures k < |idx| && idx[k] == j && sorted[k] == ps[j]
  {
    assert ps[j] in multiset(sorted);
    k :| 0 <= k < |sorted| && sorted[k] == ps[j];
    FirstIsUnique(ps, idx[k], j);
  }

  /** What the batch loops share: the request sorted in descending order and mapped back. */
  predicate Setup(sorted: seq<real>, idx: seq<nat>, ps: seq<real>)
  {
    SortedDesc(sorted) && Indexed(sorted, idx, ps)
  }

  /**
    The results after the first `cur` sorted percentiles are answered: their slots
    hold `answer` of their percentile, the slots of the rest hold either what they
    held before or their answer (a duplicate may have answered them), and no slot
    that is not a first occurrence has been written.
  */
  predicate Progress(results: seq<real>, before: seq<real>, ps: seq<real>, idx: seq<nat>, sorted: seq<real>,
                     answer: real -> real, cur: nat)
    requires |results| == |before| == |ps| && |idx| == |sorted| && cur <= |sorted|
    requires forall k :: 0 <= k < |idx| ==> idx[k] < |ps|
  {
    (forall k :: 0 <= k < cur ==> results[idx[k]] == answer(sorted[k]))
    && (forall k :: cur <= k < |sorted| ==> results[idx[k]] == before[idx[k]] || results[idx[k]] == answer(sorted[k]))
    && (forall j :: 0 <= j < |ps| && !IsFirst(ps, j) ==> results[j] == before[j])
  }

  /**
    The inner while loop of both walks, inside a non-empty bucket: answers sorted
    percentiles from `cur` on while the running sum with this bucket's count reaches
    their target, and stops at the first one it does not reach.
  */
  method AnswerBucket(scale: LogScale, id: nat, count: nat, cumsum: nat, total: nat, min: nat, max: nat,
                      sorted: array<real>, idx: array<nat>, results: array<real>, cur: nat,
                      ghost ps: seq<real>, ghost before: seq<real>, ghost answer: real -> real)
    returns (next: nat)
    requires count > 0 && Setup(sorted[..], idx[..], ps) && sorted != results
    requires results.Length == |before| == |ps| && cur <= sorted.Length
    requires forall k :: cur <= k < sorted.Length && (cumsum + count) as real >= Target(sorted[k], total) ==>
      answer(sorted[k]) == Interpolate(scale, id, count, cumsum, Target(sorted[k], total), min, max)
    requires Progress(results[..], before, ps, idx[..], sorted[..], answer, cur)
    modifies results
    ensures cur <= next <= sorted.Length
    ensures next < sorted.Length ==> (cumsum + count) as real < Target(sorted[next], total)
    ensures Progress(results[..], before, ps, idx[..], sorted[..], answer, next)
  {
    next := cur;
    while next < sorted.Length && (cumsum + count) as real >= Target(sorted[next], total)
      invariant cur <= next <= sorted.Length
      invariant Progress(results[..], before, ps, idx[..], sorted[..], answer, next)
    {
      var p := sorted[next];
      var v := Interpolate(scale, id, count, cumsum, Target(p, total), min, max);
      assert answer(p) == v;
      Answer(results, idx, next, v, ps, before, sorted[..], answer);
      next := next + 1;
    }
  }

  /** results[p_indices[current_p]] = v, for the sorted percentile `cur` whose answer v is. */
  method Answer(results: array<real>, idx: array<nat>, cur: nat, v: real,
                ghost ps: seq<real>, ghost before: seq<real>, ghost sorted: seq<real>, ghost answer: real -> real)
    requires Setup(sorted, idx[..], ps) && results.Length == |before| == |ps|
    requires cur < |sorted| && answer(sorted[cur]) == v
    requires Progress(results[..], before, ps, idx[..], sorted, answer, cur)
    modifies results
    ensures Progress(results[..], before, ps, idx[..], sorted, answer, cur + 1)
  {
    ProgressStep(results[..], before, ps, idx[..], sorted, answer, cur);
    results[idx[cur]] := v;
  }

  /** Writing the answer of sorted percentile `cur` to its slot answers it and keeps the rest. */
  lemma ProgressStep(results: seq<real>, before: seq<real>, ps: seq<real>, idx: seq<nat>, sorted: seq<real>,
                     answer: real -> real, cur: nat)
    requires Setup(sorted, idx, ps) && |results| == |before| == |ps|
    requires cur < |sorted| && Progress(results, before, ps, idx, sorted, answer, cur)
    ensures Progress(results[idx[cur] := answer(sorted[cur])], before, ps, idx, sorted, answer, cur + 1)
  {
    var slot := idx[cur];
    forall k | 0 <= k < |sorted| && idx[k] == slot
      ensures sorted[k] == sorted[cur]
    {
      assert sorted[k] == ps[slot];
    }
    assert IsFirst(ps, slot);
  }

  /** The closing loop of both functions: every sorted percentile left gets `v`. */
  method AnswerRest(v: real, sorted: array<real>, idx: array<nat>, results: array<real>, cur: nat,
                    ghost ps: seq<real>, ghost before: seq<real>, ghost answer: real -> real)
    requires Setup(sorted[..], idx[..], ps) && sorted != results
    requires results.Length == |before| == |ps| && cur <= sorted.Length
    requires forall k :: cur <= k < sorted.Length ==> answer(sorted[k]) == v
    requires Progress(results[..], before, ps, idx[..], sorted[..], answer, cur)
    modifies results
    ensures Progress(results[..], before, ps, idx[..], sorted[..], answer, sorted.Length)
  {
    var next := cur;
    while next < idx.Length
      invariant cur <= next <= sorted.Length
      invariant Progress(results[..], before, ps, idx[..], sorted[..], answer, next)
    {
      Answer(results, idx, next, v, ps, before, sorted[..], answer);
      next := next + 1;
    }
  }

  /** The pending sorted percentiles, from `cur` on, are still answered by the live scan from bucket `i`. */
  predicate Scanning(scale: LogScale, s: State, sorted: seq<real>, answer: real -> real, cur: nat, i: int, cumsum: nat)
  {
    forall k :: cur <= k < |sorted| ==>
      ScanCounts(scale, s.counts, i, cumsum, Target(sorted[k], s.totalCount), s.min, s.max) == answer(sorted[k])
  }

  /** A bucket none of the pending targets is reached in is passed over by every pending scan. */
  lemma PassBucket(scale: LogScale, s: State, sorted: seq<real>, answer: real -> real, cur: nat, i: int, cumsum: nat)
    requires SortedDesc(sorted) && i >= 0
    requires Scanning(scale, s, sorted, answer, cur, i, cumsum)
    requires cur < |sorted| && Get(s.counts, i) > 0 ==> (cumsum + Get(s.counts, i)) as real < Target(sorted[cur], s.totalCount)
    ensures Scanning(scale, s, sorted, answer, cur, i - 1, cumsum + Get(s.counts, i))
  {
    forall k | cur <= k < |sorted|
      ensures ScanCounts(scale, s.counts, i - 1, cumsum + Get(s.counts, i), Target(sorted[k], s.totalCount), s.min, s.max)
        == answer(sorted[k])
    {
      TargetAntitone(sorted[cur], sorted[k], s.totalCount);
    }
  }

  /** The bucket walk of heistogram_percentiles, from capacity - 1 (as an int16_t) down. */
  method ScanAnswers(h: Heistogram, scale: LogScale, sorted: array<real>, idx: array<nat>, results: array<real>,
                     ghost ps: seq<real>, ghost s: State)
    requires h.Valid() && s == h.Model() && Setup(sorted[..], idx[..], ps) && results.Length == |ps| && sorted != results
    modifies results
    ensures Progress(results[..], old(results[..]), ps, idx[..], sorted[..], p => PercentileCore(s, scale, p), sorted.Length)
  {
    ghost var answer := p => PercentileCore(s, scale, p);
    ghost var before := results[..];
    var cur: nat := 0;
    var cumsum: nat := 0;
    var i := I16(h.capacity - 1);
    while i >= 0 && cur < sorted.Length
      invariant i < h.capacity && cur <= sorted.Length
      invariant Progress(results[..], before, ps, idx[..], sorted[..], answer, cur)
      invariant Scanning(scale, s, sorted[..], answer, cur, i, cumsum)
      decreases i + 1
    {
      cur, cumsum := LiveBucket(h, scale, i, cumsum, sorted, idx, results, cur, ps, before, s, answer);
      i := i - 1;
    }
    AnswerRest(h.min as real, sorted, idx, results, cur, ps, before, answer);
  }

  /** One bucket of the walk of heistogram_percentiles: answers what it can, then adds its count. */
  method LiveBucket(h: Heistogram, scale: LogScale, i: nat, cumsum: nat, sorted: array<real>, idx: array<nat>,
                    results: array<real>, cur: nat, ghost ps: seq<real>, ghost before: seq<real>, ghost s: State,
                    ghost answer: real -> real)
    returns (next: nat, sum: nat)
    requires h.Valid() && s == h.Model() && i < h.capacity
    requires Setup(sorted[..], idx[..], ps) && results.Length == |before| == |ps| && sorted != results && cur <= sorted.Length
    requires Progress(results[..], before, ps, idx[..], sorted[..], answer, cur)
    requires Scanning(scale, s, sorted[..], answer, cur, i, cumsum)
    modifies results
    ensures next <= sorted.Length && sum == cumsum + Get(s.counts, i)
    ensures Progress(results[..], before, ps, idx[..], sorted[..], answer, next)
    ensures Scanning(scale, s, sorted[..], answer, next, i - 1, sum)
  {
    var count := h.buckets[i];
    assert count == Get(s.counts, i);
    next := cur;
    if count > 0 {
      next := AnswerBucket(scale, i, count, cumsum, h.totalCount, h.min, h.max, sorted, idx, results, cur, ps, before, answer);
    }
    PassBucket(scale, s, sorted[..], answer, next, i, cumsum);
    sum := cumsum + count;
  }

  /**
    The set-up both batch functions share: the request copied into p_sorted and
    exchange-sorted, then mapped back to first positions.
  */
  method Prepare(ps: seq<real>) returns (sorted: array<real>, idx: array<nat>)
    ensures fresh(sorted) && fresh(idx) && Setup(sorted[..], idx[..], ps)
    ensures multiset(sorted[..]) == multiset(ps)
  {
    sorted := new real[|ps|](k requires 0 <= k < |ps| => ps[k]);
    assert sorted[..] == ps;
    SortDescending(sorted);
    forall k | 0 <= k < sorted.Length
      ensures sorted[k] in ps
    {
      assert sorted[k] in multiset(sorted[..]);
    }
    idx := IndexMap(sorted, ps);
  }

  /**
    Once every sorted percentile is answered, every first occurrence in the request
    holds the answer of its percentile, and every other slot what it held before.
  */
  lemma Answered(results: seq<real>, before: seq<real>, ps: seq<real>, idx: seq<nat>, sorted: seq<real>,
                 answer: real -> real)
    requires Setup(sorted, idx, ps) && multiset(sorted) == multiset(ps) && |results| == |before| == |ps|
    requires Progress(results, before, ps, idx, sorted, answer, |sorted|)
    ensures forall j :: IsFirst(ps, j) ==> results[j] == answer(ps[j])
    ensures forall j :: 0 <= j < |ps| && !IsFirst(ps, j) ==> results[j] == before[j]
  {
    forall j | IsFirst(ps, j)
      ensures results[j] == answer(ps[j])
    {
      var k := SlotOf(sorted, idx, ps, j);
    }
  }

  /**
    heistogram_percentiles: every first occurrence of a requested percentile gets
    the answer of the single-percentile scan (without its range check); the other
    slots are left as they were.
  */
  method Percentiles(h: Heistogram, scale: LogScale, ps: seq<real>, results: array<real>)
    requires h.Valid() && results.Length == |ps|
    modifies results
    ensures forall j :: IsFirst(ps, j) ==> results[j] == PercentileCore(h.Model(), scale, ps[j])
    ensures forall j :: 0 <= j < |ps| && !IsFirst(ps, j) ==> results[j] == old(results[j])
  {
    if |ps| == 0 {
      return;
    }
    var sorted, idx := Prepare(ps);
    ghost var s := h.Model();
    ScanAnswers(h, scale, sorted, idx, results, ps, s);
    Answered(results[..], old(results[..]), ps, idx[..], sorted[..], p => PercentileCore(s, scale, p));
  }

  /** The pending sorted percentiles are still answered by the serialized scan from bucket `i`, read at `ptr`. */
  predicate ScanningBytes(scale: LogScale, buf: seq<byte>, hd: Header, sorted: seq<real>, answer: real -> real,
                          cur: nat, ptr: nat, i: int, cumsum: nat)
  {
    forall k :: cur <= k < |sorted| ==>
      ScanBytes(scale, buf, ptr, i, hd.minBucketId, cumsum, Target(sorted[k], hd.totalCount), hd.min, hd.max)
        == answer(sorted[k])
  }

  /** A decoded bucket none of the pending targets is reached in is passed over by every pending scan. */
  lemma PassBytes(scale: LogScale, buf: seq<byte>, hd: Header, sorted: seq<real>, answer: real -> real,
                  cur: nat, ptr: nat, i: int, cumsum: nat, count: nat, n: nat)
    requires SortedDesc(sorted) && i >= hd.minBucketId && Decode(buf, ptr) == Some((count, n))
    requires ScanningBytes(scale, buf, hd, sorted, answer, cur, ptr, i, cumsum)
    requires cur < |sorted| && count > 0 ==> (cumsum + count) as real < Target(sorted[cur], hd.totalCount)
    ensures ScanningBytes(scale, buf, hd, sorted, answer, cur, ptr + n, i - 1, cumsum + count)
  {
    forall k | cur <= k < |sorted|
      ensures ScanBytes(scale, buf, ptr + n, i - 1, hd.minBucketId, cumsum + count, Target(sorted[k], hd.totalCount), hd.min, hd.max)
        == answer(sorted[k])
    {
      TargetAntitone(sorted[cur], sorted[k], hd.totalCount);
    }
  }

  /**
    One bucket of the walk of heistogram_percentiles_serialized: decodes its count
    at `ptr`, answers what it can and adds the count; `ok` is false when the buffer
    ends inside the varint, and then every pending answer is 0.
  */
  method BytesBucket(buf: seq<byte>, scale: LogScale, hd: Header, i: nat, ptr: nat, cumsum: nat,
                     sorted: array<real>, idx: array<nat>, results: array<real>, cur: nat,
                     ghost ps: seq<real>, ghost before: seq<real>, ghost answer: real -> real)
    returns (ok: bool, next: nat, after: nat, sum: nat)
    requires i >= hd.minBucketId
    requires Setup(sorted[..], idx[..], ps) && results.Length == |before| == |ps| && sorted != results && cur <= sorted.Length
    requires Progress(results[..], before, ps, idx[..], sorted[..], answer, cur)
    requires ScanningBytes(scale, buf, hd, sorted[..], answer, cur, ptr, i, cumsum)
    modifies results
    ensures ok <==> Decode(buf, ptr).Some?
    ensures ok ==> after == ptr + Decode(buf, ptr).value.1
    ensures next <= sorted.Length && Progress(results[..], before, ps, idx[..], sorted[..], answer, next)
    ensures ok ==> ScanningBytes(scale, buf, hd, sorted[..], answer, next, after, i - 1, sum)
    ensures !ok ==> forall k :: next <= k < sorted.Length ==> answer(sorted[k]) == 0.0
  {
    ghost var order := sorted[..];
    var count, n := DecodeVarint(buf, ptr);
    next := cur;
    if n == 0 {
      return false, next, ptr, cumsum;
    }
    assert Decode(buf, ptr) == Some((count, n));
    if count > 0 {
      next := AnswerBucket(scale, i, count, cumsum, hd.totalCount, hd.min, hd.max, sorted, idx, results, cur, ps, before, answer);
    }
    assert sorted[..] == order;
    PassBytes(scale, buf, hd, order, answer, next, ptr, i, cumsum, count, n);
    return true, next, ptr + n, cumsum + count;
  }

  /**
    The bucket walk of heistogram_percentiles_serialized, from max_bucket_id (as an
    int16_t) down to min_bucket_id. It stops early, leaving the rest unanswered, when
    a bucket varint is cut short; every answer it leaves out is then 0.
  */
  method ScanAnswersBytes(buf: seq<byte>, scale: LogScale, hd: Header, at: nat, sorted: array<real>, idx: array<nat>,
                          results: array<real>, ghost ps: seq<real>, ghost answer: real -> real)
    returns (answered: nat)
    requires Setup(sorted[..], idx[..], ps) && results.Length == |ps| && sorted != results
    requires ScanningBytes(scale, buf, hd, sorted[..], answer, 0, at, Top(hd), 0)
    modifies results
    ensures answered <= sorted.Length
    ensures Progress(results[..], old(results[..]), ps, idx[..], sorted[..], answer, answered)
    ensures forall k :: answered <= k < sorted.Length ==> answer(sorted[k]) == 0.0
    ensures answered < sorted.Length ==> |DecodeRun(buf, at, RunLength(hd)).values| < RunLength(hd)
  {
    ghost var before := results[..];
    ghost var total := RunLength(hd);
    var cur: nat := 0;
    var cumsum: nat := 0;
    var ptr := at;
    var i := I16(MaxBucketId(hd));
    ghost var k := 0;
    ghost var order, slots := sorted[..], idx[..];
    while i >= hd.minBucketId && cur < sorted.Length
      invariant cur <= sorted.Length && i == Top(hd) - k && Walked(buf, at, total, k, ptr)
      invariant sorted[..] == order && idx[..] == slots
      invariant Progress(results[..], before, ps, slots, order, answer, cur)
      invariant ScanningBytes(scale, buf, hd, order, answer, cur, ptr, i, cumsum)
      decreases i - hd.minBucketId + 1
    {
      var ok, from := false, ptr;
      ok, cur, ptr, cumsum := BytesBucket(buf, scale, hd, i, ptr, cumsum, sorted, idx, results, cur, ps, before, answer);
      if !ok {
        WalkStuck(buf, at, total, k, from);
        return cur;
      }
      WalkStep(buf, at, total, k, from);
      i := i - 1;
      k := k + 1;
    }
    AnswerRest(hd.min as real, sorted, idx, results, cur, ps, before, answer);
    answered := sorted.Length;
  }

  /** The walk has decoded the first `k` of `total` bucket varints from `at` and reads on at `ptr`. */
  predicate Walked(buf: seq<byte>, at: nat, total: nat, k: nat, ptr: nat)
  {
    k <= total && k <= |DecodeRun(buf, at, total).values| && ptr == DecodeRun(buf, at, k).end
  }

  /** Decoding the next varint moves the walk on by one. */
  lemma WalkStep(buf: seq<byte>, at: nat, total: nat, k: nat, ptr: nat)
    requires Walked(buf, at, total, k, ptr) && k < total && Decode(buf, ptr).Some?
    ensures Walked(buf, at, total, k + 1, ptr + Decode(buf, ptr).value.1)
  {
    DecodeRunAt(buf, at, total, k);
  }

  /** A varint cut short before all `total` are read means the run is short. */
  lemma WalkStuck(buf: seq<byte>, at: nat, total: nat, k: nat, ptr: nat)
    requires Walked(buf, at, total, k, ptr) && k < total && Decode(buf, ptr).None?
    ensures |DecodeRun(buf, at, total).values| < total
  {
    DecodeRunAt(buf, at, total, k);
  }

  /**
    After a walk that stopped early, every first occurrence in the request holds the
    answer of its percentile, or what it held before when that answer is 0; every
    other slot holds what it held before.
  */
  lemma PartlyAnswered(results: seq<real>, before: seq<real>, ps: seq<real>, idx: seq<nat>, sorted: seq<real>,
                       answer: real -> real, cur: nat)
    requires Setup(sorted, idx, ps) && multiset(sorted) == multiset(ps) && |results| == |before| == |ps|
    requires cur <= |sorted| && Progress(results, before, ps, idx, sorted, answer, cur)
    requires forall k :: cur <= k < |sorted| ==> answer(sorted[k]) == 0.0
    ensures forall j :: IsFirst(ps, j) ==>
      results[j] == answer(ps[j]) || (results[j] == before[j] && answer(ps[j]) == 0.0)
  {
    forall j | IsFirst(ps, j)
      ensures results[j] == answer(ps[j]) || (results[j] == before[j] && answer(ps[j]) == 0.0)
    {
      var k := SlotOf(sorted, idx, ps, j);
    }
  }

  /**
    heistogram_percentiles_serialized: nothing is written when the buffer is under
    3 bytes or its header is cut short; otherwise every first occurrence of a
    requested percentile gets the answer of heistogram_percentile_serialized, except
    that a bucket varint cut short stops the walk and leaves the slots still pending
    (whose answer is then 0) as they were. On a buffer heistogram_deserialize accepts
    every first occurrence is answered.
  */
  method PercentilesSerialized(buf: seq<byte>, scale: LogScale, ps: seq<real>, results: array<real>)
    requires results.Length == |ps|
    modifies results
    ensures |buf| < 3 || DecodeHeader(buf).None? ==> results[..] == old(results[..])
    ensures forall j :: 0 <= j < |ps| && !IsFirst(ps, j) ==> results[j] == old(results[j])
    ensures forall j :: IsFirst(ps, j) ==>
      results[j] == PercentileSerializedSpec(buf, scale, ps[j])
      || (results[j] == old(results[j]) && PercentileSerializedSpec(buf, scale, ps[j]) == 0.0)
    ensures |buf| >= 3 && DeserializeSpec(buf).Some? ==>
      forall j :: IsFirst(ps, j) ==> results[j] == PercentileSerializedSpec(buf, scale, ps[j])
  {
    if |buf| < 3 || |ps| == 0 {
      return;
    }
    var header := DecodeHeader(buf);
    if header.None? {
      return;
    }
    var hd, at := header.value.0, header.value.1;
    var sorted, idx := Prepare(ps);
    ghost var answer := p => PercentileSerializedSpec(buf, scale, p);
    assert ScanningBytes(scale, buf, hd, sorted[..], answer, 0, at, Top(hd), 0);
    var answered := ScanAnswersBytes(buf, scale, hd, at, sorted, idx, results, ps, answer);
    PartlyAnswered(results[..], old(results[..]), ps, idx[..], sorted[..], answer, answered);
    DeserializeAfterHeader(buf, hd, at);
    if answered == sorted.Length {
      Answered(results[..], old(results[..]), ps, idx[..], sorted[..], answer);
    }
  }
}
