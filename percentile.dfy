/**
  heistogram_percentile and heistogram_percentile_serialized: walk the buckets from
  the highest id down with a running sum of counts and interpolate inside the first
  non-empty bucket whose running sum reaches the target.

  Doubles are taken as exact reals; the uint64_t difference max_val - min_val keeps
  its 64-bit wrap-around.
*/
module Percentile {
  import opened Varint
  import opened Runs
  import opened Buckets
  import opened Counters
  import opened Histogram
  import opened Wire

  /** ((100 - p) / 100) * total_count: how much of the count, from the top, the answer must cover. */
  function Target(p: real, total: nat): real
  {
    ((100.0 - p) / 100.0) * total as real
  }

  /** For p in [0, 100] the target lies between 0 and total_count. */
  lemma TargetWithin(p: real, total: nat)
    requires 0.0 <= p <= 100.0
    ensures 0.0 <= Target(p, total) <= total as real
  {
    PartOfWidth((100.0 - p) / 100.0, total as real);
  }

  /** A larger percentile never asks for more of the count. */
  lemma TargetAntitone(p: real, q: real, total: nat)
    requires q <= p
    ensures Target(p, total) <= Target(q, total)
  {
    var d := (p - q) / 100.0;
    assert (100.0 - q) / 100.0 == (100.0 - p) / 100.0 + d;
    assert Target(q, total) == Target(p, total) + d * total as real;
    ProductNonNegative(d, total as real);
  }

  lemma ProductNonNegative(a: real, b: real)
    requires 0.0 <= a && 0.0 <= b
    ensures 0.0 <= a * b
  {
  }

  /** get_bucket_min(id), raised to the histogram's min when below it. */
  function ClampedMin(scale: LogScale, id: nat, lo: nat): (v: nat)
    ensures lo <= v
  {
    var m := BucketMin(scale, id);
    if m < lo then lo else m
  }

  /** get_bucket_max(get_bucket_min(id)), lowered to the histogram's max when above it. */
  function ClampedMax(scale: LogScale, id: nat, hi: nat): (v: nat)
    ensures v <= hi && v < 2 * U32_MOD
  {
    var m := BucketMax(BucketMin(scale, id));
    if m > hi then hi else m
  }

  /**
    The answer inside bucket `id`: max_val - pos * (max_val - min_val), where pos is
    how far into the bucket's count the target falls, and the difference is a uint64_t.
  */
  function Interpolate(scale: LogScale, id: nat, count: nat, cumsum: nat, target: real, lo: nat, hi: nat): (r: real)
    requires count > 0
  {
    var pos := (target - cumsum as real) / count as real;
    var upper, lower := ClampedMax(scale, id, hi), ClampedMin(scale, id, lo);
    upper as real - pos * Wrap64(upper - lower) as real
  }

  /** Inside a bucket that covers the target the answer lies between its clamped bounds. */
  lemma InterpolateWithin(scale: LogScale, id: nat, count: nat, cumsum: nat, target: real, lo: nat, hi: nat)
    requires count > 0 && cumsum as real <= target <= (cumsum + count) as real
    requires ClampedMin(scale, id, lo) <= ClampedMax(scale, id, hi)
    ensures var r := Interpolate(scale, id, count, cumsum, target, lo, hi);
      ClampedMin(scale, id, lo) as real <= r <= ClampedMax(scale, id, hi) as real
  {
    var pos := (target - cumsum as real) / count as real;
    var upper, lower := ClampedMax(scale, id, hi), ClampedMin(scale, id, lo);
    var width := (upper - lower) as real;
    assert Wrap64(upper - lower) as real == width;
    FractionInUnit(target - cumsum as real, count as real);
    PartOfWidth(pos, width);
  }

  lemma FractionInUnit(a: real, b: real)
    requires 0.0 <= a <= b && 0.0 < b
    ensures 0.0 <= a / b <= 1.0
  {
  }

  lemma PartOfWidth(pos: real, width: real)
    requires 0.0 <= pos <= 1.0 && 0.0 <= width
    ensures 0.0 <= pos * width <= width
  {
  }

  /**
    The scan of heistogram_percentile from bucket `i` down, with `cumsum` counted so
    far: the first non-empty bucket whose count brings the sum to the target gives
    the answer; past bucket 0 the answer is the histogram's min.
  */
  function ScanCounts(scale: LogScale, counts: seq<nat>, i: int, cumsum: nat, target: real, lo: nat, hi: nat): real
    decreases i + 1
  {
    if i < 0 then lo as real
    else if Get(counts, i) > 0 && (cumsum + Get(counts, i)) as real >= target then
      Interpolate(scale, i, Get(counts, i), cumsum, target, lo, hi)
    else ScanCounts(scale, counts, i - 1, cumsum + Get(counts, i), target, lo, hi)
  }

  /** The percentile scan without the range check on p, as the batch functions run it. */
  function PercentileCore(s: State, scale: LogScale, p: real): real
  {
    ScanCounts(scale, s.counts, I16(|s.counts| - 1), 0, Target(p, s.totalCount), s.min, s.max)
  }

  /** heistogram_percentile: 0 for p outside [0, 100], else the scan from capacity - 1 as an int16_t. */
  function PercentileSpec(s: State, scale: LogScale, p: real): real
  {
    if p < 0.0 || p > 100.0 then 0.0 else PercentileCore(s, scale, p)
  }

  /** heistogram_percentile */
  method Percentile(h: Heistogram, scale: LogScale, p: real) returns (r: real)
    requires h.Valid()
    ensures r == PercentileSpec(h.Model(), scale, p)
  {
    if p < 0.0 || p > 100.0 {
      return 0.0;
    }
    ghost var s := h.Model();
    var target := Target(p, h.totalCount);
    var cumsum := 0;
    var i := I16(h.capacity - 1);
    while i >= 0
      invariant i < h.capacity
      invariant ScanCounts(scale, s.counts, i, cumsum, target, h.min, h.max) == PercentileSpec(s, scale, p)
      decreases i + 1
    {
      var count := h.buckets[i];
      assert count == Get(s.counts, i);
      if count > 0 {
        if (cumsum + count) as real >= target {
          return Interpolate(scale, i, count, cumsum, target, h.min, h.max);
        }
        cumsum := cumsum + count;
      }
      i := i - 1;
    }
    r := h.min as real;
  }

  /** Sum of the counts of buckets j + 1 .. i: what the scan has added when it reaches bucket j. */
  function Above(counts: seq<nat>, j: int, i: int): nat
    decreases i - j
  {
    if i <= j then 0 else Above(counts, j, i - 1) + Get(counts, i)
  }

  /**
    The answer bucket: when `b` is non-empty, its count brings the running sum to the
    target, and no non-empty bucket above it (up to `i`) did, the scan answers inside `b`.
  */
  lemma {:induction false} ScanAnswer(scale: LogScale, counts: seq<nat>, i: int, cumsum: nat, target: real,
                                      lo: nat, hi: nat, b: nat)
    requires b <= i && Get(counts, b) > 0
    requires (cumsum + Above(counts, b, i) + Get(counts, b)) as real >= target
    requires forall j :: b < j <= i && Get(counts, j) > 0 ==> (cumsum + Above(counts, j, i) + Get(counts, j)) as real < target
    ensures ScanCounts(scale, counts, i, cumsum, target, lo, hi)
      == Interpolate(scale, b, Get(counts, b), cumsum + Above(counts, b, i), target, lo, hi)
    decreases i - b
  {
    if i > b {
      AboveStep(counts, b, i);
      assert Get(counts, i) > 0 ==> (cumsum + Above(counts, i, i) + Get(counts, i)) as real < target;
      forall j | b < j <= i - 1 && Get(counts, j) > 0
        ensures (cumsum + Get(counts, i) + Above(counts, j, i - 1) + Get(counts, j)) as real < target
      {
        AboveStep(counts, j, i);
      }
      ScanAnswer(scale, counts, i - 1, cumsum + Get(counts, i), target, lo, hi, b);
    }
  }

  lemma AboveStep(counts: seq<nat>, j: int, i: int)
    requires j < i
    ensures Above(counts, j, i) == Above(counts, j, i - 1) + Get(counts, i)
  {
  }

  /** When no non-empty bucket from `i` down brings the sum to the target, the scan answers min. */
  lemma {:induction false} ScanFallback(scale: LogScale, counts: seq<nat>, i: int, cumsum: nat, target: real, lo: nat, hi: nat)
    requires forall j :: 0 <= j <= i && Get(counts, j) > 0 ==> (cumsum + Above(counts, j, i) + Get(counts, j)) as real < target
    ensures ScanCounts(scale, counts, i, cumsum, target, lo, hi) == lo as real
    decreases i + 1
  {
    if i >= 0 {
      forall j | 0 <= j <= i - 1 && Get(counts, j) > 0
        ensures (cumsum + Get(counts, i) + Above(counts, j, i - 1) + Get(counts, j)) as real < target
      {
        AboveStep(counts, j, i);
      }
      ScanFallback(scale, counts, i - 1, cumsum + Get(counts, i), target, lo, hi);
    }
  }

  /** Buckets that are empty from `i` down to just above `j` change nothing. */
  lemma {:induction false} ScanSkipsEmpty(scale: LogScale, counts: seq<nat>, i: int, j: int, cumsum: nat, target: real, lo: nat, hi: nat)
    requires j <= i && forall k :: j < k <= i ==> Get(counts, k) == 0
    ensures ScanCounts(scale, counts, i, cumsum, target, lo, hi) == ScanCounts(scale, counts, j, cumsum, target, lo, hi)
    decreases i - j
  {
    if j < i {
      ScanSkipsEmpty(scale, counts, i - 1, j, cumsum, target, lo, hi);
    }
  }

  /**
    Every non-empty bucket's clamped range is well formed: the recorded values it
    holds lie in [min, max]. The logarithmic region is a parameter, so this is a
    hypothesis about the histogram rather than something the model derives.
  */
  predicate Bracketed(scale: LogScale, counts: seq<nat>, lo: nat, hi: nat)
  {
    forall j :: 0 <= j < |counts| && counts[j] > 0 ==> ClampedMin(scale, j, lo) <= ClampedMax(scale, j, hi)
  }

  /** The scan's answer lies in [min, max] once the running sum has not passed the target. */
  lemma {:induction false} ScanWithin(scale: LogScale, counts: seq<nat>, i: int, cumsum: nat, target: real, lo: nat, hi: nat)
    requires lo <= hi && Bracketed(scale, counts, lo, hi) && cumsum as real <= target
    ensures lo as real <= ScanCounts(scale, counts, i, cumsum, target, lo, hi) <= hi as real
    decreases i + 1
  {
    if i >= 0 {
      var c := Get(counts, i);
      if c > 0 && (cumsum + c) as real >= target {
        assert i < |counts| && counts[i] == c;
        InterpolateWithin(scale, i, c, cumsum, target, lo, hi);
      } else {
        assert (cumsum + c) as real <= target;
        ScanWithin(scale, counts, i - 1, cumsum + c, target, lo, hi);
      }
    }
  }

  /** For p in [0, 100] the percentile of a histogram with min <= max lies in [min, max]. */
  lemma PercentileWithin(s: State, scale: LogScale, p: real)
    requires 0.0 <= p <= 100.0 && s.min <= s.max && Bracketed(scale, s.counts, s.min, s.max)
    ensures s.min as real <= PercentileSpec(s, scale, p) <= s.max as real
  {
    var target := Target(p, s.totalCount);
    TargetWithin(p, s.totalCount);
    assert PercentileSpec(s, scale, p) == ScanCounts(scale, s.counts, I16(|s.counts| - 1), 0, target, s.min, s.max);
    ScanWithin(scale, s.counts, I16(|s.counts| - 1), 0, target, s.min, s.max);
  }

  /**
    The answer bucket of heistogram_percentile: the first non-empty bucket from the
    top whose count brings the running sum to the target.
  */
  lemma PercentileAnswer(s: State, scale: LogScale, p: real, b: nat)
    requires 0.0 <= p <= 100.0
    requires b <= I16(|s.counts| - 1) && Get(s.counts, b) > 0
    requires var top, target := I16(|s.counts| - 1), Target(p, s.totalCount);
      (Above(s.counts, b, top) + Get(s.counts, b)) as real >= target
      && forall j :: b < j <= top && Get(s.counts, j) > 0 ==> (Above(s.counts, j, top) + Get(s.counts, j)) as real < target
    ensures var top, target := I16(|s.counts| - 1), Target(p, s.totalCount);
      PercentileSpec(s, scale, p) == Interpolate(scale, b, Get(s.counts, b), Above(s.counts, b, top), target, s.min, s.max)
  {
    var top, target := I16(|s.counts| - 1), Target(p, s.totalCount);
    ScanAnswer(scale, s.counts, top, 0, target, s.min, s.max, b);
  }

  /** No qualifying bucket: heistogram_percentile returns min. */
  lemma PercentileFallback(s: State, scale: LogScale, p: real)
    requires 0.0 <= p <= 100.0
    requires var top, target := I16(|s.counts| - 1), Target(p, s.totalCount);
      forall j :: 0 <= j <= top && Get(s.counts, j) > 0 ==> (Above(s.counts, j, top) + Get(s.counts, j)) as real < target
    ensures PercentileSpec(s, scale, p) == s.min as real
  {
    ScanFallback(scale, s.counts, I16(|s.counts| - 1), 0, Target(p, s.totalCount), s.min, s.max);
  }

  /** Nothing is counted above the highest non-empty bucket. */
  lemma {:induction false} NothingAbove(counts: seq<nat>, j: int, i: int)
    requires forall k :: j < k <= i ==> Get(counts, k) == 0
    ensures Above(counts, j, i) == 0
    decreases i - j
  {
    if j < i {
      NothingAbove(counts, j, i - 1);
    }
  }

  /** The 100th percentile is the clamped upper bound of the highest non-empty bucket. */
  lemma HundredthPercentile(s: State, scale: LogScale)
    requires |s.counts| <= I16_LIMIT && Highest(s.counts) >= 0
    ensures PercentileSpec(s, scale, 100.0) == ClampedMax(scale, Highest(s.counts), s.max) as real
  {
    var hi := Highest(s.counts);
    HighestIsLast(s.counts);
    var top := I16(|s.counts| - 1);
    assert top == |s.counts| - 1;
    NothingAbove(s.counts, hi, top);
    PercentileAnswer(s, scale, 100.0, hi);
  }

  /**
    The scan of heistogram_percentile_serialized from bucket `i` down to `lo`,
    decoding one varint per bucket at `ptr`: 0 when the buffer ends inside a varint,
    min once the ids run below `lo`.
  */
  function ScanBytes(scale: LogScale, buf: seq<byte>, ptr: nat, i: int, lo: nat, cumsum: nat,
                     target: real, min: nat, max: nat): real
    decreases i - lo + 1
  {
    if i < lo then min as real
    else match Decode(buf, ptr)
      case None => 0.0
      case Some((count, n)) =>
        if count > 0 && (cumsum + count) as real >= target then Interpolate(scale, i, count, cumsum, target, min, max)
        else ScanBytes(scale, buf, ptr + n, i - 1, lo, cumsum + count, target, min, max)
  }

  /**
    heistogram_percentile_serialized: 0 for a buffer under 3 bytes or a header cut
    short, else the scan from max_bucket_id (as an int16_t) down to min_bucket_id.
    Unlike heistogram_percentile it does not check the range of p.
  */
  function PercentileSerializedSpec(buf: seq<byte>, scale: LogScale, p: real): real
  {
    if |buf| < 3 then 0.0
    else match DecodeHeader(buf)
      case None => 0.0
      case Some((hd, at)) =>
        ScanBytes(scale, buf, at, Top(hd), hd.minBucketId, 0, Target(p, hd.totalCount), hd.min, hd.max)
  }

  /** heistogram_percentile_serialized */
  method PercentileSerialized(buf: seq<byte>, scale: LogScale, p: real) returns (r: real)
    ensures r == PercentileSerializedSpec(buf, scale, p)
  {
    if |buf| < 3 {
      return 0.0;
    }
    var header := DecodeHeader(buf);
    if header.None? {
      return 0.0;
    }
    var hd, at := header.value.0, header.value.1;
    r := ScanBuckets(buf, scale, at, I16(MaxBucketId(hd)), hd.minBucketId, Target(p, hd.totalCount), hd.min, hd.max);
  }

  /** The bucket loop of heistogram_percentile_serialized, from id `top` down to `lo`. */
  method ScanBuckets(buf: seq<byte>, scale: LogScale, at: nat, top: int, lo: nat, target: real, min: nat, max: nat)
    returns (r: real)
    ensures r == ScanBytes(scale, buf, at, top, lo, 0, target, min, max)
  {
    var cumsum := 0;
    var ptr := at;
    var i := top;
    while i >= lo
      invariant ScanBytes(scale, buf, ptr, i, lo, cumsum, target, min, max) == ScanBytes(scale, buf, at, top, lo, 0, target, min, max)
      decreases i - lo + 1
    {
      var count, n := DecodeVarint(buf, ptr);
      if n == 0 {
        return 0.0;
      }
      ptr := ptr + n;
      if count > 0 && (cumsum + count) as real >= target {
        return Interpolate(scale, i, count, cumsum, target, min, max);
      }
      cumsum := cumsum + count;
      i := i - 1;
    }
    r := min as real;
  }

  /** The same scan over counts already decoded: `values[0]` is bucket `i`, `values[1]` bucket i - 1, ... */
  function ScanRun(scale: LogScale, values: seq<nat>, i: int, cumsum: nat, target: real, min: nat, max: nat): real
    requires |values| <= i + 1
    decreases |values|
  {
    if values == [] then min as real
    else if values[0] > 0 && (cumsum + values[0]) as real >= target then
      Interpolate(scale, i, values[0], cumsum, target, min, max)
    else ScanRun(scale, values[1..], i - 1, cumsum + values[0], target, min, max)
  }

  /** Scanning the buffer is scanning the run it decodes to, when the whole run decodes. */
  lemma {:induction false} ScanBytesDecoded(scale: LogScale, buf: seq<byte>, ptr: nat, i: int, lo: nat, cumsum: nat,
                                            target: real, min: nat, max: nat, values: seq<nat>)
    requires |values| == i - lo + 1 && DecodeRun(buf, ptr, |values|).values == values
    ensures ScanBytes(scale, buf, ptr, i, lo, cumsum, target, min, max) == ScanRun(scale, values, i, cumsum, target, min, max)
    decreases |values|
  {
    if values != [] {
      DecodeRunHead(buf, ptr, |values|);
      var n := Decode(buf, ptr).value.1;
      ScanBytesDecoded(scale, buf, ptr + n, i - 1, lo, cumsum + values[0], target, min, max, values[1..]);
    }
  }

  /**
    Scanning a snapshot's run from `i` down to `lo` is scanning the counts from `i`
    down to 0, when the counts below `lo` are empty.
  */
  lemma {:induction false} ScanRunCounts(scale: LogScale, counts: seq<nat>, i: int, lo: nat, cumsum: nat,
                                         target: real, min: nat, max: nat)
    requires lo <= i + 1
    requires forall k :: 0 <= k < lo ==> Get(counts, k) == 0
    ensures ScanRun(scale, Descending(counts, i, lo), i, cumsum, target, min, max)
      == ScanCounts(scale, counts, i, cumsum, target, min, max)
    decreases i - lo + 1
  {
    if i < lo {
      ScanSkipsEmpty(scale, counts, i, -1, cumsum, target, min, max);
    } else {
      var run := Descending(counts, i, lo);
      assert run[0] == Get(counts, i) && run[1..] == Descending(counts, i - 1, lo);
      ScanRunCounts(scale, counts, i - 1, lo, cumsum + Get(counts, i), target, min, max);
    }
  }

  /** On a snapshot, heistogram_percentile_serialized scans the snapshot's run from the highest non-empty bucket. */
  lemma SerializedScansRun(s: State, scale: LogScale, p: real)
    requires RoundTrips(s)
    ensures Highest(s.counts) - s.minBucketId + 1 == |SnapshotRun(s)|
    ensures PercentileSerializedSpec(SnapshotBytes(s), scale, p)
      == ScanRun(scale, SnapshotRun(s), Highest(s.counts), 0, Target(p, s.totalCount), s.min, s.max)
  {
    var at := SnapshotLayout(s);
    SnapshotSpan(s);
    ScanBytesDecoded(scale, SnapshotBytes(s), at, Highest(s.counts), s.minBucketId, 0, Target(p, s.totalCount), s.min, s.max,
                     SnapshotRun(s));
  }

  /** The live scan of a consistent histogram is the scan of its snapshot's run. */
  lemma LiveScansRun(s: State, scale: LogScale, p: real)
    requires RoundTrips(s) && Consistent(s)
    ensures Highest(s.counts) - s.minBucketId + 1 == |SnapshotRun(s)|
    ensures PercentileCore(s, scale, p)
      == ScanRun(scale, SnapshotRun(s), Highest(s.counts), 0, Target(p, s.totalCount), s.min, s.max)
  {
    var hi, target := Highest(s.counts), Target(p, s.totalCount);
    HighestIsLast(s.counts);
    SnapshotRunUnnarrowed(s);
    assert forall k :: 0 <= k < s.minBucketId ==> Get(s.counts, k) == 0;
    ScanRunCounts(scale, s.counts, hi, s.minBucketId, 0, target, s.min, s.max);
    ScanSkipsEmpty(scale, s.counts, |s.counts| - 1, hi, 0, target, s.min, s.max);
  }

  /**
    heistogram_percentile_serialized on the snapshot of a histogram agrees with
    heistogram_percentile on the histogram, for every p in [0, 100].
  */
  lemma PercentileSerializedAgrees(s: State, scale: LogScale, p: real)
    requires RoundTrips(s) && Consistent(s) && 0.0 <= p <= 100.0
    ensures PercentileSerializedSpec(SnapshotBytes(s), scale, p) == PercentileSpec(s, scale, p)
  {
    SerializedScansRun(s, scale, p);
    LiveScansRun(s, scale, p);
  }
}
