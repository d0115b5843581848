/**
  The snapshot format of heistogram_serialize, decode_header and heistogram_deserialize.

  A snapshot is five header varints (bucket count, total count, min, max - min,
  min bucket id) followed by one varint per bucket, from the highest non-empty bucket
  down to min_bucket_id. The header fields are narrowed to the C types that receive
  them (uint16_t bucket count and min bucket id), and bucket loops run on int16_t
  indices; U16 and I16 make both conversions explicit.
*/
module Wire {
  import opened Varint
  import opened Runs
  import opened Buckets
  import opened Counters
  import opened Histogram

  const U16_MOD: nat := 0x1_0000
  /** The first value an int16_t cannot hold. */
  const I16_LIMIT: nat := 0x8000
  const HEADER_FIELDS: nat := 5
  /** encode_bucket takes the count as a uint32_t. */
  const COUNT_MOD: nat := 0x1_0000_0000

  /** Conversion to uint16_t. */
  function U16(x: int): (r: nat)
    ensures r < U16_MOD
    ensures 0 <= x < U16_MOD ==> r == x
  {
    x % U16_MOD
  }

  /** Conversion to int16_t (two's complement). */
  function I16(x: int): (r: int)
    ensures -(I16_LIMIT as int) <= r < I16_LIMIT
    ensures -(I16_LIMIT as int) <= x < I16_LIMIT ==> r == x
    ensures 0 <= x < U16_MOD ==> r == (if x < I16_LIMIT then x else x - U16_MOD)
  {
    var u := x % U16_MOD;
    if u < I16_LIMIT then u else u - U16_MOD
  }

  /** Conversion to uint64_t. */
  function Wrap64(x: int): (r: nat)
    ensures r < U64_MOD
    ensures 0 <= x < U64_MOD ==> r == x
  {
    x % U64_MOD
  }

  /** The bucket counts from id `top` down to id `lo`, the order in which a snapshot stores them. */
  function Descending(counts: seq<nat>, top: int, lo: int): (r: seq<nat>)
    decreases top - lo + 1
    ensures |r| == if top >= lo then top - lo + 1 else 0
    ensures forall j :: 0 <= j < |r| ==> r[j] == Get(counts, top - j)
  {
    if top < lo then [] else [Get(counts, top)] + Descending(counts, top - 1, lo)
  }

  /** Every count narrowed to the uint32_t encode_bucket receives. */
  function Narrow(counts: seq<nat>): (r: seq<nat>)
    ensures |r| == |counts| && AllBelow(r, COUNT_MOD)
    ensures forall i :: Get(r, i) == Get(counts, i) % COUNT_MOD
  {
    seq(|counts|, i requires 0 <= i < |counts| => counts[i] % COUNT_MOD)
  }

  /**
    The max_bucket_id scan of heistogram_serialize: from id `i` downwards, the first
    bucket that is not empty, or the first negative id.
  */
  function HighestFrom(counts: seq<nat>, i: int): (r: int)
    decreases i + 1
    ensures r <= i
    ensures r >= 0 ==> Get(counts, r) > 0
    ensures r < 0 ==> r == (if i < 0 then i else -1)
    ensures forall k :: r < k <= i ==> Get(counts, k) == 0
  {
    if i < 0 || Get(counts, i) > 0 then i else HighestFrom(counts, i - 1)
  }

  /** max_bucket_id: the scan starts at (int16_t)(capacity - 1). */
  function Highest(counts: seq<nat>): int
  {
    HighestFrom(counts, I16(|counts| - 1))
  }

  /** The highest bucket that is not empty; there is none exactly when Highest is -1. */
  lemma HighestIsLast(counts: seq<nat>)
    requires |counts| <= I16_LIMIT
    ensures -1 <= Highest(counts) < |counts|
    ensures forall i :: Highest(counts) < i ==> Get(counts, i) == 0
    ensures Highest(counts) >= 0 ==> counts[Highest(counts)] > 0
  {
    var h := Highest(counts);
    forall i | h < i
      ensures Get(counts, i) == 0
    {
      if i <= |counts| - 1 {
        assert h < i <= I16(|counts| - 1);
      }
    }
  }

  /**
    What heistogram_serialize needs of a histogram: a capacity whose last index an
    int16_t holds, min_bucket_id at most one above the highest non-empty bucket
    (so the bucket count is not negative), and 64-bit total and min.
  */
  predicate Serializable(s: State)
  {
    |s.counts| <= I16_LIMIT && s.minBucketId <= Highest(s.counts) + 1
    && s.totalCount < U64_MOD && s.min < U64_MOD
  }

  /** The five header values heistogram_serialize writes. */
  function SnapshotHeader(s: State): (r: seq<nat>)
    requires Serializable(s)
    ensures |r| == HEADER_FIELDS && AllBelow(r, U64_MOD)
    ensures r[0] == |SnapshotRun(s)| && r[4] == s.minBucketId
  {
    assert Highest(s.counts) >= -1 by { HighestIsLast(s.counts); }
    [Highest(s.counts) - s.minBucketId + 1, s.totalCount, s.min, Wrap64(s.max - s.min), s.minBucketId]
  }

  /** The bucket values heistogram_serialize writes: highest non-empty bucket first. */
  function SnapshotRun(s: State): (r: seq<nat>)
    requires Serializable(s)
    ensures AllBelow(r, COUNT_MOD)
    ensures |r| == Highest(s.counts) - s.minBucketId + 1
  {
    assert Highest(s.counts) >= -1 by { HighestIsLast(s.counts); }
    Descending(Narrow(s.counts), Highest(s.counts), s.minBucketId)
  }

  /** heistogram_serialize: the header varints followed by the dense run of buckets. */
  function SnapshotBytes(s: State): (r: seq<byte>)
    requires Serializable(s)
    ensures HEADER_FIELDS <= |r| <= MAX_VARINT_SIZE * HEADER_FIELDS + MAX_VARINT_SIZE * |SnapshotRun(s)|
  {
    EncodeRun(SnapshotHeader(s)) + EncodeRun(SnapshotRun(s))
  }

  datatype Header = Header(bucketCount: nat, totalCount: nat, min: nat, max: nat, minBucketId: nat)

  /**
    decode_header: five varints in order; the second-to-last is max - min, so max
    is rebuilt by adding min. The header and the offset just past it, or None when
    the buffer ends inside it.
  */
  function DecodeHeader(buf: seq<byte>): (r: Option<(Header, nat)>)
    ensures r.None? <==> |DecodeRun(buf, 0, HEADER_FIELDS).values| < HEADER_FIELDS
    ensures r.Some? ==> r.value.1 <= |buf|
    ensures r.Some? ==> r.value.0.bucketCount < U16_MOD && r.value.0.minBucketId < U16_MOD
  {
    var run := DecodeRun(buf, 0, HEADER_FIELDS);
    if |run.values| < HEADER_FIELDS then None
    else
      var v := run.values;
      Some((Header(U16(v[0]), v[1], v[2], Wrap64(v[3] + v[2]), U16(v[4])), run.end))
  }

  /** max_bucket_id of the readers: min_bucket_id + bucket_count - 1 as a uint16_t. */
  function MaxBucketId(hd: Header): nat
  {
    U16(hd.minBucketId + hd.bucketCount - 1)
  }

  /** The first id the readers' int16_t loops visit. */
  function Top(hd: Header): int
  {
    I16(MaxBucketId(hd))
  }

  /** How many bucket varints the readers' loops decode: ids Top down to min_bucket_id. */
  function RunLength(hd: Header): (n: nat)
    ensures n > 0 ==> 0 <= hd.minBucketId <= Top(hd) && n == Top(hd) - hd.minBucketId + 1
  {
    if Top(hd) >= hd.minBucketId then Top(hd) - hd.minBucketId + 1 else 0
  }

  /**
    `n` buckets where the ids from `top` downwards receive `values` in order, as far
    as there are values and no lower than `lo`; every other bucket is empty.
  */
  function Placed(values: seq<nat>, top: int, lo: nat, n: nat): (r: seq<nat>)
    ensures |r| == n
    ensures forall id :: 0 <= id < n ==>
      r[id] == (if lo <= id <= top && top - id < |values| then values[top - id] else 0)
  {
    seq(n, id requires 0 <= id < n => if lo <= id <= top && top - id < |values| then values[top - id] else 0)
  }

  /**
    The capacity heistogram_deserialize gives the histogram: 16, or max_bucket_id + 1
    as a uint16_t when that is larger.
  */
  function DeserializedCapacity(hd: Header): nat
  {
    if MaxBucketId(hd) >= INITIAL_CAPACITY then U16(MaxBucketId(hd) + 1) else INITIAL_CAPACITY
  }

  /**
    heistogram_deserialize: None where it returns NULL (a header or bucket varint
    cut short); otherwise the histogram it builds. min_bucket_id is never read back
    into the histogram and stays 0.
  */
  function DeserializeSpec(buf: seq<byte>): (r: Option<State>)
    ensures r.Some? ==> r.value.minBucketId == 0
    ensures r.Some? ==> DecodeHeader(buf).Some? && r.value.totalCount == DecodeHeader(buf).value.0.totalCount
    ensures r.Some? ==> r.value.min == DecodeHeader(buf).value.0.min && r.value.max == DecodeHeader(buf).value.0.max
  {
    match DecodeHeader(buf)
    case None => None
    case Some((hd, at)) =>
      var run := DecodeRun(buf, at, RunLength(hd));
      if |run.values| < RunLength(hd) then None
      else Some(State(0, hd.totalCount, hd.min, hd.max,
                      Placed(run.values, Top(hd), hd.minBucketId, DeserializedCapacity(hd))))
  }

  /**
    The bounds under which a snapshot reads back exactly: header values below 2^48
    (the varint round-trip bound) and bucket counts below 2^32 (encode_bucket's
    uint32_t).
  */
  predicate RoundTrips(s: State)
  {
    Serializable(s) && s.totalCount < ROUND_TRIP_LIMIT && s.min <= s.max < ROUND_TRIP_LIMIT
    && forall i :: 0 <= i < |s.counts| ==> s.counts[i] < COUNT_MOD
  }

  /** The header a snapshot of `s` carries, as decode_header reads it back. */
  function SnapshotSummary(s: State): Header
    requires Serializable(s)
  {
    Header(|SnapshotRun(s)|, s.totalCount, s.min, s.max, s.minBucketId)
  }

  // Histograms built by heistogram_add and the merges stay serializable

  /** A bucket that holds a count lies at or below Highest. */
  lemma HighestAtLeast(counts: seq<nat>, b: nat)
    requires |counts| <= I16_LIMIT && Get(counts, b) > 0
    ensures b <= Highest(counts)
  {
    HighestIsLast(counts);
  }

  /** Buckets that each hold at least as much reach at least as high. */
  lemma HighestGrows(small: seq<nat>, large: seq<nat>)
    requires |small| <= I16_LIMIT && |large| <= I16_LIMIT
    requires forall i :: Get(small, i) <= Get(large, i)
    ensures Highest(small) <= Highest(large)
  {
    HighestIsLast(small);
    HighestIsLast(large);
    if Highest(small) >= 0 {
      HighestAtLeast(large, Highest(small));
    }
  }

  /**
    heistogram_add keeps a histogram serializable while the new bucket id plus the
    growth headroom stays within int16_t range and the total and the value within
    uint64_t. The recorded bucket is not empty, so min_bucket_id never passes the
    highest bucket.
  */
  lemma AddSerializable(s: State, scale: LogScale, value: nat)
    requires Serializable(s) && BucketId(scale, value) + GROWTH_HEADROOM <= I16_LIMIT
    requires s.totalCount + 1 < U64_MOD && value < U64_MOD
    ensures Serializable(AddSpec(s, scale, value))
    ensures s.min <= s.max ==> AddSpec(s, scale, value).min <= AddSpec(s, scale, value).max
  {
    var r := AddSpec(s, scale, value);
    var bid := BucketId(scale, value);
    assert Get(r.counts, bid) > 0;
    HighestAtLeast(r.counts, bid);
  }

  /** Both merges of two serializable histograms are serializable while the summed total fits a uint64_t. */
  lemma MergeSerializable(a: State, b: State)
    requires Serializable(a) && Serializable(b) && a.totalCount + b.totalCount < U64_MOD
    ensures Serializable(MergeSpec(a, b)) && Serializable(MergeIntoSpec(a, b))
    ensures a.min <= a.max ==> MergeSpec(a, b).min <= MergeSpec(a, b).max
    ensures a.min <= a.max ==> MergeIntoSpec(a, b).min <= MergeIntoSpec(a, b).max
  {
    var r, q := MergeSpec(a, b), MergeIntoSpec(a, b);
    forall i ensures Get(a.counts, i) <= Get(r.counts, i) && Get(b.counts, i) <= Get(r.counts, i)
                  && Get(a.counts, i) <= Get(q.counts, i) && Get(b.counts, i) <= Get(q.counts, i)
    {
    }
    HighestGrows(a.counts, r.counts);
    HighestGrows(b.counts, r.counts);
    HighestGrows(a.counts, q.counts);
    HighestGrows(b.counts, q.counts);
  }

  /** No single bucket holds more than the counts of the buckets up to n. */
  lemma {:induction false} CountAtMostPrefix(s: seq<nat>, i: nat, n: nat)
    requires i < n
    ensures Get(s, i) <= Prefix(s, n)
    decreases n
  {
    if n > i + 1 {
      CountAtMostPrefix(s, i, n - 1);
    }
  }

  /**
    A consistent, serializable histogram whose total fits a uint32_t and whose max
    is below 2^48 reads back exactly: no bucket can exceed the total, so none is
    narrowed by encode_bucket.
  */
  lemma ConsistentRoundTrips(s: State)
    requires Consistent(s) && Serializable(s)
    requires s.totalCount < COUNT_MOD && s.min <= s.max < ROUND_TRIP_LIMIT
    ensures RoundTrips(s)
  {
    forall i | 0 <= i < |s.counts|
      ensures s.counts[i] < COUNT_MOD
    {
      CountAtMostPrefix(s.counts, i, |s.counts|);
    }
  }

  /**
    heistogram_add keeps the snapshot round trip: from a consistent histogram within
    the bounds above, adding a value below 2^48 whose bucket id plus 16 fits an
    int16_t gives a histogram that is consistent and reads back exactly.
  */
  lemma AddRoundTrips(s: State, scale: LogScale, value: nat)
    requires Consistent(s) && Serializable(s) && s.min <= s.max < ROUND_TRIP_LIMIT
    requires BucketId(scale, value) + GROWTH_HEADROOM <= I16_LIMIT
    requires s.totalCount + 1 < COUNT_MOD && value < ROUND_TRIP_LIMIT
    ensures Consistent(AddSpec(s, scale, value)) && RoundTrips(AddSpec(s, scale, value))
  {
    AddConsistent(s, scale, value);
    AddSerializable(s, scale, value);
    ConsistentRoundTrips(AddSpec(s, scale, value));
  }

  /** Both merges keep the snapshot round trip while the summed total fits a uint32_t. */
  lemma MergeRoundTrips(a: State, b: State)
    requires Consistent(a) && Serializable(a) && a.min <= a.max < ROUND_TRIP_LIMIT
    requires Consistent(b) && Serializable(b) && b.min <= b.max < ROUND_TRIP_LIMIT
    requires a.totalCount + b.totalCount < COUNT_MOD
    ensures Consistent(MergeSpec(a, b)) && RoundTrips(MergeSpec(a, b))
    ensures Consistent(MergeIntoSpec(a, b)) && RoundTrips(MergeIntoSpec(a, b))
  {
    MergeConsistent(a, b);
    MergeSerializable(a, b);
    ConsistentRoundTrips(MergeSpec(a, b));
    ConsistentRoundTrips(MergeIntoSpec(a, b));
  }

  /** decode_header on a buffer whose first five varints are `vals`. */
  lemma DecodeHeaderOf(buf: seq<byte>, vals: seq<nat>, end: nat)
    requires |vals| == HEADER_FIELDS && DecodeRun(buf, 0, HEADER_FIELDS) == Run(vals, end)
    ensures DecodeHeader(buf) == Some((Header(U16(vals[0]), vals[1], vals[2], Wrap64(vals[3] + vals[2]), U16(vals[4])), end))
  {
  }

  lemma AppendParts<T>(a: seq<T>, b: seq<T>)
    ensures (a + b)[..|a|] == a && (a + b)[|a|..] == b
  {
  }

  /**
    The header of a snapshot reads back as the histogram's own summary, and the
    bucket varints follow right after it. The offset is handed back as a plain number.
  */
  lemma SnapshotHeaderRoundTrip(s: State, bytes: seq<byte>) returns (at: nat)
    requires RoundTrips(s) && bytes == SnapshotBytes(s)
    ensures DecodeHeader(bytes) == Some((SnapshotSummary(s), at))
    ensures at + |EncodeRun(SnapshotRun(s))| == |bytes| && bytes[at..] == EncodeRun(SnapshotRun(s))
  {
    var hv, rv := SnapshotHeader(s), SnapshotRun(s);
    var eh := EncodeRun(hv);
    AppendParts(eh, EncodeRun(rv));
    HighestIsLast(s.counts);
    assert AllBelow(hv, ROUND_TRIP_LIMIT);
    assert bytes[0..|eh|] == eh;
    DecodeRunEncoded(bytes, 0, hv, eh);
    DecodeHeaderOf(bytes, hv, |eh|);
    assert U16(hv[0]) == |rv|;
    assert Wrap64(hv[3] + hv[2]) == s.max;
    assert U16(hv[4]) == s.minBucketId;
    at := |eh|;
  }

  /** The bucket varints after the header decode back to the snapshot's run. */
  lemma SnapshotRunDecodes(s: State, at: nat)
    requires RoundTrips(s)
    requires at + |EncodeRun(SnapshotRun(s))| == |SnapshotBytes(s)| && SnapshotBytes(s)[at..] == EncodeRun(SnapshotRun(s))
    ensures DecodeRun(SnapshotBytes(s), at, |SnapshotRun(s)|).values == SnapshotRun(s)
  {
    var bytes, run := SnapshotBytes(s), SnapshotRun(s);
    var er := EncodeRun(run);
    assert bytes[at..at + |er|] == er;
    DecodeRunEncoded(bytes, at, run, er);
  }

  /** Where the bucket varints of a snapshot start, and what they decode to. */
  lemma SnapshotLayout(s: State) returns (at: nat)
    requires RoundTrips(s)
    ensures DecodeHeader(SnapshotBytes(s)) == Some((SnapshotSummary(s), at))
    ensures DecodeRun(SnapshotBytes(s), at, |SnapshotRun(s)|).values == SnapshotRun(s)
  {
    at := SnapshotHeaderRoundTrip(s, SnapshotBytes(s));
    SnapshotRunDecodes(s, at);
  }

  /** A snapshot of counts that fit in 32 bits stores them unchanged. */
  lemma SnapshotRunUnnarrowed(s: State)
    requires RoundTrips(s)
    ensures SnapshotRun(s) == Descending(s.counts, Highest(s.counts), s.minBucketId)
  {
    assert Narrow(s.counts) == s.counts;
  }

  /** Where the readers' loops start and how far they go, for a snapshot of `s`. */
  lemma SnapshotSpan(s: State)
    requires Serializable(s)
    ensures Top(SnapshotSummary(s)) == Highest(s.counts)
    ensures RunLength(SnapshotSummary(s)) == |SnapshotRun(s)|
    ensures DeserializedCapacity(SnapshotSummary(s))
      == if Highest(s.counts) < 0 then 0 else Max(INITIAL_CAPACITY, Highest(s.counts) + 1)
  {
    var hd := SnapshotSummary(s);
    var hi := Highest(s.counts);
    HighestIsLast(s.counts);
    if hi >= 0 {
      assert MaxBucketId(hd) == hi;
    } else {
      assert MaxBucketId(hd) == U16_MOD - 1;
    }
  }

  /** heistogram_deserialize on a buffer whose header and bucket run decode in full. */
  lemma DeserializeOf(buf: seq<byte>, hd: Header, at: nat, vals: seq<nat>, end: nat)
    requires DecodeHeader(buf) == Some((hd, at))
    requires |vals| == RunLength(hd) && DecodeRun(buf, at, RunLength(hd)) == Run(vals, end)
    ensures DeserializeSpec(buf)
      == Some(State(0, hd.totalCount, hd.min, hd.max, Placed(vals, Top(hd), hd.minBucketId, DeserializedCapacity(hd))))
  {
  }

  /** A snapshot deserializes to its own summary with the run placed from Highest down. */
  lemma SnapshotDeserializes(s: State)
    requires RoundTrips(s)
    ensures var hd := SnapshotSummary(s);
      DeserializeSpec(SnapshotBytes(s))
      == Some(State(0, s.totalCount, s.min, s.max,
                    Placed(SnapshotRun(s), Top(hd), s.minBucketId, DeserializedCapacity(hd))))
  {
    var bytes, rv := SnapshotBytes(s), SnapshotRun(s);
    var at := SnapshotHeaderRoundTrip(s, bytes);
    var er := EncodeRun(rv);
    assert bytes[at..at + |er|] == er;
    DecodeRunEncoded(bytes, at, rv, er);
    SnapshotSpan(s);
    DeserializeOf(bytes, SnapshotSummary(s), at, rv, at + |er|);
  }

  /**
    The run of a snapshot, placed by id from Highest down, gives back every bucket
    of a consistent histogram.
  */
  lemma SnapshotRunRestores(s: State, n: nat)
    requires RoundTrips(s) && Consistent(s) && Highest(s.counts) < n
    ensures forall i :: Get(Placed(SnapshotRun(s), Highest(s.counts), s.minBucketId, n), i) == Get(s.counts, i)
  {
    var hi := Highest(s.counts);
    HighestIsLast(s.counts);
    var run := SnapshotRun(s);
    var placed := Placed(run, hi, s.minBucketId, n);
    assert EmptyBelow(s.counts, s.minBucketId);
    forall i
      ensures Get(placed, i) == Get(s.counts, i)
    {
      if i < 0 || n <= i {
        assert Get(s.counts, i) == 0;
      } else if i < s.minBucketId || hi < i {
        assert placed[i] == 0 && Get(s.counts, i) == 0;
      } else {
        assert placed[i] == run[hi - i] == Get(Narrow(s.counts), i);
      }
    }
  }

  /**
    Round trip: deserializing a snapshot gives back the total, min, max and every
    bucket of the histogram. min_bucket_id comes back as 0, and the capacity is 16
    or one past the highest non-empty bucket (0 when every bucket is empty).
  */
  lemma DeserializeSerialize(s: State)
    requires RoundTrips(s) && Consistent(s)
    ensures DeserializeSpec(SnapshotBytes(s)).Some?
    ensures var r := DeserializeSpec(SnapshotBytes(s)).value;
      r.totalCount == s.totalCount && r.min == s.min && r.max == s.max && r.minBucketId == 0
      && (forall i :: Get(r.counts, i) == Get(s.counts, i))
      && |r.counts| == (if Highest(s.counts) < 0 then 0 else Max(INITIAL_CAPACITY, Highest(s.counts) + 1))
  {
    SnapshotDeserializes(s);
    SnapshotSpan(s);
    SnapshotRunRestores(s, DeserializedCapacity(SnapshotSummary(s)));
  }

  /** Values up to 240 are their own one-byte encodings, so such a run encodes as itself. */
  lemma {:induction false} SmallValuesEncodeAsThemselves(vals: seq<nat>)
    requires AllBelow(vals, 241)
    ensures |EncodeRun(vals)| == |vals|
    ensures forall i :: 0 <= i < |vals| ==> EncodeRun(vals)[i] == vals[i]
  {
    if vals != [] {
      SmallValuesEncodeAsThemselves(vals[1..]);
    }
  }

  /** A freshly created histogram has no non-empty bucket. */
  lemma EmptyHasNoHighest()
    ensures Highest(Empty().counts) == -1
  {
    assert forall i :: Get(Empty().counts, i) == 0;
  }

  /** The bytes of a freshly created histogram: five zero varints. */
  lemma EmptySnapshot()
    ensures Serializable(Empty()) && SnapshotRun(Empty()) == []
    ensures |SnapshotBytes(Empty())| == HEADER_FIELDS
    ensures forall i :: 0 <= i < HEADER_FIELDS ==> SnapshotBytes(Empty())[i] == 0
  {
    EmptyHasNoHighest();
    SnapshotOfNothing(Empty());
  }

  lemma SnapshotOfNothing(s: State)
    requires |s.counts| <= I16_LIMIT && Highest(s.counts) == -1
    requires s.minBucketId == 0 && s.totalCount == 0 && s.min == 0 && s.max == 0
    ensures Serializable(s) && SnapshotRun(s) == []
    ensures |SnapshotBytes(s)| == HEADER_FIELDS
    ensures forall i :: 0 <= i < HEADER_FIELDS ==> SnapshotBytes(s)[i] == 0
  {
    var header := SnapshotHeader(s);
    assert forall i :: 0 <= i < HEADER_FIELDS ==> header[i] == 0;
    SmallValuesEncodeAsThemselves(header);
  }

  /** One encode_varint call: the buffer now holds the varints of `written` and then `v`. */
  method Put(buffer: array<byte>, ptr: nat, v: nat, ghost written: seq<nat>) returns (next: nat)
    requires v < U64_MOD && AllBelow(written, U64_MOD)
    requires ptr + MAX_VARINT_SIZE <= buffer.Length && buffer[..ptr] == EncodeRun(written)
    modifies buffer
    ensures ptr < next <= ptr + MAX_VARINT_SIZE
    ensures AllBelow(written + [v], U64_MOD) && buffer[..next] == EncodeRun(written + [v])
  {
    ghost var before := buffer[..ptr];
    var n := EncodeVarint(v, buffer, ptr);
    next := ptr + n;
    EncodeRunAppend(written, v);
    assert buffer[..ptr] == before;
    assert buffer[..next] == buffer[..ptr] + buffer[ptr..next];
  }

  /** The run written so far, one value longer. */
  lemma PrefixGrows<T>(a: seq<T>, b: seq<T>, k: nat)
    requires k < |b|
    ensures (a + b[..k]) + [b[k]] == a + b[..k + 1]
  {
    assert b[..k + 1] == b[..k] + [b[k]];
  }

  lemma SliceGrows<T>(b: seq<T>, k: nat)
    requires k < |b|
    ensures b[..k] + [b[k]] == b[..k + 1]
  {
  }

  /** The value heistogram_serialize writes for bucket `i`. */
  lemma SnapshotRunAt(s: State, i: int)
    requires Serializable(s) && s.minBucketId <= i <= Highest(s.counts)
    ensures i < |s.counts| && SnapshotRun(s)[Highest(s.counts) - i] == s.counts[i] % COUNT_MOD
  {
    HighestIsLast(s.counts);
  }

  /** The five header varints of heistogram_serialize, written at the start of `buffer`. */
  method PutHeader(buffer: array<byte>, span: nat, total: nat, min: nat, range: nat, lo: nat) returns (ptr: nat)
    requires span < U64_MOD && total < U64_MOD && min < U64_MOD && range < U64_MOD && lo < U64_MOD
    requires MAX_VARINT_SIZE * HEADER_FIELDS <= buffer.Length
    modifies buffer
    ensures ptr <= MAX_VARINT_SIZE * HEADER_FIELDS && buffer[..ptr] == EncodeRun([span, total, min, range, lo])
  {
    ptr := Put(buffer, 0, span, []);
    assert [] + [span] == [span];
    ptr := Put(buffer, ptr, total, [span]);
    assert [span] + [total] == [span, total];
    ptr := Put(buffer, ptr, min, [span, total]);
    assert [span, total] + [min] == [span, total, min];
    ptr := Put(buffer, ptr, range, [span, total, min]);
    assert [span, total, min] + [range] == [span, total, min, range];
    ptr := Put(buffer, ptr, lo, [span, total, min, range]);
    assert [span, total, min, range] + [lo] == [span, total, min, range, lo];
  }

  /** The max_bucket_id scan of heistogram_serialize. */
  method HighestBucket(h: Heistogram) returns (maxBucketId: int)
    requires h.Valid() && h.capacity <= I16_LIMIT
    ensures maxBucketId == Highest(h.Model().counts)
  {
    ghost var counts := h.Model().counts;
    maxBucketId := I16(h.capacity - 1);
    while maxBucketId >= 0 && h.buckets[maxBucketId] == 0
      invariant maxBucketId <= h.capacity - 1
      invariant HighestFrom(counts, maxBucketId) == Highest(counts)
      decreases maxBucketId + 1
    {
      maxBucketId := maxBucketId - 1;
    }
  }

  /**
    The bucket loop of heistogram_serialize: appends the varint of every bucket from
    `maxBucketId` down to min_bucket_id after the `header` already in `buffer`.
  */
  method PutBuckets(buckets: array<nat>, lo: nat, top: int, buffer: array<byte>, ptr: nat,
                    ghost header: seq<nat>, ghost run: seq<nat>) returns (next: nat)
    requires lo - 1 <= top < buckets.Length && |run| == top - lo + 1
    requires forall j :: 0 <= j < |run| ==> run[j] == buckets[top - j] % COUNT_MOD
    requires AllBelow(header, U64_MOD)
    requires ptr + MAX_VARINT_SIZE * |run| <= buffer.Length && buffer[..ptr] == EncodeRun(header)
    modifies buffer
    ensures next <= ptr + MAX_VARINT_SIZE * |run|
    ensures AllBelow(header + run, U64_MOD) && buffer[..next] == EncodeRun(header + run)
  {
    assert header + run[..0] == header;
    next := ptr;
    var i := top;
    ghost var k := 0;
    while i >= lo
      invariant 0 <= k <= |run| && i == top - k
      invariant next <= ptr + 9 * k
      invariant AllBelow(header + run[..k], U64_MOD) && buffer[..next] == EncodeRun(header + run[..k])
    {
      assert buckets[i] % COUNT_MOD == run[k];
      next := Put(buffer, next, buckets[i] % COUNT_MOD, header + run[..k]);
      PrefixGrows(header, run, k);
      i := i - 1;
      k := k + 1;
    }
    assert run[..k] == run;
  }

  /**
    heistogram_serialize: finds the highest non-empty bucket, then writes the header
    and the buckets from there down to min_bucket_id into a buffer sized for nine
    bytes per varint; the bytes are the used part of that buffer.
  */
  method Serialize(h: Heistogram) returns (bytes: seq<byte>)
    requires h.Valid() && Serializable(h.Model())
    ensures bytes == SnapshotBytes(h.Model())
    ensures |bytes| <= MAX_VARINT_SIZE * HEADER_FIELDS + MAX_VARINT_SIZE * |SnapshotRun(h.Model())|
  {
    ghost var s := h.Model();
    var maxBucketId := HighestBucket(h);
    var span := maxBucketId - h.minBucketId + 1;
    var buffer := new byte[MAX_VARINT_SIZE * HEADER_FIELDS + MAX_VARINT_SIZE * span];
    var ptr := PutHeader(buffer, span, h.totalCount, h.min, Wrap64(h.max - h.min), h.minBucketId);
    ghost var header := SnapshotHeader(s);
    ghost var run := SnapshotRun(s);
    forall j | 0 <= j < |run|
      ensures run[j] == h.buckets[maxBucketId - j] % COUNT_MOD
    {
      SnapshotRunAt(s, maxBucketId - j);
    }
    ptr := PutBuckets(h.buckets, h.minBucketId, maxBucketId, buffer, ptr, header, run);
    EncodeRunConcat(header, run);
    bytes := buffer[..ptr];
  }

  /** Placing one more value of the run: bucket top - k receives value k. */
  lemma PlacedGrows(values: seq<nat>, top: int, lo: nat, n: nat, k: nat)
    requires k < |values| && lo <= top - k < n
    ensures Placed(values[..k], top, lo, n)[top - k := values[k]] == Placed(values[..k + 1], top, lo, n)
  {
  }

  /** The first `c` buckets of a placement are the placement into `c` buckets. */
  lemma PlacedPrefix(values: seq<nat>, top: int, lo: nat, n: nat, c: nat)
    requires c <= n
    ensures Placed(values, top, lo, n)[..c] == Placed(values, top, lo, c)
  {
  }

  /**
    The bucket loop of heistogram_deserialize: decodes one varint per id from `top`
    down to min_bucket_id into `buckets`, which start out empty, and reports false
    as soon as a varint is cut short.
  */
  method ReadBuckets(buckets: array<nat>, buf: seq<byte>, at: nat, hd: Header) returns (ok: bool)
    requires forall id :: 0 <= id < buckets.Length ==> buckets[id] == 0
    requires Top(hd) < buckets.Length
    modifies buckets
    ensures var run := DecodeRun(buf, at, RunLength(hd));
      ok <==> |run.values| == RunLength(hd)
    ensures ok ==> buckets[..] == Placed(DecodeRun(buf, at, RunLength(hd)).values, Top(hd), hd.minBucketId, buckets.Length)
  {
    ghost var total := RunLength(hd);
    ghost var run := DecodeRun(buf, at, total);
    var top := I16(MaxBucketId(hd));
    var i := top;
    var ptr := at;
    ghost var k := 0;
    assert buckets[..] == Placed(run.values[..0], top, hd.minBucketId, buckets.Length);
    while i >= hd.minBucketId
      invariant 0 <= k <= total && k <= |run.values| && i == top - k
      invariant ptr == DecodeRun(buf, at, k).end
      invariant buckets[..] == Placed(run.values[..k], top, hd.minBucketId, buckets.Length)
    {
      DecodeRunAt(buf, at, total, k);
      var count, n := DecodeVarint(buf, ptr);
      if n == 0 {
        return false;
      }
      ptr := ptr + n;
      PlacedGrows(run.values, top, hd.minBucketId, buckets.Length, k);
      buckets[i] := count;
      i := i - 1;
      k := k + 1;
    }
    assert run.values[..k] == run.values;
    return true;
  }

  /** Every id the readers' loops visit is below the length heistogram_create allocates. */
  lemma TopFits(hd: Header)
    ensures Top(hd) < Max(INITIAL_CAPACITY, MaxBucketId(hd) + 1)
  {
  }

  /**
    The trailing loop of heistogram_deserialize: zeroes the buckets below
    min_bucket_id (and below 16), which are already empty, so nothing changes.
  */
  method ClearBelow(buckets: array<nat>, lo: nat)
    requires INITIAL_CAPACITY <= buckets.Length
    requires forall id :: 0 <= id < lo && id < INITIAL_CAPACITY ==> buckets[id] == 0
    modifies buckets
    ensures buckets[..] == old(buckets[..])
  {
    var j := 0;
    while j < lo && j < INITIAL_CAPACITY
      invariant buckets[..] == old(buckets[..])
    {
      buckets[j] := 0;
      j := j + 1;
    }
  }

  /** What heistogram_deserialize returns once decode_header has succeeded. */
  lemma DeserializeAfterHeader(buf: seq<byte>, hd: Header, at: nat)
    requires DecodeHeader(buf) == Some((hd, at))
    ensures var run := DecodeRun(buf, at, RunLength(hd));
      DeserializeSpec(buf) == if |run.values| < RunLength(hd) then None
        else Some(State(0, hd.totalCount, hd.min, hd.max,
                        Placed(run.values, Top(hd), hd.minBucketId, DeserializedCapacity(hd))))
  {
  }

  /**
    heistogram_create followed by the capacity step of heistogram_deserialize: room
    for ids up to `maxBucketId`, every slot empty, and a capacity of 16 or
    max_bucket_id + 1 as a uint16_t.
  */
  method CreateFor(maxBucketId: nat) returns (h: Heistogram)
    requires maxBucketId < U16_MOD
    ensures fresh(h) && fresh(h.buckets) && h.Valid()
    ensures h.buckets.Length == Max(INITIAL_CAPACITY, maxBucketId + 1)
    ensures h.capacity == if maxBucketId >= INITIAL_CAPACITY then U16(maxBucketId + 1) else INITIAL_CAPACITY
    ensures forall id :: 0 <= id < h.buckets.Length ==> h.buckets[id] == 0
    ensures h.minBucketId == 0 && h.totalCount == 0 && h.min == 0 && h.max == 0
  {
    h := new Heistogram();
    assert forall id :: 0 <= id < h.buckets.Length ==> h.buckets[id] == Get(Empty().counts, id);
    if maxBucketId >= h.capacity {
      h.Reserve(maxBucketId + 1);
      h.capacity := U16(maxBucketId + 1);
    }
  }

  /**
    heistogram_deserialize: reads the header, creates a histogram with room up to
    max_bucket_id, fills the buckets from the highest id down, and returns null as
    soon as a varint is cut short. The trailing loop clears buckets below
    min_bucket_id that are already empty.
  */
  method Deserialize(buf: seq<byte>) returns (h: Heistogram?)
    ensures DeserializeSpec(buf).None? <==> h == null
    ensures h != null ==> fresh(h) && h.Valid() && h.Model() == DeserializeSpec(buf).value
  {
    var header := DecodeHeader(buf);
    if header.None? {
      return null;
    }
    var hd, at := header.value.0, header.value.1;
    var maxBucketId := MaxBucketId(hd);
    h := CreateFor(maxBucketId);
    var buckets := h.buckets;
    TopFits(hd);
    var ok := ReadBuckets(buckets, buf, at, hd);
    DeserializeAfterHeader(buf, hd, at);
    if !ok {
      return null;
    }
    ClearBelow(buckets, hd.minBucketId);
    h.totalCount := hd.totalCount;
    h.min := hd.min;
    h.max := hd.max;
    ghost var values := DecodeRun(buf, at, RunLength(hd)).values;
    assert h.capacity == DeserializedCapacity(hd);
    PlacedPrefix(values, Top(hd), hd.minBucketId, h.buckets.Length, h.capacity);
    assert h.buckets[..h.capacity] == Placed(values, Top(hd), hd.minBucketId, DeserializedCapacity(hd));
  }
}
