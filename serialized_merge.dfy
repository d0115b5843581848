/**
  The three merges that read a snapshot: heistogram_merge_serialized (a live
  histogram plus a snapshot, into a new histogram), heistogram_merge_two_serialized
  (two snapshots into a new histogram) and heistogram_merge_inplace_serialized (a
  snapshot added into a live histogram).

  All three size the result from max_bucket_id + 1 held in a uint16_t. For the
  snapshot of an empty histogram (bucket count 0, min bucket id 0) max_bucket_id is
  65535, and the sum 65536 that enters the size wraps it to 0. The *AsWritten
  functions keep that arithmetic and the lemmas beside them show the input that
  breaks it. The merges themselves take max_bucket_id + 1 as a uint16_t on its own
  (Extent) before comparing it, which changes the size only where max_bucket_id is
  65535.
*/
module SerializedMerge {
  import opened Varint
  import opened Runs
  import opened Buckets
  import opened Counters
  import opened Histogram
  import opened Wire

  /** A readable snapshot: its header and its bucket varints, highest id first. */
  function ReadSnapshot(buf: seq<byte>): (r: Option<(Header, seq<nat>)>)
    ensures r.Some? ==> |buf| >= 3 && DecodeHeader(buf).Some? && r.value.0 == DecodeHeader(buf).value.0
    ensures r.Some? ==> |r.value.1| == RunLength(r.value.0)
  {
    if |buf| < 3 then None
    else
      match DecodeHeader(buf)
      case None => None
      case Some((hd, at)) =>
        var run := DecodeRun(buf, at, RunLength(hd));
        if |run.values| < RunLength(hd) then None else Some((hd, run.values))
  }

  /** What ReadSnapshot returns once decode_header has succeeded. */
  lemma ReadAfterHeader(buf: seq<byte>, hd: Header, at: nat)
    requires |buf| >= 3 && DecodeHeader(buf) == Some((hd, at))
    ensures var run := DecodeRun(buf, at, RunLength(hd));
      ReadSnapshot(buf) == if |run.values| < RunLength(hd) then None else Some((hd, run.values))
  {
  }

  /** A snapshot of `t` reads back as its summary header and its bucket run. */
  lemma ReadSnapshotOf(t: State)
    requires RoundTrips(t)
    ensures ReadSnapshot(SnapshotBytes(t)) == Some((SnapshotSummary(t), SnapshotRun(t)))
  {
    var at := SnapshotLayout(t);
    SnapshotSpan(t);
    EncodedLength(t);
  }

  /** A snapshot is never shorter than its five header varints. */
  lemma EncodedLength(t: State)
    requires Serializable(t)
    ensures |SnapshotBytes(t)| >= 3
  {
  }

  /**
    The snapshot of a histogram that holds nothing reads back as an all-zero header
    and no buckets.
  */
  lemma NothingReads(s: State)
    requires |s.counts| <= I16_LIMIT && Highest(s.counts) == -1
    requires s.minBucketId == 0 && s.totalCount == 0 && s.min == 0 && s.max == 0
    ensures RoundTrips(s) && SnapshotSummary(s) == Header(0, 0, 0, 0, 0)
    ensures ReadSnapshot(SnapshotBytes(s)) == Some((Header(0, 0, 0, 0, 0), []))
  {
    SnapshotOfNothing(s);
    HighestIsLast(s.counts);
    forall i | 0 <= i < |s.counts|
      ensures s.counts[i] < COUNT_MOD
    {
      assert Highest(s.counts) < i;
      assert Get(s.counts, i) == s.counts[i] == 0;
    }
    ReadSnapshotOf(s);
  }

  /** The snapshot of a freshly created histogram reads back as an all-zero header. */
  lemma EmptyReads()
    ensures Serializable(Empty()) && SnapshotSummary(Empty()) == Header(0, 0, 0, 0, 0)
    ensures ReadSnapshot(SnapshotBytes(Empty())) == Some((Header(0, 0, 0, 0, 0), []))
  {
    EmptyHasNoHighest();
    NothingReads(Empty());
  }

  /** One past the highest id a reader's bucket loop writes (Top), or 0 when that is negative. */
  function Reach(hd: Header): (n: nat)
    ensures RunLength(hd) > 0 ==> Top(hd) < n
    ensures n <= MaxBucketId(hd) + 1
  {
    if Top(hd) >= 0 then Top(hd) + 1 else 0
  }

  /**
    max_bucket_id + 1 as a uint16_t on its own: one past max_bucket_id, and 0 for a
    max_bucket_id of 65535. It reaches past every id the bucket loop writes.
  */
  function Extent(hd: Header): (n: nat)
    ensures Reach(hd) <= n
    ensures MaxBucketId(hd) < 0xFFFF ==> n == MaxBucketId(hd) + 1
    ensures MaxBucketId(hd) == 0xFFFF ==> n == 0
  {
    U16(MaxBucketId(hd) + 1)
  }

  /**
    A snapshot of `t`, read back and placed into `n` buckets that reach its highest
    id, gives back every bucket of `t`.
  */
  lemma SnapshotPlaces(t: State, n: nat)
    requires RoundTrips(t) && Consistent(t) && Reach(SnapshotSummary(t)) <= n
    ensures ReadSnapshot(SnapshotBytes(t)) == Some((SnapshotSummary(t), SnapshotRun(t)))
    ensures forall i :: Get(Placed(SnapshotRun(t), Top(SnapshotSummary(t)), t.minBucketId, n), i) == Get(t.counts, i)
  {
    ReadSnapshotOf(t);
    SnapshotSpan(t);
    SnapshotRunRestores(t, n);
  }

  /**
    `slots` buckets hold a histogram of `capacity` buckets and every id the bucket
    loop of `hd` writes.
  */
  predicate Fits(capacity: nat, hd: Header, slots: nat)
  {
    capacity <= slots && (RunLength(hd) > 0 ==> Top(hd) < slots)
  }

  /** Two histograms that agree on the summary and on every bucket, whatever their capacities. */
  ghost predicate Alike(a: State, b: State)
  {
    a.minBucketId == b.minBucketId && a.totalCount == b.totalCount && a.min == b.min && a.max == b.max
    && forall i :: Get(a.counts, i) == Get(b.counts, i)
  }

  /** Merging two bucket sequences that agree, bucket by bucket, with `a` and `b`. */
  lemma MergedGet(x: seq<nat>, y: seq<nat>, n: nat, a: seq<nat>, b: seq<nat>)
    requires |x| <= n && |y| <= n
    requires forall i :: Get(x, i) == Get(a, i) && Get(y, i) == Get(b, i)
    ensures forall i :: Get(Merged(x, y, n), i) == Get(a, i) + Get(b, i)
  {
    forall i
      ensures Get(Merged(x, y, n), i) == Get(a, i) + Get(b, i)
    {
      assert Get(x, i) == Get(a, i) && Get(y, i) == Get(b, i);
    }
  }

  /** The buckets of the live merges, bucket by bucket. */
  lemma MergeSpecGet(a: State, b: State)
    ensures forall i :: Get(MergeSpec(a, b).counts, i) == Get(a.counts, i) + Get(b.counts, i)
    ensures forall i :: Get(MergeIntoSpec(a, b).counts, i) == Get(a.counts, i) + Get(b.counts, i)
  {
  }

  /**
    A histogram with a snapshot folded in, into `n` buckets: the snapshot's run is
    added bucket by bucket and the two summaries combined.
  */
  function FoldIn(s: State, hd: Header, run: seq<nat>, n: nat): (r: State)
    ensures |r.counts| == n
    ensures r.totalCount == s.totalCount + hd.totalCount
    ensures r.minBucketId <= s.minBucketId && r.minBucketId <= hd.minBucketId
    ensures r.min <= s.min && r.min <= hd.min && s.max <= r.max && hd.max <= r.max
  {
    State(Min(s.minBucketId, hd.minBucketId), s.totalCount + hd.totalCount,
          Min(s.min, hd.min), Max(s.max, hd.max), Merged(s.counts, Placed(run, Top(hd), hd.minBucketId, n), n))
  }

  /** The histogram a snapshot's header and run describe, in `n` buckets. */
  function Unpacked(hd: Header, run: seq<nat>, n: nat): (r: State)
    ensures |r.counts| == n && r.totalCount == hd.totalCount
  {
    State(hd.minBucketId, hd.totalCount, hd.min, hd.max, Placed(run, Top(hd), hd.minBucketId, n))
  }

  // heistogram_merge_serialized

  /**
    The buckets heistogram_merge_serialized gives its result as written:
    max(capacity, max_bucket_id + 1) stored in a uint16_t, and never fewer than the
    16 heistogram_create allocates.
  */
  function MergeSlotsAsWritten(capacity: nat, hd: Header): nat
  {
    Max(INITIAL_CAPACITY, U16(Max(capacity, MaxBucketId(hd) + 1)))
  }

  /**
    The buckets the result gets: the live histogram's capacity or the snapshot's
    Extent, whichever is larger, and never fewer than 16. They hold every bucket the
    copy and bucket loops write, and they are the source's own size wherever
    max_bucket_id + 1 does not wrap.
  */
  function MergeSlots(capacity: nat, hd: Header): (n: nat)
    ensures Fits(capacity, hd, n) && INITIAL_CAPACITY <= n && Reach(hd) <= n
    ensures capacity < 0x1_0000 && MaxBucketId(hd) < 0xFFFF ==> n == MergeSlotsAsWritten(capacity, hd)
  {
    Max(INITIAL_CAPACITY, Max(capacity, Extent(hd)))
  }

  /**
    The header of the snapshot of an empty histogram (EmptyReads) merged into a
    histogram of 32 buckets, such as one that has recorded 16 (SixteenReads): the
    result keeps 16 buckets and the copy loop writes 32.
  */
  lemma MergeSlotsOverflow()
    ensures var hd := Header(0, 0, 0, 0, 0);
      RunLength(hd) == 0 && MergeSlotsAsWritten(32, hd) == INITIAL_CAPACITY
      && !Fits(32, hd, MergeSlotsAsWritten(32, hd)) && MergeSlots(32, hd) == 32
  {
    assert MaxBucketId(Header(0, 0, 0, 0, 0)) == 0xFFFF;
    assert U16(0x1_0000) == 0;
  }

  /** heistogram_merge_serialized: None where it returns NULL. */
  function MergeSerializedSpec(s: State, buf: seq<byte>): (r: Option<State>)
    ensures r.Some? <==> ReadSnapshot(buf).Some?
  {
    if ReadSnapshot(buf).None? then None
    else
      var hd, run := ReadSnapshot(buf).value.0, ReadSnapshot(buf).value.1;
      Some(FoldIn(s, hd, run, MergeSlots(|s.counts|, hd)))
  }

  /** Merging a snapshot of `t` is merging `t` itself. */
  lemma MergeSerializedAgrees(s: State, t: State)
    requires RoundTrips(t) && Consistent(t)
    ensures MergeSerializedSpec(s, SnapshotBytes(t)).Some?
    ensures Alike(MergeSerializedSpec(s, SnapshotBytes(t)).value, MergeSpec(s, t))
  {
    var hd := SnapshotSummary(t);
    var n := MergeSlots(|s.counts|, hd);
    SnapshotPlaces(t, n);
    var placed := Placed(SnapshotRun(t), Top(hd), hd.minBucketId, n);
    MergedGet(s.counts, placed, n, s.counts, t.counts);
    MergeSpecGet(s, t);
  }

  // The bucket loop shared by the three merges

  /** Merging into empty buckets leaves the other side as it is. */
  lemma MergedWithZeros(p: seq<nat>, n: nat)
    requires |p| == n
    ensures Merged(Zeros(n), p, n) == p
  {
  }

  /** Merging with the same counts gives the same buckets. */
  lemma MergedSame(a: seq<nat>, b: seq<nat>, c: seq<nat>, n: nat)
    requires forall i :: 0 <= i < n ==> Get(a, i) == Get(b, i)
    ensures Merged(a, c, n) == Merged(b, c, n)
  {
  }

  /**
    The buckets once the first `k` values of a run have been added from id `top`
    downwards: bucket id gains value top - id when that is one of them.
  */
  ghost predicate AddedSoFar(after: seq<nat>, before: seq<nat>, values: seq<nat>, top: int, lo: nat, k: nat)
    requires k <= |values|
  {
    |after| == |before|
    && forall id :: 0 <= id < |after| ==>
      after[id] == before[id] + (if lo <= id <= top && top - id < k then values[top - id] else 0)
  }

  /** Adding value k of the run to bucket top - k. */
  lemma AddStep(after: seq<nat>, before: seq<nat>, values: seq<nat>, top: int, lo: nat, k: nat)
    requires k < |values| && lo <= top - k < |after|
    requires AddedSoFar(after, before, values, top, lo, k)
    ensures AddedSoFar(after[top - k := after[top - k] + values[k]], before, values, top, lo, k + 1)
  {
  }

  /** With every value added, the buckets are the merge with the placement of the run. */
  lemma AddedAll(after: seq<nat>, before: seq<nat>, values: seq<nat>, top: int, lo: nat)
    requires AddedSoFar(after, before, values, top, lo, |values|)
    ensures after == Merged(before, Placed(values, top, lo, |after|), |after|)
  {
  }

  /** `buckets[i].count += count`: one slot grows and the rest stay as they are. */
  method AddCount(buckets: array<nat>, i: nat, count: nat)
    requires i < buckets.Length
    modifies buckets
    ensures buckets[..] == old(buckets[..])[i := old(buckets[i]) + count]
  {
    buckets[i] := buckets[i] + count;
  }

  /**
    The bucket loop of the serialized merges: adds one decoded varint per id from
    Top down to min_bucket_id, and reports false as soon as a varint is cut short,
    after adding the ones before it.
  */
  method AddRun(buckets: array<nat>, buf: seq<byte>, at: nat, hd: Header) returns (ok: bool)
    requires RunLength(hd) > 0 ==> Top(hd) < buckets.Length
    modifies buckets
    ensures ok <==> |DecodeRun(buf, at, RunLength(hd)).values| == RunLength(hd)
    ensures buckets[..] == Merged(old(buckets[..]),
      Placed(DecodeRun(buf, at, RunLength(hd)).values, Top(hd), hd.minBucketId, buckets.Length), buckets.Length)
  {
    ghost var total := RunLength(hd);
    ghost var run := DecodeRun(buf, at, total);
    ghost var before := buckets[..];
    var top := I16(MaxBucketId(hd));
    var i := top;
    var ptr := at;
    ghost var k := 0;
    while i >= hd.minBucketId
      invariant 0 <= k <= total && k <= |run.values| && i == top - k
      invariant ptr == DecodeRun(buf, at, k).end
      invariant AddedSoFar(buckets[..], before, run.values, top, hd.minBucketId, k)
    {
      DecodeRunAt(buf, at, total, k);
      var count, n := DecodeVarint(buf, ptr);
      if n == 0 {
        AddedAll(buckets[..], before, run.values, top, hd.minBucketId);
        return false;
      }
      ptr := ptr + n;
      assert count == run.values[k];
      ghost var last := buckets[..];
      AddStep(last, before, run.values, top, hd.minBucketId, k);
      AddCount(buckets, i, count);
      i := i - 1;
      k := k + 1;
    }
    AddedAll(buckets[..], before, run.values, top, hd.minBucketId);
    return true;
  }

  /** The first `c` buckets of a merge with a placement are the merge into `c` buckets. */
  lemma MergedTake(a: seq<nat>, values: seq<nat>, top: int, lo: nat, n: nat, c: nat)
    requires c <= n == |a|
    ensures Merged(a, Placed(values, top, lo, n), n)[..c] == Merged(a[..c], Placed(values, top, lo, c), c)
  {
  }

  /**
    heistogram_merge_serialized: a new histogram with room for both, holding the
    live histogram's buckets plus the snapshot's, or null when the buffer is shorter
    than 3 bytes or a varint is cut short.
  */
  method MergeSerialized(h: Heistogram, buf: seq<byte>) returns (result: Heistogram?)
    requires h.Valid()
    ensures result == null <==> MergeSerializedSpec(h.Model(), buf).None?
    ensures result != null ==> fresh(result) && fresh(result.buckets) && result.Valid()
    ensures result != null ==> result.Model() == MergeSerializedSpec(h.Model(), buf).value
  {
    ghost var s := h.Model();
    if |buf| < 3 {
      return null;
    }
    var header := DecodeHeader(buf);
    if header.None? {
      return null;
    }
    var hd, at := header.value.0, header.value.1;
    ghost var values := DecodeRun(buf, at, RunLength(hd)).values;
    ReadAfterHeader(buf, hd, at);
    result := CreateWithCapacity(Max(h.capacity, Extent(hd)));
    ghost var n := result.capacity;
    assert result.buckets[..n] == Zeros(n);
    assert forall i :: 0 <= i < n ==> result.buckets[i] == result.buckets[..n][i] == 0;
    result.AddInto(h);
    ghost var added := result.buckets[..];
    assert forall i :: 0 <= i < n ==> Get(added, i) == Get(s.counts, i);
    var ok := AddRun(result.buckets, buf, at, hd);
    if !ok {
      return null;
    }
    ghost var placed := Placed(values, Top(hd), hd.minBucketId, n);
    MergedSame(added, s.counts, placed, n);
    assert result.buckets[..n] == result.buckets[..] == Merged(s.counts, placed, n);
    assert result.Model().counts == Merged(s.counts, placed, n);
    assert MergeSerializedSpec(s, buf) == Some(FoldIn(s, hd, values, n));
    result.SetSummary(Min(h.minBucketId, hd.minBucketId), h.totalCount + hd.totalCount,
                      Min(h.min, hd.min), Max(h.max, hd.max));
    assert result.Model() == FoldIn(s, hd, values, n);
  }

  // heistogram_merge_two_serialized

  /**
    The buckets heistogram_merge_two_serialized gives its result as written: the
    larger max_bucket_id plus one, stored in a uint16_t, and never fewer than 16.
  */
  function MergeTwoSlotsAsWritten(hd1: Header, hd2: Header): nat
  {
    Max(INITIAL_CAPACITY, U16(Max(MaxBucketId(hd1), MaxBucketId(hd2)) + 1))
  }

  /**
    The buckets the result gets: the larger Extent of the two snapshots, and never
    fewer than 16. They hold every id either bucket loop writes, and they are the
    source's own size wherever max_bucket_id + 1 does not wrap.
  */
  function MergeTwoSlots(hd1: Header, hd2: Header): (n: nat)
    ensures Fits(0, hd1, n) && Fits(0, hd2, n) && INITIAL_CAPACITY <= n
    ensures Reach(hd1) <= n && Reach(hd2) <= n
    ensures MaxBucketId(hd1) < 0xFFFF && MaxBucketId(hd2) < 0xFFFF ==> n == MergeTwoSlotsAsWritten(hd1, hd2)
  {
    Max(INITIAL_CAPACITY, Max(Extent(hd1), Extent(hd2)))
  }

  /** The snapshot of a histogram that holds a single value, in bucket `b`. */
  lemma OneReads(t: State, b: nat)
    requires b < |t.counts| <= I16_LIMIT && t.minBucketId == b
    requires t.totalCount == 1 && t.min == t.max < ROUND_TRIP_LIMIT
    requires forall i :: 0 <= i < |t.counts| ==> t.counts[i] == if i == b then 1 else 0
    ensures RoundTrips(t) && Highest(t.counts) == b
    ensures ReadSnapshot(SnapshotBytes(t)) == Some((Header(1, 1, t.min, t.max, b), [1]))
  {
    HighestIsLast(t.counts);
    assert Get(t.counts, b) == 1;
    SnapshotRunAt(t, b);
    assert SnapshotRun(t) == [1];
    assert SnapshotSummary(t) == Header(1, 1, t.min, t.max, b);
    ReadSnapshotOf(t);
  }

  /** A fresh histogram that has recorded 16: 32 buckets, and a snapshot of one bucket. */
  lemma SixteenReads(scale: LogScale, t: State)
    requires t == AddSpec(Empty(), scale, 16)
    ensures |t.counts| == 32 && Highest(t.counts) == 16
    ensures ReadSnapshot(SnapshotBytes(t)) == Some((Header(1, 1, 16, 16, 16), [1]))
  {
    IdentityRegionExact(scale, 16);
    assert t.min == 16 && t.max == 16 && t.minBucketId == 16 && t.totalCount == 1;
    OneReads(t, 16);
  }

  /**
    The headers of the snapshots of an empty histogram and of one that has recorded
    16 (EmptyReads, SixteenReads): the result keeps 16 buckets and the second loop
    writes bucket 16.
  */
  lemma MergeTwoSlotsOverflow()
    ensures var hd1, hd2 := Header(0, 0, 0, 0, 0), Header(1, 1, 16, 16, 16);
      RunLength(hd1) == 0 && RunLength(hd2) == 1 && Top(hd2) == 16
      && MergeTwoSlotsAsWritten(hd1, hd2) == INITIAL_CAPACITY
      && !Fits(0, hd2, MergeTwoSlotsAsWritten(hd1, hd2))
      && MergeTwoSlots(hd1, hd2) == 17
  {
    assert MaxBucketId(Header(0, 0, 0, 0, 0)) == 0xFFFF && MaxBucketId(Header(1, 1, 16, 16, 16)) == 16;
    assert U16(0x1_0000) == 0;
  }

  /** heistogram_merge_two_serialized: None where it returns NULL. */
  function MergeTwoSerializedSpec(buf1: seq<byte>, buf2: seq<byte>): (r: Option<State>)
    ensures r.Some? <==> ReadSnapshot(buf1).Some? && ReadSnapshot(buf2).Some?
  {
    if ReadSnapshot(buf1).None? || ReadSnapshot(buf2).None? then None
    else
      var hd1, run1 := ReadSnapshot(buf1).value.0, ReadSnapshot(buf1).value.1;
      var hd2, run2 := ReadSnapshot(buf2).value.0, ReadSnapshot(buf2).value.1;
      var n := MergeTwoSlots(hd1, hd2);
      Some(FoldIn(Unpacked(hd1, run1, n), hd2, run2, n))
  }

  /**
    Two runs that place back as the buckets of `a` and `b`, under headers that carry
    their summaries, fold together into the merge of `a` and `b`.
  */
  lemma FoldedAlike(a: State, b: State, hdA: Header, runA: seq<nat>, hdB: Header, runB: seq<nat>, n: nat)
    requires hdA.minBucketId == a.minBucketId && hdA.totalCount == a.totalCount && hdA.min == a.min && hdA.max == a.max
    requires hdB.minBucketId == b.minBucketId && hdB.totalCount == b.totalCount && hdB.min == b.min && hdB.max == b.max
    requires forall i :: Get(Placed(runA, Top(hdA), hdA.minBucketId, n), i) == Get(a.counts, i)
    requires forall i :: Get(Placed(runB, Top(hdB), hdB.minBucketId, n), i) == Get(b.counts, i)
    ensures Alike(FoldIn(Unpacked(hdA, runA, n), hdB, runB, n), MergeSpec(a, b))
  {
    var placedA := Placed(runA, Top(hdA), hdA.minBucketId, n);
    var placedB := Placed(runB, Top(hdB), hdB.minBucketId, n);
    assert FoldIn(Unpacked(hdA, runA, n), hdB, runB, n).counts == Merged(placedA, placedB, n);
    MergedGet(placedA, placedB, n, a.counts, b.counts);
    MergeSpecGet(a, b);
  }

  /** Merging the snapshots of `a` and `b` is merging `a` and `b`. */
  lemma MergeTwoSerializedAgrees(a: State, b: State)
    requires RoundTrips(a) && Consistent(a) && RoundTrips(b) && Consistent(b)
    ensures MergeTwoSerializedSpec(SnapshotBytes(a), SnapshotBytes(b)).Some?
    ensures Alike(MergeTwoSerializedSpec(SnapshotBytes(a), SnapshotBytes(b)).value, MergeSpec(a, b))
  {
    var hdA, hdB := SnapshotSummary(a), SnapshotSummary(b);
    var n := MergeTwoSlots(hdA, hdB);
    SnapshotPlaces(a, n);
    SnapshotPlaces(b, n);
    assert MergeTwoSerializedSpec(SnapshotBytes(a), SnapshotBytes(b))
      == Some(FoldIn(Unpacked(hdA, SnapshotRun(a), n), hdB, SnapshotRun(b), n));
    FoldedAlike(a, b, hdA, SnapshotRun(a), hdB, SnapshotRun(b), n);
  }

  /**
    heistogram_merge_two_serialized: a new histogram holding both snapshots'
    buckets, or null when either buffer is shorter than 3 bytes or a varint of
    either is cut short.
  */
  method MergeTwoSerialized(buf1: seq<byte>, buf2: seq<byte>) returns (result: Heistogram?)
    ensures result == null <==> MergeTwoSerializedSpec(buf1, buf2).None?
    ensures result != null ==> fresh(result) && fresh(result.buckets) && result.Valid()
    ensures result != null ==> result.Model() == MergeTwoSerializedSpec(buf1, buf2).value
  {
    if |buf1| < 3 || |buf2| < 3 {
      return null;
    }
    var header1 := DecodeHeader(buf1);
    if header1.None? {
      return null;
    }
    var hd1, at1 := header1.value.0, header1.value.1;
    var header2 := DecodeHeader(buf2);
    if header2.None? {
      return null;
    }
    var hd2, at2 := header2.value.0, header2.value.1;
    result := CreateWithCapacity(Max(Extent(hd1), Extent(hd2)));
    ghost var n := result.capacity;
    assert result.buckets[..] == result.buckets[..n] == Zeros(n);
    var ok1 := AddRun(result.buckets, buf1, at1, hd1);
    ghost var values1 := DecodeRun(buf1, at1, RunLength(hd1)).values;
    ReadAfterHeader(buf1, hd1, at1);
    if !ok1 {
      return null;
    }
    ghost var placed1 := Placed(values1, Top(hd1), hd1.minBucketId, n);
    MergedWithZeros(placed1, n);
    var ok2 := AddRun(result.buckets, buf2, at2, hd2);
    ghost var values2 := DecodeRun(buf2, at2, RunLength(hd2)).values;
    ReadAfterHeader(buf2, hd2, at2);
    if !ok2 {
      return null;
    }
    ghost var placed2 := Placed(values2, Top(hd2), hd2.minBucketId, n);
    assert result.buckets[..n] == result.buckets[..] == Merged(placed1, placed2, n);
    assert result.Model().counts == Merged(placed1, placed2, n);
    assert MergeTwoSerializedSpec(buf1, buf2) == Some(FoldIn(Unpacked(hd1, values1, n), hd2, values2, n));
    result.SetSummary(Min(hd1.minBucketId, hd2.minBucketId), hd1.totalCount + hd2.totalCount,
                      Min(hd1.min, hd2.min), Max(hd1.max, hd2.max));
    assert result.Model() == FoldIn(Unpacked(hd1, values1, n), hd2, values2, n);
  }

  // heistogram_merge_inplace_serialized

  /**
    The capacity heistogram_merge_inplace_serialized grows to as written: when
    max_bucket_id reaches the capacity, max_bucket_id + 1 stored in a uint16_t. The
    memset then clears (new capacity - capacity) buckets.
  */
  function InPlaceSlotsAsWritten(capacity: nat, hd: Header): nat
  {
    if MaxBucketId(hd) >= capacity then U16(MaxBucketId(hd) + 1) else capacity
  }

  /**
    The capacity after growth: the snapshot's Extent when that exceeds the capacity,
    else the capacity itself. It never shrinks, holds every id the bucket loop
    writes, and is the source's own capacity wherever max_bucket_id + 1 does not wrap.
  */
  function InPlaceSlots(capacity: nat, hd: Header): (n: nat)
    ensures Fits(capacity, hd, n) && Reach(hd) <= n
    ensures MaxBucketId(hd) < 0xFFFF ==> n == InPlaceSlotsAsWritten(capacity, hd)
  {
    if Extent(hd) > capacity then Extent(hd) else capacity
  }

  /**
    A fresh histogram of 16 buckets merged in place with the snapshot of an empty
    histogram (EmptyReads): the capacity drops to 0 and the memset is asked to clear
    -16 buckets, where nothing needs to grow.
  */
  lemma InPlaceSlotsShrink()
    ensures var hd := Header(0, 0, 0, 0, 0);
      RunLength(hd) == 0 && InPlaceSlotsAsWritten(INITIAL_CAPACITY, hd) == 0
      && InPlaceSlotsAsWritten(INITIAL_CAPACITY, hd) - INITIAL_CAPACITY < 0
      && !Fits(INITIAL_CAPACITY, hd, InPlaceSlotsAsWritten(INITIAL_CAPACITY, hd))
      && InPlaceSlots(INITIAL_CAPACITY, hd) == INITIAL_CAPACITY
  {
    assert MaxBucketId(Header(0, 0, 0, 0, 0)) == 0xFFFF;
    assert U16(0x1_0000) == 0;
  }

  /**
    heistogram_merge_inplace_serialized: whether it reports success, and the
    histogram it leaves. A short buffer or a header cut short leaves it as it was; a
    bucket varint cut short leaves it grown and holding the buckets added before
    that varint, with the summary untouched.
  */
  function MergeInPlaceSerializedSpec(s: State, buf: seq<byte>): (r: (bool, State))
    ensures r.0 <==> ReadSnapshot(buf).Some?
    ensures |r.1.counts| >= |s.counts|
    ensures !r.0 ==>
      r.1.totalCount == s.totalCount && r.1.min == s.min && r.1.max == s.max && r.1.minBucketId == s.minBucketId
  {
    if |buf| < 3 || DecodeHeader(buf).None? then (false, s)
    else
      var hd, at := DecodeHeader(buf).value.0, DecodeHeader(buf).value.1;
      var n := InPlaceSlots(|s.counts|, hd);
      var run := DecodeRun(buf, at, RunLength(hd)).values;
      if |run| < RunLength(hd) then (false, s.(counts := FoldIn(s, hd, run, n).counts))
      else (true, FoldIn(s, hd, run, n))
  }

  /** A failed in-place merge never takes a count away. */
  lemma MergeInPlaceSerializedGrows(s: State, buf: seq<byte>)
    ensures forall i :: Get(MergeInPlaceSerializedSpec(s, buf).1.counts, i) >= Get(s.counts, i)
  {
  }

  /** Merging a snapshot of `t` in place succeeds and is merging `t` in place. */
  lemma MergeInPlaceSerializedAgrees(s: State, t: State)
    requires RoundTrips(t) && Consistent(t)
    ensures MergeInPlaceSerializedSpec(s, SnapshotBytes(t)).0
    ensures Alike(MergeInPlaceSerializedSpec(s, SnapshotBytes(t)).1, MergeIntoSpec(s, t))
  {
    var hd := SnapshotSummary(t);
    var n := InPlaceSlots(|s.counts|, hd);
    SnapshotPlaces(t, n);
    var placed := Placed(SnapshotRun(t), Top(hd), hd.minBucketId, n);
    MergedGet(s.counts, placed, n, s.counts, t.counts);
    MergeSpecGet(s, t);
  }

  /**
    heistogram_merge_inplace_serialized: grows the histogram when the snapshot
    reaches past its capacity, adds the snapshot's buckets and folds in its summary;
    1 on success, 0 when the buffer is shorter than 3 bytes or a varint is cut short.
  */
  method MergeInPlaceSerialized(h: Heistogram, buf: seq<byte>) returns (status: int)
    requires h.Valid()
    modifies h, h.buckets
    ensures h.Valid()
    ensures status == (if MergeInPlaceSerializedSpec(old(h.Model()), buf).0 then 1 else 0)
    ensures h.Model() == MergeInPlaceSerializedSpec(old(h.Model()), buf).1
  {
    ghost var s := h.Model();
    if |buf| < 3 {
      return 0;
    }
    var header := DecodeHeader(buf);
    if header.None? {
      return 0;
    }
    var hd, at := header.value.0, header.value.1;
    var newCapacity := Extent(hd);
    if newCapacity > h.capacity {
      h.Reserve(newCapacity);
      h.capacity := newCapacity;
    }
    ghost var n := h.capacity;
    ghost var whole := h.buckets[..];
    ghost var grown := whole[..n];
    assert forall i :: 0 <= i < n ==> Get(grown, i) == Get(s.counts, i);
    var ok := AddRun(h.buckets, buf, at, hd);
    ghost var values := DecodeRun(buf, at, RunLength(hd)).values;
    MergedTake(whole, values, Top(hd), hd.minBucketId, h.buckets.Length, n);
    ghost var placed := Placed(values, Top(hd), hd.minBucketId, n);
    MergedSame(grown, s.counts, placed, n);
    ghost var counts := Merged(s.counts, placed, n);
    assert h.Model().counts == counts;
    ReadAfterHeader(buf, hd, at);
    if !ok {
      assert MergeInPlaceSerializedSpec(s, buf) == (false, s.(counts := FoldIn(s, hd, values, n).counts));
      return 0;
    }
    assert MergeInPlaceSerializedSpec(s, buf) == (true, FoldIn(s, hd, values, n));
    // the source's `if (min < h->min) h->min = min;` and its siblings
    h.SetSummary(Min(h.minBucketId, hd.minBucketId), h.totalCount + hd.totalCount,
                 Min(h.min, hd.min), Max(h.max, hd.max));
    assert h.Model() == FoldIn(s, hd, values, n);
    return 1;
  }
}
