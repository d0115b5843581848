# heistogram in Dafny

A model of heistogram, a log-bucketed, mergeable histogram of unsigned integers with a
compact byte format. The whole library is the single header `src/heistogram.h`.
Values up to 57 get a bucket of their own. Above that, bucket ids grow with the
logarithm of the value, so every bucket spans about 2%. A histogram keeps one counter
per bucket id plus four summary fields: total count, min, max and lowest bucket id.
A snapshot is five header varints followed by the counts of the buckets from the
highest non-empty one down to the lowest recorded id. Percentiles can be read from a
live histogram or straight from a snapshot. Histograms and snapshots merge in five
combinations.

The modules follow the header:

| module | file | models |
|---|---|---|
| `Varint` | varint.dfy | `encode_varint` and `decode_varint`, with a three-band short form and a big-endian long form |
| `Runs` | runs.dfy | a sequence of varints written one after another, and reading such a run back |
| `Buckets` | buckets.dfy | `get_bucket_id`, `get_bucket_min`, `get_bucket_max` |
| `Counters` | counters.dfy | sequences of bucket counts: prefix sums and element-wise sums |
| `Histogram` | histogram.dfy | the `Heistogram` struct as a class; `create`, `add`, the getters, `merge`, `merge_inplace` |
| `Wire` | wire.dfy | `decode_header`, `heistogram_serialize`, `heistogram_deserialize` |
| `Percentile` | percentile.dfy | `heistogram_percentile` and `heistogram_percentile_serialized` |
| `Batch` | batch.dfy | `heistogram_percentiles` and `heistogram_percentiles_serialized` |
| `Prank` | prank.dfy | `heistogram_prank` |
| `SerializedMerge` | serialized_merge.dfy | `merge_serialized`, `merge_two_serialized`, `merge_inplace_serialized` |

Each imperative C function is a method with its loops and invariants. It is proved
against a function on values:
- `State` stands for a live histogram;
- `seq<byte>` stands for a snapshot;
- `Header` is what `decode_header` reads.

Lemmas relate those functions. Examples:
- the varint and snapshot round trips;
- the serialized operations agree with the live ones;
- the merges keep the counters consistent.

Fixed-width arithmetic is written out where the source depends on it:
- `uint16_t` and `int16_t` conversions of bucket ids and capacities (`U16`, `I16`);
- `uint64_t` differences (`Wrap64`);
- the `uint32_t` narrowing of bucket counts in `encode_bucket`.

The floating-point parts of the logarithmic bucket region are a parameter, `LogScale`:
- `log2`, the float multiply and the `int16_t` cast in `get_bucket_id`;
- `fast_pow_int` and `ceil` in `get_bucket_min`.

Every operation that maps values takes a `LogScale`. Doubles in the percentile and rank
arithmetic are exact reals.

The four Findings rows below are the places where the source as written defeats its
own purpose. For each one, the model keeps an as-written definition with a lemma that
shows the failing input. The operation itself follows the corrected behaviour:
- `Prank.Prank` and `Prank.PrankSpec` answer 100 for a value at or above max. Only
  `Prank.PrankAsWritten` answers `max`, as line 453 does.
- `SerializedMerge.MergeSerialized`, `SerializedMerge.MergeTwoSerialized` and
  `SerializedMerge.MergeInPlaceSerialized` size their buckets by `MergeSlots`,
  `MergeTwoSlots` and `InPlaceSlots`. These cast max_bucket_id + 1 to `uint16_t`
  before comparing it (`Extent`). Their contracts prove the result equal to the
  source's own size wherever max_bucket_id is below 65535. That covers crafted headers
  whose ids lie beyond the `int16_t` range: there the source's size is kept and no
  bucket is read. Only for a max_bucket_id of 65535, where the source's `+ 1` wraps, do
  they differ from the source.

Everywhere else the model follows the source, including where it departs from the
library's stated design: `heistogram_deserialize` never restores `min_bucket_id`, which
stays 0.

`decode_varint` reads no length. The model's decoder reads a `seq<byte>` and reports a
varint the buffer cuts short as a failure (`None`, or a byte count of 0). That makes
the source's `bytes_read == 0` checks the live error paths of every reader.

## Model

| member | source | states |
|---|---|---|
| Varint.Encode | src/heistogram.h:36-70 | the encoding takes 1 to 9 bytes: exactly 1 for values ≤ 240, 2 up to 2287 and 3 up to 67823 |
| Varint.PayloadFits | src/heistogram.h:55-62 | the long-form payload width chosen by the `bytes` ladder holds the value, and is at most 6 bytes exactly below 2^48 |
| Varint.BigEndianRoundTrip | src/heistogram.h:65-68 | the bytes written by the shifting loop read back, big-endian, as the value |
| Varint.Decode | src/heistogram.h:73-96 | fails exactly when the buffer ends before the length the lead byte declares; otherwise consumes that many bytes and yields a value below 2^48 |
| Varint.DecodeEncode | src/heistogram.h:36-96 | decoding the encoding of any value below 2^48 gives the value back and consumes exactly the bytes written |
| Varint.DecodeEncodeLong | src/heistogram.h:55-96 | the same round trip for the long form, 67824 up to 2^48 |
| Varint.WideValueBreaksRoundTrip | src/heistogram.h:64 | the lead byte `249 + bytes` wraps to 0 for a 7-byte payload, so 2^48 is written in 8 bytes and reads back as 0 after one byte |
| Varint.EncodeVarint | src/heistogram.h:36-70 | writes exactly the encoding of the value at the offset, returns its length, and leaves the rest of the buffer unchanged |
| Varint.EncodeLong | src/heistogram.h:55-69 | the long form: lead byte `(249 + bytes) mod 256` and then the big-endian payload, nothing else touched |
| Varint.WritePayload | src/heistogram.h:65-68 | the shifting loop writes the low `bytes` bytes of the value, most significant first, and nothing else |
| Varint.DecodeVarint | src/heistogram.h:73-96 | reports 0 bytes exactly when the decoder fails, and otherwise the decoder's value and length |
| Runs.EncodeRun | src/heistogram.h:510-513 | a run of n varints takes between n and 9n bytes |
| Runs.EncodeRunConcat | src/heistogram.h:503-513 | the bytes of two runs written one after the other are the bytes of the joined run |
| Runs.DecodeRun | src/heistogram.h:565-573 | reads at most k values, never moves backwards and stays inside the buffer; every value is below 2^48 |
| Runs.DecodeRunEncoded | src/heistogram.h:565-573 | reading back the varints of a run of values below 2^48 gives the run and ends right after its bytes |
| Runs.DecodeRunPrefix | src/heistogram.h:565-573 | reading fewer values reads the first values of a longer read |
| Runs.DecodeRunShorter | src/heistogram.h:565-573 | asking for more values never reads fewer |
| Runs.DecodeRunSnoc | src/heistogram.h:565-573 | one more value is the next varint where the run ended, or nothing when that varint is cut short |
| Runs.DecodeRunAt | src/heistogram.h:565-573 | after k values, the next varint is value k of the full read, or the full read is short |
| Buckets.BucketId | src/heistogram.h:121-124 | values up to 57 are their own bucket id; above that, the id comes from the logarithmic scale |
| Buckets.BucketMin | src/heistogram.h:126-129 | ids up to 57 are their own lower bound; above that, the bound comes from the logarithmic scale |
| Buckets.BucketMax | src/heistogram.h:131-134 | the upper bound lies between the lower bound and that plus 2% for 32-bit inputs, equals it up to 57, and stays below 2^33 |
| Buckets.IdentityRegionExact | src/heistogram.h:121-134 | a value up to 57 has a bucket whose id, lower and upper bounds are the value itself |
| Buckets.UpperBoundNarrowed | src/heistogram.h:131 | the upper bound of a lower bound ≥ 2^32 is that of its 32-bit truncation |
| Counters.PrefixAgree | src/heistogram.h:360-375 | counts that agree on the first n buckets have the same running sum there |
| Counters.MergedTotal | src/heistogram.h:304-310 | the element-wise sum of two count sequences totals the sum of their totals |
| Counters.BumpedPrefix | src/heistogram.h:275 | incrementing one bucket raises every running sum that includes it by exactly one |
| Histogram.Empty | src/heistogram.h:205-223 | a new histogram has 16 buckets and a total of 0 |
| Histogram.AddSpec | src/heistogram.h:247-277 | `add` raises total_count and the value's bucket by exactly one and leaves every other bucket unchanged. The first value sets min, max and min_bucket_id; later values keep them as running minimum and maximum. A bucket at or past the capacity grows the capacity to id + 16 |
| Histogram.AddConsistent | src/heistogram.h:247-277 | `add` keeps total_count equal to the sum of the buckets and every bucket below min_bucket_id empty |
| Histogram.MergeSpec | src/heistogram.h:279-319 | `merge`: bucket i is the sum of the operands' buckets (0 past a capacity), the capacity is the larger one and at least 16, total is the sum, min/max/min_bucket_id are the min/max/min |
| Histogram.MergeIntoSpec | src/heistogram.h:322-349 | `merge_inplace`: the same sums in the larger of the two capacities |
| Histogram.MergeConsistent | src/heistogram.h:279-349 | both merges keep total_count equal to the sum of the buckets and the buckets below min_bucket_id empty |
| Histogram.MergeIntoAgrees | src/heistogram.h:279-349 | the in-place merge and the merge into a new histogram agree on every bucket, the total, min and max |
| Histogram.MergeIntoSelf | src/heistogram.h:322-349 | `merge_inplace(h, h)` doubles every bucket and the total and keeps min, max and min_bucket_id |
| Histogram.Heistogram.constructor | src/heistogram.h:205-223 | a new histogram is the empty state with 16 zeroed buckets |
| Histogram.Heistogram.Count | src/heistogram.h:231-233 | returns total_count |
| Histogram.Heistogram.Min | src/heistogram.h:239-241 | returns min |
| Histogram.Heistogram.Max | src/heistogram.h:235-237 | returns max |
| Histogram.Heistogram.Reserve | src/heistogram.h:262-272 | growing keeps every bucket below the capacity and zero-fills the new slots; no summary field changes |
| Histogram.Heistogram.Add | src/heistogram.h:247-277 | the histogram after `add` is AddSpec of the one before |
| Histogram.Heistogram.Observe | src/heistogram.h:251-259 | the first value sets min, max and min_bucket_id, and later values widen them |
| Histogram.Heistogram.MergeInPlace | src/heistogram.h:322-349 | the first histogram becomes MergeIntoSpec of the two, and the call returns 1. This includes merging a histogram into itself, which doubles every bucket and the total |
| Histogram.Heistogram.SetSummary | src/heistogram.h:312-316 | the closing assignments of a merge set the four summary fields and leave the buckets alone |
| Histogram.Heistogram.AddInto | src/heistogram.h:304-306 | the loop adds the other histogram's old bucket i into bucket i for every i below the capacity, even when both share one bucket array |
| Histogram.Merge | src/heistogram.h:279-319 | returns a fresh histogram that is MergeSpec of the operands; neither operand changes |
| Histogram.CreateWithCapacity | src/heistogram.h:282-301 | `create` followed by the merge's growth: capacity max(16, wanted), every bucket zero |
| Wire.U16 | src/heistogram.h:539 | the `uint16_t` conversion is below 2^16 and keeps values that fit |
| Wire.I16 | src/heistogram.h:565 | the `int16_t` conversion lies in [-2^15, 2^15), keeps values that fit and maps 2^15..2^16-1 to the negatives |
| Wire.Descending | src/heistogram.h:510-513 | the counts from id `top` down to `lo`, one per id, highest first |
| Wire.Narrow | src/heistogram.h:136-140 | every count as `encode_bucket` receives it: modulo 2^32 |
| Wire.HighestFrom | src/heistogram.h:483-485 | the scan stops at a non-empty bucket, or at -1, with every bucket it passed empty |
| Wire.HighestIsLast | src/heistogram.h:480-485 | max_bucket_id is the highest non-empty bucket, or -1 when there is none |
| Wire.SnapshotHeader | src/heistogram.h:503-507 | five header values: the span, total_count, min, max - min (as a uint64_t), min_bucket_id |
| Wire.SnapshotRun | src/heistogram.h:510-513 | one count per id from max_bucket_id down to min_bucket_id, zeros included, each below 2^32 |
| Wire.SnapshotBytes | src/heistogram.h:490-496 | the snapshot takes at least 5 bytes and at most 45 + 9 × span |
| Wire.DecodeHeader | src/heistogram.h:149-186 | fails exactly when one of the five header varints is cut short; otherwise ends inside the buffer, with bucket_count and min_bucket_id as uint16_t |
| Wire.DecodeHeaderOf | src/heistogram.h:149-186 | the header is the five varints with the two ids cast to `uint16_t` and max rebuilt as min + delta |
| Wire.RunLength | src/heistogram.h:565 | the readers' loop visits the ids from `(int16_t)max_bucket_id` down to min_bucket_id, or none |
| Wire.Placed | src/heistogram.h:565-573 | bucket `top - k` receives value k for ids in [lo, top]; every other bucket is 0 |
| Wire.DeserializeSpec | src/heistogram.h:523-578 | `deserialize`: NULL where the header or a bucket varint is cut short, else total, min and max from the header and min_bucket_id 0 |
| Wire.SnapshotHeaderRoundTrip | src/heistogram.h:503-507 | the snapshot's header reads back as the histogram's own summary, followed immediately by the bucket varints |
| Wire.SnapshotLayout | src/heistogram.h:476-521 | a snapshot's header reads back, and its bucket varints read back as its run |
| Wire.SnapshotSpan | src/heistogram.h:539-565 | for a snapshot, the reader's loop starts at the writer's max_bucket_id and reads exactly the run. The deserialized capacity is 16 or one past the highest bucket, and 0 when every bucket is empty |
| Wire.SnapshotDeserializes | src/heistogram.h:523-578 | a snapshot deserializes to its summary with its run placed from the highest bucket down |
| Wire.SnapshotRunRestores | src/heistogram.h:565-576 | placing a consistent histogram's run by id gives back every bucket |
| Wire.AddSerializable | src/heistogram.h:247-277 | `add` keeps a histogram serializable, given bucket id + 16 within `int16_t` and the total and value within `uint64_t`. The recorded bucket is not empty, so min_bucket_id never passes the highest bucket |
| Wire.MergeSerializable | src/heistogram.h:279-349 | both merges of serializable histograms are serializable while the summed total fits a `uint64_t`, and they keep min ≤ max |
| Wire.ConsistentRoundTrips | src/heistogram.h:136-140 | a consistent, serializable histogram with a total below 2^32 and max below 2^48 has every bucket below 2^32, so its snapshot reads back exactly |
| Wire.AddRoundTrips | src/heistogram.h:247-277 | `add` keeps a histogram consistent, with a snapshot that reads back exactly, within those bounds |
| Wire.MergeRoundTrips | src/heistogram.h:279-349 | both merges keep histograms consistent, with snapshots that read back exactly, while the summed total stays below 2^32 |
| Wire.DeserializeSerialize | src/heistogram.h:476-578 | deserializing a snapshot restores total_count, min, max and every bucket; min_bucket_id comes back as 0; the capacity is 16 or one past the highest non-empty bucket (0 when every bucket is empty) |
| Wire.EmptySnapshot | src/heistogram.h:496-507 | the snapshot of a new histogram is five zero bytes: its span is 0 |
| Wire.SnapshotOfNothing | src/heistogram.h:496-507 | any histogram with no non-empty bucket and zero summary serializes to five zero bytes |
| Wire.Put | src/heistogram.h:503-512 | one `encode_varint` call appends the value's varint to what the buffer already holds |
| Wire.PutHeader | src/heistogram.h:503-507 | the buffer starts with the five header varints, in at most 45 bytes |
| Wire.HighestBucket | src/heistogram.h:480-485 | the scan returns max_bucket_id, the highest non-empty bucket or -1 |
| Wire.PutBuckets | src/heistogram.h:510-513 | the loop appends the varint of every bucket from max_bucket_id down to min_bucket_id |
| Wire.Serialize | src/heistogram.h:476-521 | `serialize` returns exactly the snapshot bytes, at most 45 + 9 × span of them |
| Wire.ReadBuckets | src/heistogram.h:563-573 | the loop fails exactly when the run is cut short; otherwise the buckets hold the run placed from max_bucket_id down |
| Wire.ClearBelow | src/heistogram.h:574-576 | the trailing loop only clears buckets that are already empty, so nothing changes |
| Wire.CreateFor | src/heistogram.h:541-557 | `create` plus growth: room for every id up to max_bucket_id, every slot empty, and a capacity of 16 or `(uint16_t)(max_bucket_id + 1)` |
| Wire.Deserialize | src/heistogram.h:523-578 | returns NULL exactly where DeserializeSpec is None, and otherwise a fresh histogram equal to it |
| Percentile.TargetWithin | src/heistogram.h:354 | for p in [0, 100] the target lies between 0 and total_count |
| Percentile.TargetAntitone | src/heistogram.h:354 | a larger percentile never has a larger target |
| Percentile.ClampedMin | src/heistogram.h:364-368 | the interpolation's lower bound is never below the histogram's min |
| Percentile.ClampedMax | src/heistogram.h:365-367 | the interpolation's upper bound is never above the histogram's max |
| Percentile.InterpolateWithin | src/heistogram.h:363-371 | inside an answer bucket, `pos` lies in [0, 1], so the answer lies between the clamped bounds |
| Percentile.Percentile | src/heistogram.h:351-378 | the live scan returns PercentileSpec: 0 for p outside [0, 100], the walk down from `(int16_t)(capacity - 1)` otherwise |
| Percentile.ScanAnswer | src/heistogram.h:360-372 | the answer comes from the first non-empty bucket, from the top, whose count brings the running sum to the target |
| Percentile.ScanFallback | src/heistogram.h:377 | when no bucket reaches the target, the answer is min |
| Percentile.ScanSkipsEmpty | src/heistogram.h:361 | empty buckets do not affect the answer |
| Percentile.ScanWithin | src/heistogram.h:360-377 | with every non-empty bucket's bounds bracketing [min, max], the answer lies in [min, max] |
| Percentile.PercentileWithin | src/heistogram.h:351-378 | for p in [0, 100] the percentile lies between min and max |
| Percentile.PercentileAnswer | src/heistogram.h:360-372 | the percentile is the interpolation inside the first qualifying bucket |
| Percentile.PercentileFallback | src/heistogram.h:377 | when no bucket qualifies, the percentile is min |
| Percentile.HundredthPercentile | src/heistogram.h:351-378 | the 100th percentile is the clamped upper bound of the highest non-empty bucket |
| Percentile.PercentileSerialized | src/heistogram.h:585-626 | the serialized scan returns PercentileSerializedSpec: 0 for a short buffer, a bad header or a cut-short varint |
| Percentile.ScanBuckets | src/heistogram.h:603-625 | the loop over bucket varints returns the serialized scan from max_bucket_id down |
| Percentile.ScanBytesDecoded | src/heistogram.h:608-623 | scanning varints that read back as a run is scanning the run |
| Percentile.ScanRunCounts | src/heistogram.h:608-623 | scanning the descending run of a histogram is scanning its buckets |
| Percentile.SerializedScansRun | src/heistogram.h:585-626 | the percentile of a snapshot is the scan of its run |
| Percentile.LiveScansRun | src/heistogram.h:351-378 | the live percentile is the same scan of the snapshot's run |
| Percentile.PercentileSerializedAgrees | src/heistogram.h:585-626 | for p in [0, 100] the percentile of the snapshot of a consistent histogram equals its live percentile |
| Batch.FirstIsUnique | src/heistogram.h:406-413 | a value has one first occurrence |
| Batch.SortDescending | src/heistogram.h:389-397 | the exchange sort leaves the copy in descending order and a permutation of the request |
| Batch.PlaceLargest | src/heistogram.h:390-396 | the inner loop puts the largest remaining value at position i, keeps the sorted prefix and permutes |
| Batch.Swap | src/heistogram.h:392-394 | exchanges two positions |
| Batch.FindFirst | src/heistogram.h:407-412 | finds the first position of the request that holds the value |
| Batch.IndexMap | src/heistogram.h:406-413 | every sorted percentile is mapped to the first position that holds it |
| Batch.SlotOf | src/heistogram.h:406-413 | every first position is the target of some sorted percentile |
| Batch.AnswerBucket | src/heistogram.h:420-438 | one bucket answers the pending percentiles whose target it reaches, in order, and stops at the first it does not |
| Batch.Answer | src/heistogram.h:431 | writing an answer to its slot answers that percentile and keeps the others |
| Batch.ProgressStep | src/heistogram.h:431-432 | the same, for the values |
| Batch.AnswerRest | src/heistogram.h:442-445 | the closing loop gives every percentile left the fallback answer |
| Batch.PassBucket | src/heistogram.h:420-437 | a bucket that none of the pending targets reaches is passed over by every pending scan |
| Batch.ScanAnswers | src/heistogram.h:419-439 | the walk answers every sorted percentile with the single-percentile scan |
| Batch.LiveBucket | src/heistogram.h:420-438 | one bucket of the live walk keeps every pending percentile answered by the scan from the next bucket |
| Batch.Prepare | src/heistogram.h:385-413 | the copy is sorted descending, is a permutation of the request and is mapped back to first positions |
| Batch.Answered | src/heistogram.h:441-445 | at the end every first occurrence holds its answer and every other slot what it held before |
| Batch.Percentiles | src/heistogram.h:381-449 | every first occurrence of a requested p gets PercentileCore of p; a repeated p leaves its later slots as they were |
| Batch.PassBytes | src/heistogram.h:693-711 | a decoded bucket that no pending target reaches is passed over by every pending serialized scan |
| Batch.BytesBucket | src/heistogram.h:685-711 | one decoded bucket answers what it can and adds its count; a cut-short varint stops the walk, and every pending answer is then 0 |
| Batch.ScanAnswersBytes | src/heistogram.h:684-712 | the serialized walk answers the sorted percentiles in order; it stops early only when a varint is cut short, with every unanswered answer 0 |
| Batch.WalkStep | src/heistogram.h:685-691 | decoding the next varint advances the walk by one value of the run |
| Batch.WalkStuck | src/heistogram.h:686-690 | a varint cut short before the end means the run is short |
| Batch.PartlyAnswered | src/heistogram.h:684-718 | after an early stop, every first occurrence holds its answer or, when that answer is 0, what it held before |
| Batch.PercentilesSerialized | src/heistogram.h:630-722 | a short buffer or a bad header changes nothing. Otherwise every first occurrence gets PercentileSerializedSpec of its p, or keeps its old value when the walk stops early and that answer is 0. For a decodable snapshot, every first occurrence is answered |
| Prank.PrankAsWrittenExceeds | src/heistogram.h:453 | as written, a histogram whose max is above 100, queried at or above its max, gets a rank above 100 |
| Prank.IdentityInOwnBucket | src/heistogram.h:121-134 | a value up to 57 lies within its bucket's bounds |
| Prank.PositionInUnit | src/heistogram.h:463-470 | a value within its bucket's bounds has a position in [0, 1]; 0.5 when the bounds coincide |
| Prank.PrankWithin | src/heistogram.h:451-474 | for a consistent histogram and a value within its own bucket's bounds, the rank lies in [0, 100] |
| Prank.PrankOfEmptyBucket | src/heistogram.h:457-473 | a value below max whose bucket and every bucket above it are empty ranks 100 |
| Prank.Prank | src/heistogram.h:451-474 | the method returns PrankSpec: 100 at or above max or past the capacity, otherwise 100 × (counts below + position × count) / total |
| SerializedMerge.ReadSnapshot | src/heistogram.h:726-738 | a snapshot reads only when it has at least 3 bytes and its header decodes; then it yields that header and a run of exactly the length the loop visits |
| SerializedMerge.ReadSnapshotOf | src/heistogram.h:476-521 | the snapshot of a histogram reads back as its summary and its run |
| SerializedMerge.EmptyReads | src/heistogram.h:496-507 | the snapshot of a new histogram reads back as an all-zero header with no run |
| SerializedMerge.OneReads | src/heistogram.h:476-521 | the snapshot of a histogram holding one value in bucket b reads back as header (1, 1, v, v, b) and run [1] |
| SerializedMerge.SixteenReads | src/heistogram.h:247-277 | a new histogram after `add(16)` has 32 buckets, and its snapshot reads back as header (1, 1, 16, 16, 16) and run [1] |
| SerializedMerge.Reach | src/heistogram.h:771 | one past the highest id the bucket loop writes |
| SerializedMerge.SnapshotPlaces | src/heistogram.h:771-780 | placing a snapshot's run into at least Reach buckets gives back every bucket of the histogram |
| SerializedMerge.FoldIn | src/heistogram.h:782-786 | folding a snapshot into a histogram adds the totals and keeps the lower min and min_bucket_id and the higher max |
| SerializedMerge.Extent | src/heistogram.h:740 | max_bucket_id + 1 as a `uint16_t`: one past max_bucket_id below 65535, 0 for 65535, and never short of the highest id the loop writes |
| SerializedMerge.MergeSlots | src/heistogram.h:747-762 | the result's capacity holds the live histogram and every id the bucket loop writes, and is at least 16. It equals the source's size whenever max_bucket_id is below 65535 |
| SerializedMerge.MergeSlotsOverflow | src/heistogram.h:747 | as written, a 32-bucket histogram merged with an empty snapshot gets 16 buckets, too few to copy the live ones |
| SerializedMerge.MergeSerializedSpec | src/heistogram.h:725-789 | `merge_serialized` returns NULL exactly when the snapshot does not read |
| SerializedMerge.MergeSerializedAgrees | src/heistogram.h:725-789 | merging the snapshot of a consistent histogram gives the same buckets, total, min, max and min_bucket_id as the live `merge` |
| SerializedMerge.AddStep | src/heistogram.h:771-780 | adding the next decoded count at id `top - k` extends the partial sum by one value |
| SerializedMerge.AddedAll | src/heistogram.h:771-780 | after the whole run, the buckets are the old ones plus the run placed by id |
| SerializedMerge.AddCount | src/heistogram.h:779 | one slot grows by the count and every other slot keeps its value |
| SerializedMerge.AddRun | src/heistogram.h:771-780 | the bucket loop fails exactly when the run is cut short, and adds the run placed from max_bucket_id down into the buckets |
| SerializedMerge.MergeSerialized | src/heistogram.h:725-789 | returns NULL exactly where MergeSerializedSpec is None, and otherwise a fresh histogram equal to it |
| SerializedMerge.MergeTwoSlots | src/heistogram.h:827-844 | the result's capacity holds every id either bucket loop writes, and is at least 16. It equals the source's size whenever both max_bucket_ids are below 65535 |
| SerializedMerge.MergeTwoSlotsOverflow | src/heistogram.h:827-829 | as written, merging an empty snapshot with one holding bucket 16 sizes the result at 16 buckets, while the second loop writes bucket 16 |
| SerializedMerge.MergeTwoSerializedSpec | src/heistogram.h:792-876 | `merge_two_serialized` returns NULL exactly when either snapshot does not read |
| SerializedMerge.FoldedAlike | src/heistogram.h:848-873 | two runs that place back as the buckets of two histograms fold together into their live merge |
| SerializedMerge.MergeTwoSerializedAgrees | src/heistogram.h:792-876 | merging the snapshots of two consistent histograms gives the same buckets, total, min, max and min_bucket_id as the live `merge` |
| SerializedMerge.MergeTwoSerialized | src/heistogram.h:792-876 | returns NULL exactly where MergeTwoSerializedSpec is None, and otherwise a fresh histogram equal to it |
| SerializedMerge.InPlaceSlots | src/heistogram.h:896-907 | the capacity after growth holds every id the bucket loop writes and never shrinks. It equals the source's capacity whenever max_bucket_id is below 65535 |
| SerializedMerge.InPlaceSlotsShrink | src/heistogram.h:897-903 | as written, a new histogram merged in place with an empty snapshot gets capacity 0, and the memset is asked to clear -16 buckets |
| SerializedMerge.MergeInPlaceSerializedSpec | src/heistogram.h:879-926 | success exactly when the snapshot reads. The capacity never shrinks. A failure leaves the summary as it was, but keeps the growth and the counts added before the cut |
| SerializedMerge.MergeInPlaceSerializedGrows | src/heistogram.h:909-917 | merging in place, even when it fails, never lowers a bucket |
| SerializedMerge.MergeInPlaceSerializedAgrees | src/heistogram.h:879-926 | merging the snapshot of a consistent histogram in place succeeds and gives the same buckets, total, min, max and min_bucket_id as the live `merge_inplace` |
| SerializedMerge.MergeInPlaceSerialized | src/heistogram.h:879-926 | returns 1 or 0 as MergeInPlaceSerializedSpec says, and leaves the histogram equal to its state |

## Left out

- `heistogram_free`, `heistogram_memory_size` and every allocation failure are not modelled: memory management and `sizeof` arithmetic. Allocation always succeeds, so `add`'s early return after a failed `realloc`, which has already updated min and max, is not modelled.
- The float arithmetic of the logarithmic bucket region (`log2`, the float multiply, `fast_pow_int`, `ceil`) is not computed. `LogScale` supplies it as a parameter, and no relative-error bound is proved.
- Doubles are exact reals in the percentile and rank arithmetic, so rounding is not modelled.
- Buckets.BucketMax: the float product `min * 0.02f` is taken as the exact `min / 50`.
- Counters are unbounded naturals: the 64-bit overflow of `total_count` and of the bucket counts is not modelled. The 32-bit narrowing in `encode_bucket` is modelled.
- Varint.Decode: reports a buffer that ends inside a varint as a failure; the source reads past the end of the buffer.
- Varint.DecodeEncode: the round trip holds only below 2^48, because of the lead byte `249 + bytes` (see Varint.WideValueBreaksRoundTrip). The model keeps that codec rather than a corrected one.
- `encode_empty_buckets` (src/heistogram.h:142-147) is not modelled: nothing calls it.
- Percentile.PercentileWithin: needs every non-empty bucket's bounds to bracket [min, max] (`Bracketed`), which the logarithmic region does not promise without its float arithmetic.
- Prank.PrankWithin: needs the value to lie within its own bucket's bounds (`InOwnBucket`), shown for values up to 57. Above 57 it rests on the float arithmetic of the logarithmic region.
- Prank.Prank: models the corrected answer of 100 at or above max, not the source's `return h->max` (src/heistogram.h:453). `Prank.PrankAsWritten` keeps the source's answer (see Findings).
- Prank.Prank: the query value is a whole number, so the `value < 0` check and fractional values are not modelled. A value below max with a total of 0 divides by a zero total (NaN or infinity in the source); the model answers 0.
- SerializedMerge.MergeSerialized: models the corrected sizing `MergeSlots`. It differs from the source only when the snapshot's max_bucket_id is 65535, where the source's capacity wraps to 0 (see Findings).
- SerializedMerge.MergeTwoSerialized: models the corrected sizing `MergeTwoSlots`. It differs from the source only when either snapshot's max_bucket_id is 65535 (see Findings).
- SerializedMerge.MergeInPlaceSerialized: models the corrected growth `InPlaceSlots`. It differs from the source only when the snapshot's max_bucket_id is 65535, where the source shrinks the capacity to 0 (see Findings).
- Wire.Serialize: requires `Serializable`: a capacity of at most 2^15 and min_bucket_id at most one above the highest non-empty bucket. For a crafted state outside these bounds, the source computes a negative span at src/heistogram.h:493-503, and that path is not modelled. `Wire.AddSerializable` and `Wire.MergeSerializable` show that `add` and the merges keep every histogram they build within the bounds, while bucket ids stay 16 below the `int16_t` limit.
- Batch.Percentiles, Batch.PercentilesSerialized: assume the results array is separate from the request, as C callers pass it. The slots of repeated percentiles are left as they were.
- The `NULL` checks on the histogram and buffer pointers are not modelled: Dafny references here are never null.

## Findings

| source | as written | input that shows it | evidently intended | confidence | as-written member | corrected member |
|---|---|---|---|---|---|---|
| src/heistogram.h:747 | `new_capacity` is `max(h->capacity, max_bucket_id + 1)` stored in a `uint16_t`. When max_bucket_id is 65535, as for an empty snapshot (span 0, so `0 + 0 - 1`), the sum is 65536 and the capacity wraps to 0. The result keeps 16 buckets while the copy loop runs to `h->capacity`. For every smaller max_bucket_id, the corrected size equals the source's | a live histogram after `add(16)`, with 32 buckets (SerializedMerge.SixteenReads), merged with the snapshot of a new histogram (SerializedMerge.EmptyReads) | size the result by the live capacity and one past the highest id the bucket loop writes | not executed | SerializedMerge.MergeSlotsOverflow | SerializedMerge.MergeSlots |
| src/heistogram.h:827-829 | `new_capacity = max(max_bucket_id1, max_bucket_id2) + 1` in a `uint16_t` wraps to 0 when either max_bucket_id is 65535, as for an empty snapshot. The result keeps 16 buckets while the other loop writes higher ids. When both are below 65535, the corrected size equals the source's | the snapshot of a new histogram and the snapshot of a histogram holding the single value 16 (SerializedMerge.OneReads) | size the result by one past the highest id either bucket loop writes | not executed | SerializedMerge.MergeTwoSlotsOverflow | SerializedMerge.MergeTwoSlots |
| src/heistogram.h:897-903 | a max_bucket_id of 65535, as in an empty snapshot, passes the growth test. `new_capacity` wraps to 0, `realloc` is asked for 0 bytes, and the memset length `new_capacity - h->capacity` is negative. For every smaller max_bucket_id, the corrected capacity equals the source's | a new histogram merged in place with the snapshot of a new histogram | grow only to one past the highest id the bucket loop writes, and never shrink | not executed | SerializedMerge.InPlaceSlotsShrink | SerializedMerge.InPlaceSlots |
| src/heistogram.h:453 | a value at or above max answers `h->max` itself rather than a rank | a histogram holding the value 200, queried at 200, answers 200 | answer 100, the rank of the maximum | not executed | Prank.PrankAsWrittenExceeds | Prank.PrankWithin |
