/**
  The bucket mapper: value -> bucket id, bucket id -> lower bound, lower bound -> upper bound.

  Ids up to MAX_UNMAPPED_BUCKET form the identity region, where the id is the value
  itself. Above it the id comes from float arithmetic (log2, a float multiply, an int16
  cast) and the lower bound from fast_pow_int and ceil. That logarithmic region is not
  computed here: a LogScale supplies it, and every operation that maps values or ids
  takes the scale as a parameter.
*/
module Buckets {

  const MAX_UNMAPPED_BUCKET: nat := 57
  const BUCKET_MAPPING_DELTA: nat := 147
  /** get_bucket_max takes its argument as a uint32_t. */
  const U32_MOD: nat := 0x1_0000_0000

  /**
    The logarithmic region of the mapping:
    bucketOf(v) stands for (int16_t)((float)log2(v) * HEIST_INV_LOG_GROWTH_FACTOR) - HEIST_BUCKET_MAPPING_DELTA
    and lowerOf(id) for ceil(fast_pow_int(1 + HEIST_GROWTH_FACTOR, id + HEIST_BUCKET_MAPPING_DELTA)).
  */
  datatype LogScale = LogScale(bucketOf: nat -> nat, lowerOf: nat -> nat)

  /** get_bucket_id */
  function BucketId(scale: LogScale, value: nat): (id: nat)
    ensures value <= MAX_UNMAPPED_BUCKET ==> id == value
    ensures value > MAX_UNMAPPED_BUCKET ==> id == scale.bucketOf(value)
  {
    if value <= MAX_UNMAPPED_BUCKET then value else scale.bucketOf(value)
  }

  /** get_bucket_min */
  function BucketMin(scale: LogScale, id: nat): (lower: nat)
    ensures id <= MAX_UNMAPPED_BUCKET ==> lower == id
    ensures id > MAX_UNMAPPED_BUCKET ==> lower == scale.lowerOf(id)
  {
    if id <= MAX_UNMAPPED_BUCKET then id else scale.lowerOf(id)
  }

  /**
    get_bucket_max: the lower bound plus 2% of it, truncated. The argument is first
    narrowed to 32 bits; the float product min * 0.02f is taken as the exact min / 50.
  */
  function BucketMax(lower: nat): (upper: nat)
    ensures lower < U32_MOD ==> lower <= upper <= lower + lower / 50
    ensures lower <= MAX_UNMAPPED_BUCKET ==> upper == lower
    ensures upper < 2 * U32_MOD
  {
    var m := lower % U32_MOD;
    if m <= MAX_UNMAPPED_BUCKET then m else m / 50 + m
  }

  /** In the identity region a value has a bucket of its own: min == max == value. */
  lemma IdentityRegionExact(scale: LogScale, value: nat)
    requires value <= MAX_UNMAPPED_BUCKET
    ensures BucketId(scale, value) == value
    ensures BucketMin(scale, BucketId(scale, value)) == value
    ensures BucketMax(BucketMin(scale, BucketId(scale, value))) == value
  {
  }

  /** Above the identity region the upper bound keeps the 32-bit truncation of the lower bound. */
  lemma UpperBoundNarrowed(lower: nat)
    requires lower >= U32_MOD
    ensures BucketMax(lower) == BucketMax(lower % U32_MOD)
  {
  }
}
