/** Bucket arithmetic and HTTP dates of src/timeutil.rs. */
module TimeUtil {
  import opened Wrappers
  import opened Documents
  import opened Library

  /** Rust's integer division, which truncates toward zero. */
  function TruncatedDiv(a: int, b: int): int
    requires b > 0
  {
    if a >= 0 then a / b else -(-a / b)
  }

  /** The representable range of `OffsetDateTime`: years -9999 to 9999. */
  const MIN_CLOCK: int := -3777_0511_6800
  const MAX_CLOCK: int := 2534_0230_0799

  /** An `OffsetDateTime`, as its Unix timestamp. */
  type Clock = t: int | MIN_CLOCK <= t <= MAX_CLOCK witness 0

  function LastCompletedBucket(now: Clock): (i64, i64) {
    var end := TruncatedDiv(now, GRANULARITY_SECONDS) * GRANULARITY_SECONDS;
    var start := end - GRANULARITY_SECONDS;
    (start, start)
  }

  datatype DateError = InvalidDate | BeforeEpoch

  function ParseHttpDateEpoch(lib: Library, text: string): Result<i64, DateError> {
    var seconds :- lib.parseHttpDate(text).ToResult(InvalidDate);
    if seconds < 0 then Err(BeforeEpoch) else Ok(seconds)
  }

  /** At any clock the bucket ends at the multiple of 300 next to the clock in the direction of the epoch. */
  lemma BucketEndsTowardEpoch(now: Clock)
    ensures var (start, end) := LastCompletedBucket(now);
            && start == end && (start + 300) % 300 == 0
            && (now >= 0 ==> start + 300 <= now < start + 600)
            && (now <= 0 ==> now <= start + 300 < now + 300)
  {
    var start := LastCompletedBucket(now).0;
    var t: int := now;
    if t >= 0 {
      assert start == t / 300 * 300 - 300;
    } else {
      assert start == -(-t / 300) * 300 - 300;
    }
  }

  /** From the first full bucket on, the bucket is the last one that ended at or before `now`. */
  lemma BucketIsLastCompleted(now: Clock)
    requires now >= 300
    ensures var (start, end) := LastCompletedBucket(now);
            && start == end && start >= 0 && start % 300 == 0
            && start + 300 <= now < start + 600
    ensures forall bucket: int | bucket % 300 == 0 && bucket + 300 <= now ::
              bucket <= LastCompletedBucket(now).0
  {
    var start := LastCompletedBucket(now).0;
    assert start == (now / 300 - 1) * 300;
    forall bucket: int | bucket % 300 == 0 && bucket + 300 <= now
      ensures bucket <= start
    {
      assert bucket == bucket / 300 * 300;
    }
  }
}
