/** Window arithmetic: how many bytes are sampled from the start and from the end
    of a file of a given length.  Both functions follow the source's i64 arithmetic,
    including the special case for lengths that do not fit in an i64; the lemmas
    relate them to the plain unbounded description `min(len, SAMPLE_SIZE)` and
    `min(len - SAMPLE_SIZE, SAMPLE_SIZE)`. */
module Sampling {
  import opened Wrappers
  import opened Ints

  /** Size of the head and of the tail sample, and of the one read buffer: 512 KiB. */
  const SAMPLE_SIZE: i64 := 0x80000

  function Min(a: int, b: int): int {
    if a <= b then a else b
  }

  /** Number of bytes hashed from the start of a file of length `len`. */
  function HeadLength(len: u64): (r: i64)
    ensures 0 <= r <= SAMPLE_SIZE
    ensures r <= len
  {
    if len > I64_MAX then SAMPLE_SIZE
    else Min(len, SAMPLE_SIZE)
  }

  /** Number of bytes hashed from the end of a file of length `len`, if any.
      The subtraction `len as i64 - SAMPLE_SIZE` is checked to stay within i64. */
  function TailLength(len: u64): (r: Option<i64>)
    ensures r.None? <==> len <= SAMPLE_SIZE
    ensures r.Some? ==> 1 <= r.value <= SAMPLE_SIZE
    ensures r.Some? ==> HeadLength(len) + r.value <= len
  {
    if len > I64_MAX then Some(SAMPLE_SIZE)
    else
      var excess: i64 := len - SAMPLE_SIZE;
      if excess <= 0 then None else Some(Min(excess, SAMPLE_SIZE))
  }

  /** The head window is `min(len, SAMPLE_SIZE)` bytes for every u64 length, so the
      special case for lengths above i64::MAX agrees with the unbounded formula. */
  lemma HeadLengthIsMin(len: u64)
    ensures HeadLength(len) == Min(len, SAMPLE_SIZE)
  {
  }

  /** When present (exactly when `len > SAMPLE_SIZE`), the tail window is
      `min(len - SAMPLE_SIZE, SAMPLE_SIZE)` bytes, for every u64 length. */
  lemma TailLengthIsReference(len: u64)
    ensures TailLength(len).Some? ==> TailLength(len).value == Min(len - SAMPLE_SIZE, SAMPLE_SIZE)
  {
  }

  /** Lengths beyond i64::MAX sample a full window at each end. */
  lemma HugeLengthsSampleFully(len: u64)
    requires len > I64_MAX
    ensures HeadLength(len) == SAMPLE_SIZE && TailLength(len) == Some(SAMPLE_SIZE)
  {
  }

  /** The boundary cases: an empty file, a file of exactly one sample, one byte more,
      and exactly two samples. */
  lemma Boundaries()
    ensures HeadLength(0) == 0 && TailLength(0) == None
    ensures HeadLength(SAMPLE_SIZE) == SAMPLE_SIZE && TailLength(SAMPLE_SIZE) == None
    ensures HeadLength(SAMPLE_SIZE + 1) == SAMPLE_SIZE && TailLength(SAMPLE_SIZE + 1) == Some(1)
    ensures HeadLength(2 * SAMPLE_SIZE) == SAMPLE_SIZE && TailLength(2 * SAMPLE_SIZE) == Some(SAMPLE_SIZE)
  {
  }

  /** When there is a tail, the head window `[0, head)` ends at or before the start of
      the tail window `[len - tail, len)`; the two meet exactly, leaving no unsampled
      middle, if and only if the file is at most two samples long. */
  lemma WindowsDisjoint(len: u64)
    requires TailLength(len).Some?
    ensures HeadLength(len) <= len - TailLength(len).value
    ensures HeadLength(len) == len - TailLength(len).value <==> len <= 2 * SAMPLE_SIZE
  {
  }

  /** The tail window is never longer than the head window, so once the head has been
      read the file holds enough bytes for the seek back from its end. */
  lemma TailFitsWithinHead(len: u64)
    requires TailLength(len).Some?
    ensures TailLength(len).value <= HeadLength(len)
  {
  }
}
