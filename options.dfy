/** `LogOptions`: the total size of the log and the size of each segment,
    and the segment count derived from them (src/memory/options.rs). */
module Options {

  datatype LogOptions = LogOptions(logSizeBytes: nat, segmentSizeBytes: nat) {

    /** What `LogOptions::new` asserts: the log holds at least one segment. */
    predicate Valid() {
      logSizeBytes >= segmentSizeBytes
    }

    /** `number_of_segments`: the quotient, plus one when the division leaves a
        remainder. A zero segment size divides by zero in the source. */
    function NumberOfSegments(): (n: nat)
      requires segmentSizeBytes > 0
    {
      if logSizeBytes % segmentSizeBytes != 0 then
        logSizeBytes / segmentSizeBytes + 1
      else
        logSizeBytes / segmentSizeBytes
    }

    /** `segment_size`. */
    function SegmentSize(): (size: nat) {
      segmentSizeBytes
    }
  }

  /** `LogOptions::new`, whose assertion becomes the precondition. */
  function NewLogOptions(logSizeBytes: nat, segmentSizeBytes: nat): (o: LogOptions)
    requires logSizeBytes >= segmentSizeBytes
    ensures o.Valid()
    ensures o.logSizeBytes == logSizeBytes && o.SegmentSize() == segmentSizeBytes
  {
    LogOptions(logSizeBytes, segmentSizeBytes)
  }

  /** The segment count is the ceiling of the log size over the segment size:
      that many segments cover the log, and one fewer does not. */
  lemma NumberOfSegmentsIsCeiling(o: LogOptions)
    requires o.segmentSizeBytes > 0
    ensures o.NumberOfSegments() * o.segmentSizeBytes >= o.logSizeBytes
    ensures (o.NumberOfSegments() - 1) * o.segmentSizeBytes < o.logSizeBytes
  {
    var log, seg := o.logSizeBytes, o.segmentSizeBytes;
    var q: int, r: int := log / seg, log % seg;
    assert log == q * seg + r;
    if r != 0 {
      assert (q + 1) * seg == q * seg + seg;
    } else {
      assert (q - 1) * seg == q * seg - seg;
    }
  }

  /** The two bounds above pin the count down: any n with n segments covering
      the log and n - 1 not covering it is the segment count. */
  lemma NumberOfSegmentsUnique(o: LogOptions, n: int)
    requires o.segmentSizeBytes > 0
    requires n * o.segmentSizeBytes >= o.logSizeBytes
    requires (n - 1) * o.segmentSizeBytes < o.logSizeBytes
    ensures n == o.NumberOfSegments()
  {
    var seg, m := o.segmentSizeBytes, o.NumberOfSegments();
    NumberOfSegmentsIsCeiling(o);
    if n < m {
      MultiplyMonotone(n, m - 1, seg);
    } else if n > m {
      MultiplyMonotone(m, n - 1, seg);
    }
  }

  lemma MultiplyMonotone(a: int, b: int, c: nat)
    requires a <= b
    ensures a * c <= b * c
  {
    assert b * c == a * c + (b - a) * c;
  }

  /** A valid configuration with a positive segment size has a segment. */
  lemma AtLeastOneSegment(o: LogOptions)
    requires o.Valid() && o.segmentSizeBytes > 0
    ensures o.NumberOfSegments() >= 1
  {
    NumberOfSegmentsIsCeiling(o);
  }

  /** The repository's two examples: an exact division and one with a
      remainder. */
  lemma NumberOfSegmentsExamples()
    ensures NewLogOptions(100, 10).NumberOfSegments() == 10
    ensures NewLogOptions(50, 3).NumberOfSegments() == 17
  {
  }
}
