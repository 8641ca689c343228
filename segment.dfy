/** `Segment`: a fixed-capacity, append-only byte buffer (src/memory/segment.rs). */
module Segments {
  import opened Types

  class Segment {
    /** The bytes written so far. */
    var buffer: seq<byte>
    /** How many more bytes the segment admits. */
    var availableCapacity: nat
    /** The capacity reserved by `Vec::with_capacity`; modelled as exactly the
        requested size. */
    const capacity: nat

    /** Bytes written plus bytes still available is always the capacity. */
    ghost predicate Valid()
      reads this
    {
      0 < capacity && |buffer| + availableCapacity == capacity
    }

    /** `Segment::new`; its assertion becomes the precondition. */
    constructor (capacity: nat)
      requires capacity > 0
      ensures Valid()
      ensures this.capacity == capacity && buffer == [] && availableCapacity == capacity
    {
      this.capacity := capacity;
      buffer := [];
      availableCapacity := capacity;
    }

    /** `try_append`: all or nothing. On success the slice lands at the end of
        the buffer and its offset is returned with `true`; otherwise the result
        is `(0, false)` and the segment is untouched. */
    method TryAppend(slice: seq<byte>) returns (index: nat, ok: bool)
      requires Valid()
      modifies this
      ensures Valid()
      ensures ok <==> |slice| <= old(availableCapacity)
      ensures ok ==> (index == |old(buffer)| && buffer == old(buffer) + slice &&
                      availableCapacity == old(availableCapacity) - |slice|)
      ensures !ok ==> (index == 0 && buffer == old(buffer) &&
                       availableCapacity == old(availableCapacity))
      ensures ok && |slice| > 0 ==> Get(index, |slice|) == slice
      ensures ok ==> buffer[..|old(buffer)|] == old(buffer)
    {
      if availableCapacity >= |slice| {
        index := |buffer|;
        AppendedBytesAtOffset(buffer, slice);
        WrittenBytesStay(buffer, slice, 0, |buffer|);
        buffer := buffer + slice;
        availableCapacity := availableCapacity - |slice|;
        return index, true;
      }
      return 0, false;
    }

    /** `get`: exactly `size` bytes starting at `index`. The assertion at
        line 27 admits `index + size` one past the written bytes, but the slice
        at line 29 then panics, so the real bound is `index + size <= |buffer|`. */
    function Get(index: nat, size: nat): (r: seq<byte>)
      reads this
      requires size > 0
      requires index + size <= |buffer|
      ensures |r| == size
      ensures forall i :: 0 <= i < size ==> r[i] == buffer[index + i]
    {
      buffer[index..index + size]
    }

    /** `is_empty` compares the available capacity with the reserved one. */
    function IsEmpty(): (r: bool)
      reads this
      requires Valid()
      ensures r <==> buffer == []
    {
      availableCapacity == capacity
    }

    /** `is_full`: nothing more can be admitted. */
    function IsFull(): (r: bool)
      reads this
      requires Valid()
      ensures r <==> |buffer| == capacity
    {
      availableCapacity == 0
    }
  }

  /** Sequence fact behind `TryAppend`'s read-back and
      `Logs.AppendKeepsIndexSound`: the appended bytes sit at the old length. */
  lemma AppendedBytesAtOffset(before: seq<byte>, slice: seq<byte>)
    ensures (before + slice)[|before|..|before| + |slice|] == slice
  {
    assert (before + slice)[|before|..] == slice;
  }

  /** Sequence fact behind `TryAppend`'s unchanged prefix and
      `Logs.AppendKeepsIndexSound`: appending leaves every range of the
      earlier bytes as it was. */
  lemma WrittenBytesStay(before: seq<byte>, slice: seq<byte>, from: nat, to: nat)
    requires from <= to <= |before|
    ensures (before + slice)[from..to] == before[from..to]
  {
    assert (before + slice)[..|before|] == before;
  }

  /** A fresh segment is empty and not full (segment.rs:45-49). */
  method FreshSegmentScenario() returns (empty: bool, full: bool)
    ensures empty && !full
  {
    var segment := new Segment(16);
    empty := segment.IsEmpty();
    full := segment.IsFull();
  }

  /** Two appends into a 32-byte segment land at offsets 0 and 17; after the
      first the segment is neither empty nor full (segment.rs:51-99). */
  method AppendTwiceScenario() returns (first: nat, second: nat, empty: bool, full: bool)
    ensures first == 0 && second == 17 && !empty && !full
  {
    var segment := new Segment(32);
    var ok;
    first, ok := segment.TryAppend(Ascii("thread-per-core-1"));
    assert ok;
    empty := segment.IsEmpty();
    full := segment.IsFull();
    second, ok := segment.TryAppend(Ascii("thread-per-core"));
    assert ok;
  }

  /** A 16-byte slice fills a 16-byte segment exactly (segment.rs:60-67),
      and a second 15-byte slice does not fit after a first one
      (segment.rs:101-108). */
  method FillScenario() returns (full: bool, secondFits: bool)
    ensures full && !secondFits
  {
    var exact := new Segment(16);
    var at, ok := exact.TryAppend(Ascii("thread-per-core1"));
    full := exact.IsFull();
    var twice := new Segment(16);
    at, ok := twice.TryAppend(Ascii("thread-per-core"));
    at, secondFits := twice.TryAppend(Ascii("thread-per-core"));
  }

  /** Reading back what was appended: the whole slice, or a prefix of it
      (segment.rs:110-141). */
  method GetScenario() returns (whole: seq<byte>, prefix: seq<byte>)
    ensures whole == Ascii("memcore") && prefix == Ascii("mem")
  {
    var segment := new Segment(16);
    var at, ok := segment.TryAppend(Ascii("memcore"));
    whole := segment.Get(0, 7);
    prefix := segment.Get(0, 3);
  }
}
