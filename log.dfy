/** `Log`: a fixed sequence of segments written front to back, with an index
    from each key to its latest record (src/memory/log.rs).

    The source's `Log` has no index and no `try_get`, although
    src/executor/command_executor.rs:19 calls `self.log.try_get`. The `index`
    field, the `Insert` after a successful append and `TryGet` are therefore
    a reconstruction: a successful append records (tail segment, offset
    returned by the segment, encoded length), which are the three fields of
    `IndexMarker` and the offset `Segment::try_append` returns.

    log.rs:20 and log.rs:27 use the `(usize, bool)` result of
    `Segment::try_append` as a `bool`; the model takes its second component.
    log.rs:1 imports `crate::key_value`, the executor `crate::memory::key_value`;
    both copies are the `KeyValues` module here. */
module Logs {
  import opened Types
  import opened Options
  import opened Segments
  import opened KeyValues
  import opened Indexes

  /** The bytes hold a record of `key`: they decode, without error, to a
      record with that key. */
  ghost predicate HoldsRecordOf(key: seq<byte>, bytes: seq<byte>) {
    Decodable(bytes) && Decode(bytes).Ok? && Decode(bytes).value.key == key
  }

  /** The marker addresses written bytes of one of the segments, given by
      their buffers. */
  ghost predicate InBounds(buffers: seq<seq<byte>>, marker: IndexMarker) {
    && marker.segmentIndex < |buffers|
    && 0 < marker.keyValueSize
    && marker.segmentPosition + marker.keyValueSize <= |buffers[marker.segmentIndex]|
  }

  /** The bytes a marker addresses. */
  ghost function Addressed(buffers: seq<seq<byte>>, marker: IndexMarker): (bytes: seq<byte>)
    requires InBounds(buffers, marker)
  {
    buffers[marker.segmentIndex][marker.segmentPosition..marker.segmentPosition + marker.keyValueSize]
  }

  /** Every marker addresses written bytes that hold a record of its key. */
  ghost predicate IndexSound(buffers: seq<seq<byte>>, markers: map<seq<byte>, IndexMarker>) {
    forall key :: key in markers ==>
      InBounds(buffers, markers[key]) && HoldsRecordOf(key, Addressed(buffers, markers[key]))
  }

  /** What a lookup of `key` finds: nothing when the key has no marker, and
      otherwise the decoding of the bytes the marker addresses. */
  ghost function Lookup(buffers: seq<seq<byte>>, markers: map<seq<byte>, IndexMarker>,
                        key: seq<byte>): (found: Option<Result<KeyValue, DecodeError>>)
    requires IndexSound(buffers, markers)
  {
    if key in markers then Some(Decode(Addressed(buffers, markers[key]))) else None
  }

  /** A successful append to segment `target`, followed by pointing the key's
      marker at the written bytes, keeps the index sound; the appended key
      then reads back as the appended record, and every other key reads back
      as before (its bytes sit in front of the append, or in another
      segment). */
  lemma {:induction false} AppendKeepsIndexSound(buffers: seq<seq<byte>>, markers: map<seq<byte>, IndexMarker>,
                                                  target: nat, kv: KeyValue)
    requires IndexSound(buffers, markers) && target < |buffers|
    requires kv.Valid() && kv.LengthsFitU16()
    ensures var after := buffers[target := buffers[target] + kv.Encode()];
            var markers' := markers[kv.key := IndexMarker(target, |buffers[target]|, |kv.Encode()|)];
            && IndexSound(after, markers')
            && Lookup(after, markers', kv.key) == Some(Ok(kv))
            && forall key :: key != kv.key ==> Lookup(after, markers', key) == Lookup(buffers, markers, key)
  {
    var encoded := kv.Encode();
    var after := buffers[target := buffers[target] + encoded];
    var markers' := markers[kv.key := IndexMarker(target, |buffers[target]|, |encoded|)];
    AppendedBytesAtOffset(buffers[target], encoded);
    DecodeEncode(kv, []);
    assert encoded + [] == encoded;
    assert Addressed(after, markers'[kv.key]) == encoded;
    forall key | key in markers && key != kv.key
      ensures InBounds(after, markers[key]) && Addressed(after, markers[key]) == Addressed(buffers, markers[key])
    {
      var marker := markers[key];
      if marker.segmentIndex == target {
        WrittenBytesStay(buffers[target], encoded, marker.segmentPosition,
                         marker.segmentPosition + marker.keyValueSize);
      }
    }
  }

  class Log {
    const segments: seq<Segment>
    /** The segment that currently takes appends. */
    var segmentTail: nat
    /** Reconstruction, see the module comment. */
    const index: Index

    /** The segments are valid and distinct, and every marker of the index
        addresses a record of its key. */
    ghost predicate Sound()
      reads index, segments
    {
      && 0 < |segments|
      && (forall i :: 0 <= i < |segments| ==> segments[i].Valid())
      && (forall i, j :: 0 <= i < j < |segments| ==> segments[i] != segments[j])
      && IndexSound(Buffers(), index.markerByKey)
    }

    /** `Sound()`, and the tail names one of the segments. */
    ghost predicate Valid()
      reads this, index, segments
    {
      Sound() && segmentTail < |segments|
    }

    /** The bytes written to each segment. */
    ghost function Buffers(): (buffers: seq<seq<byte>>)
      reads segments
      ensures |buffers| == |segments|
      ensures forall i :: 0 <= i < |segments| ==> buffers[i] == segments[i].buffer
    {
      seq(|segments|, i reads segments requires 0 <= i < |segments| => segments[i].buffer)
    }

    /** `Log::new`: `number_of_segments()` empty segments of `segment_size()`
        bytes each, the tail at the first one, and (reconstruction) an empty
        index. */
    constructor (options: LogOptions)
      requires options.Valid() && options.segmentSizeBytes > 0
      ensures Valid()
      ensures |segments| == options.NumberOfSegments()
      ensures forall i :: 0 <= i < |segments| ==>
                segments[i].capacity == options.SegmentSize() && segments[i].buffer == []
      ensures segmentTail == 0 && index.markerByKey == map[]
      ensures forall key :: TryGet(key) == None
      ensures fresh(index) && forall i :: 0 <= i < |segments| ==> fresh(segments[i])
    {
      var count := options.NumberOfSegments();
      AtLeastOneSegment(options);
      var built: seq<Segment> := [];
      while |built| < count
        invariant |built| <= count
        invariant forall i :: 0 <= i < |built| ==> fresh(built[i])
        invariant forall i :: 0 <= i < |built| ==>
                    built[i].Valid() && built[i].capacity == options.SegmentSize() && built[i].buffer == []
        invariant forall i, j :: 0 <= i < j < |built| ==> built[i] != built[j]
      {
        var segment := new Segment(options.SegmentSize());
        built := built + [segment];
      }
      segments := built;
      segmentTail := 0;
      index := new Index();
    }

    /** The outcome `try_append` promises, between the state before and the
        state after it:
        - the record fits the tail segment: success, the tail stays;
        - it does not fit and the tail is the last segment: failure, and
          nothing changes;
        - otherwise the tail moves on by one, for good, and the result is that
          of the single retry on the new tail.
        A success writes the encoding at the end of the (new) tail segment and
        points the key's marker at it; no other segment changes, and a failure
        changes no segment and no marker. */
    twostate predicate AppendSpec(kv: KeyValue, ok: bool)
      reads this, index, segments
      requires old(Valid()) && Valid()
    {
      var encoded := kv.Encode();
      var tail := old(segmentTail);
      var now := segmentTail;
      && (if old(segments[tail].availableCapacity) >= |encoded| then
            ok && now == tail
          else if tail == |segments| - 1 then
            !ok && now == tail
          else
            now == tail + 1 && ok == (old(segments[tail + 1].availableCapacity) >= |encoded|))
      && (ok ==> segments[now].buffer == old(segments[now].buffer) + encoded &&
                 index.markerByKey ==
                   old(index.markerByKey)[kv.key := IndexMarker(now, |old(segments[now].buffer)|, |encoded|)])
      && (!ok ==> index.markerByKey == old(index.markerByKey))
      && (forall i :: 0 <= i < |segments| && (!ok || i != now) ==>
            segments[i].buffer == old(segments[i].buffer))
    }

    /** `try_append`, with the reconstructed index update. The record must be
        one `KeyValue::new` accepts, and its lengths must fit the u16 headers
        (see README). Beyond `AppendSpec`: after a success the key reads back
        as this record, and every other key reads back as before. */
    method TryAppend(kv: KeyValue) returns (ok: bool)
      requires Valid()
      requires kv.Valid() && kv.LengthsFitU16()
      modifies this, index, segments
      ensures Valid()
      ensures AppendSpec(kv, ok)
      ensures ok ==> TryGet(kv.key) == Some(Ok(kv))
      ensures forall key :: key != kv.key || !ok ==> TryGet(key) == old(TryGet(key))
    {
      var encoded := kv.Encode();
      ok := AppendToSegment(segmentTail, kv, encoded);
      if !ok {
        if segmentTail == |segments| - 1 {
          return false;
        }
        segmentTail := segmentTail + 1;
        ok := AppendToSegment(segmentTail, kv, encoded);
      }
    }

    /** One attempt of `try_append` on one segment: `Segment::try_append`,
        and on success (reconstruction) the index update. */
    method AppendToSegment(target: nat, kv: KeyValue, encoded: seq<byte>) returns (ok: bool)
      requires Sound() && target < |segments|
      requires kv.Valid() && kv.LengthsFitU16() && encoded == kv.Encode()
      modifies index, segments[target]
      ensures Sound()
      ensures ok == (old(segments[target].availableCapacity) >= |encoded|)
      ensures ok ==> segments[target].buffer == old(segments[target].buffer) + encoded &&
                     index.markerByKey ==
                       old(index.markerByKey)[kv.key := IndexMarker(target, |old(segments[target].buffer)|, |encoded|)]
      ensures !ok ==> index.markerByKey == old(index.markerByKey)
      ensures forall i :: 0 <= i < |segments| && (!ok || i != target) ==>
                segments[i].buffer == old(segments[i].buffer)
      ensures ok ==> TryGet(kv.key) == Some(Ok(kv))
      ensures forall key :: key != kv.key || !ok ==> TryGet(key) == old(TryGet(key))
    {
      ghost var buffers := Buffers();
      var segment := segments[target];
      var offset;
      offset, ok := segment.TryAppend(encoded);
      if ok {
        index.Insert(kv.key, IndexMarker(target, offset, |encoded|));
        AppendKeepsIndexSound(buffers, old(index.markerByKey), target, kv);
        assert Buffers() == buffers[target := buffers[target] + encoded];
      } else {
        assert Buffers() == buffers;
      }
    }

    /** Reconstructed `try_get`: `None` when the key was never appended,
        otherwise the decoded bytes its marker addresses. The invariant makes
        that decode succeed with a record of the key. */
    function TryGet(key: seq<byte>): (r: Option<Result<KeyValue, DecodeError>>)
      reads index, segments
      requires Sound()
      ensures r == Lookup(Buffers(), index.markerByKey, key)
      ensures r.None? <==> key !in index.markerByKey
      ensures r.Some? ==> r.value.Ok? && r.value.value.key == key && r.value.value.Valid()
    {
      match index.Get(key)
      case None => None
      case Some(marker) =>
        Some(Decode(segments[marker.segmentIndex].Get(marker.segmentPosition, marker.keyValueSize)))
    }
  }

  /** log.rs:37-54: a 64-byte log takes the 17-byte record "raft" ->
      "consensus"; a 32-byte log takes it once and then, with 15 bytes left
      in its only segment, refuses it and leaves the index as it was. */
  method CapacityScenario() returns (roomy: bool, first: bool, second: bool)
    ensures roomy && first && !second
  {
    var record := NewKeyValue(Ascii("raft"), Ascii("consensus"));
    RaftConsensusRoundTrip();
    var large := new Log(NewLogOptions(64, 64));
    roomy := large.TryAppend(record);
    var small := new Log(NewLogOptions(32, 32));
    first := small.TryAppend(record);
    second := small.TryAppend(record);
  }

  /** A 16-byte log refuses the 17-byte record outright, and the key is then
      not found. */
  method OversizedScenario() returns (ok: bool, found: Option<Result<KeyValue, DecodeError>>)
    ensures !ok && found == None
  {
    var record := NewKeyValue(Ascii("raft"), Ascii("consensus"));
    RaftConsensusRoundTrip();
    var log := new Log(NewLogOptions(16, 16));
    ok := log.TryAppend(record);
    found := log.TryGet(Ascii("raft"));
  }

  /** Rollover with two 16-byte segments: a 12-byte record goes to segment 0;
      a 13-byte one no longer fits there, so the tail moves to segment 1 and
      takes it; an 11-byte one fits neither the 3 bytes left in segment 1 nor
      any later segment, and is refused. */
  method RolloverScenario() returns (first: bool, second: bool, third: bool, tail: nat)
    ensures first && second && !third && tail == 1
  {
    var log := new Log(NewLogOptions(32, 16));
    assert |log.segments| == 2;
    var r1, r2, r3 := NewKeyValue(Ascii("raft"), Ascii("cons")), NewKeyValue(Ascii("paxos"), Ascii("vote")),
                      NewKeyValue(Ascii("zab"), Ascii("sync"));
    assert |r1.Encode()| == 12 && |r2.Encode()| == 13 && |r3.Encode()| == 11;
    first := log.TryAppend(r1);
    assert log.segmentTail == 0 && log.segments[0].availableCapacity == 4;
    second := log.TryAppend(r2);
    assert log.segmentTail == 1 && log.segments[1].availableCapacity == 3;
    third := log.TryAppend(r3);
    tail := log.segmentTail;
  }

  /** After the rollover both stored records read back, from different
      segments. */
  method RolloverReadBackScenario() returns (raft: Option<Result<KeyValue, DecodeError>>,
                                             paxos: Option<Result<KeyValue, DecodeError>>)
    ensures raft == Some(Ok(KeyValue(Ascii("raft"), Ascii("cons"))))
    ensures paxos == Some(Ok(KeyValue(Ascii("paxos"), Ascii("vote"))))
  {
    var log := new Log(NewLogOptions(32, 16));
    var r1, r2 := NewKeyValue(Ascii("raft"), Ascii("cons")), NewKeyValue(Ascii("paxos"), Ascii("vote"));
    assert |r1.Encode()| == 12 && |r2.Encode()| == 13;
    var ok := log.TryAppend(r1);
    assert ok && log.segments[0].availableCapacity == 4;
    ok := log.TryAppend(r2);
    assert ok && r1.key != r2.key;
    raft := log.TryGet(r1.key);
    paxos := log.TryGet(r2.key);
  }

  /** Last write wins: a second record for the same key replaces what the
      key reads back as, although the first one still occupies its bytes. */
  method OverwriteScenario() returns (found: Option<Result<KeyValue, DecodeError>>, used: nat)
    ensures found == Some(Ok(KeyValue(Ascii("raft"), Ascii("quorum"))))
    ensures used == 17 + 14
  {
    var log := new Log(NewLogOptions(64, 64));
    RaftConsensusRoundTrip();
    var ok := log.TryAppend(NewKeyValue(Ascii("raft"), Ascii("consensus")));
    ok := log.TryAppend(NewKeyValue(Ascii("raft"), Ascii("quorum")));
    found := log.TryGet(Ascii("raft"));
    used := |log.segments[0].buffer|;
  }
}
