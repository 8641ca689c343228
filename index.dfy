/** `Index`: where the latest record of each key lives (src/memory/index.rs). */
module Indexes {
  import opened Types

  /** `IndexMarker`; `IndexMarker::new` is this datatype's constructor, which
      keeps its three arguments as they are. */
  datatype IndexMarker = IndexMarker(segmentIndex: nat, segmentPosition: nat, keyValueSize: nat)

  class Index {
    /** The `HashMap` from an owned copy of the key to its marker. */
    var markerByKey: map<seq<byte>, IndexMarker>

    /** `Index::new`: no entries. */
    constructor ()
      ensures markerByKey == map[]
      ensures forall key :: Get(key) == None
    {
      markerByKey := map[];
    }

    /** `insert`: an unconditional upsert. The key now maps to the marker,
        replacing any earlier one, and every other key keeps its entry. */
    method Insert(key: seq<byte>, marker: IndexMarker)
      modifies this
      ensures markerByKey == old(markerByKey)[key := marker]
      ensures Get(key) == Some(marker)
      ensures forall other :: other != key ==> Get(other) == old(Get(other))
    {
      markerByKey := markerByKey[key := marker];
    }

    /** `get`: a lookup that changes nothing, `None` for a key never inserted. */
    function Get(key: seq<byte>): (r: Option<IndexMarker>)
      reads this
      ensures r.None? <==> key !in markerByKey
      ensures r.Some? ==> r.value == markerByKey[key]
    {
      if key in markerByKey then Some(markerByKey[key]) else None
    }
  }

  /** The repository's tests: a fresh index finds nothing; after inserting
      "raft" at (0, 16, 100) all three fields come back (index.rs:43-61). A
      second insert of the same key wins. */
  method IndexScenario() returns (missing: Option<IndexMarker>, found: Option<IndexMarker>,
                                  overwritten: Option<IndexMarker>)
    ensures missing == None
    ensures found.Some? && found.value.segmentIndex == 0
    ensures found.Some? && found.value.segmentPosition == 16 && found.value.keyValueSize == 100
    ensures overwritten == Some(IndexMarker(1, 0, 17))
  {
    var index := new Index();
    missing := index.Get(Ascii("non-existing"));
    index.Insert(Ascii("raft"), IndexMarker(0, 16, 100));
    found := index.Get(Ascii("raft"));
    index.Insert(Ascii("raft"), IndexMarker(1, 0, 17));
    overwritten := index.Get(Ascii("raft"));
  }
}
