/** `KeyValue`: a record and its byte layout. The repository has two copies of
    this type, src/key_value.rs and src/memory/key_value.rs, with the same
    `new`, `encode` and `decode_from`; the second adds `key()` and `value()`.
    This one module models both.

    Layout: key length (u16, little-endian), value length (u16,
    little-endian), the key bytes, the value bytes. */
module KeyValues {
  import opened Types

  /** The `std::io::Error` that `read_exact` returns on a short buffer; its
      contents are not modelled. */
  datatype DecodeError = UnexpectedEof

  datatype KeyValue = KeyValue(key: seq<byte>, value: seq<byte>) {

    /** What `KeyValue::new` asserts: neither part is empty. */
    predicate Valid() {
      |key| > 0 && |value| > 0
    }

    /** Both lengths survive the `as u16` casts of `encode`. */
    predicate LengthsFitU16() {
      |key| < 0x1_0000 && |value| < 0x1_0000
    }

    /** `key()`: a copy of the key. */
    function Key(): (k: seq<byte>) {
      key
    }

    /** `value()`: the value. */
    function Value(): (v: seq<byte>) {
      value
    }

    /** `encode`. Each length goes through `as u16`, which keeps the low 16
        bits; a part of 65536 bytes or more gets a wrong header. */
    function Encode(): (bytes: seq<byte>)
      ensures |bytes| == 4 + |key| + |value|
      ensures GetU16Le(bytes, 0) == |key| % 0x1_0000
      ensures GetU16Le(bytes, 2) == |value| % 0x1_0000
      ensures bytes[4..4 + |key|] == key
      ensures bytes[4 + |key|..] == value
    {
      var bytes := PutU16Le(|key| % 0x1_0000) + PutU16Le(|value| % 0x1_0000) + key + value;
      assert bytes[4..] == key + value;
      bytes
    }
  }

  /** `KeyValue::new`; its assertions become the precondition. */
  function NewKeyValue(key: seq<byte>, value: seq<byte>): (kv: KeyValue)
    requires |key| > 0 && |value| > 0
    ensures kv.Valid() && kv.Key() == key && kv.Value() == value
  {
    KeyValue(key, value)
  }

  /** `put_u16_le`. */
  function PutU16Le(n: nat): (b: seq<byte>)
    requires n < 0x1_0000
    ensures |b| == 2
  {
    [n % 256, n / 256]
  }

  /** `get_u16_le` on the two bytes at `at`. */
  function GetU16Le(b: seq<byte>, at: nat): (n: nat)
    requires at + 2 <= |b|
    ensures n < 0x1_0000
  {
    b[at] as int + 256 * (b[at + 1] as int)
  }

  lemma U16LeRoundTrip(n: nat)
    requires n < 0x1_0000
    ensures GetU16Le(PutU16Le(n), 0) == n
  {
  }

  function DeclaredKeyLength(b: seq<byte>): (n: nat)
    requires |b| >= 4
  {
    GetU16Le(b, 0)
  }

  function DeclaredValueLength(b: seq<byte>): (n: nat)
    requires |b| >= 4
  {
    GetU16Le(b, 2)
  }

  /** When `decode_from` does not panic: the two header reads need four bytes,
      and when the declared bytes are all present `KeyValue::new` needs both
      declared lengths to be positive. */
  predicate Decodable(b: seq<byte>) {
    && |b| >= 4
    && (4 + DeclaredKeyLength(b) + DeclaredValueLength(b) <= |b| ==>
          DeclaredKeyLength(b) > 0 && DeclaredValueLength(b) > 0)
  }

  /** `decode_from`: read both headers, then `read_exact` the key and the
      value; either short read is an error. Bytes after the value are ignored. */
  function Decode(b: seq<byte>): (r: Result<KeyValue, DecodeError>)
    requires Decodable(b)
    ensures r.Err? <==> |b| < 4 + DeclaredKeyLength(b) + DeclaredValueLength(b)
    ensures r.Ok? ==> r.value.Valid() && r.value.LengthsFitU16()
  {
    var keyLength, valueLength := GetU16Le(b, 0), GetU16Le(b, 2);
    var rest := b[4..];
    if |rest| < keyLength then
      Err(UnexpectedEof)
    else
      var afterKey := rest[keyLength..];
      if |afterKey| < valueLength then
        Err(UnexpectedEof)
      else
        Ok(NewKeyValue(rest[..keyLength], afterKey[..valueLength]))
  }

  /** Round trip: a record whose lengths fit in 16 bits decodes back to
      itself, whatever bytes follow its encoding. */
  lemma {:induction false} DecodeEncode(kv: KeyValue, trailing: seq<byte>)
    requires kv.Valid() && kv.LengthsFitU16()
    ensures Decodable(kv.Encode() + trailing)
    ensures Decode(kv.Encode() + trailing) == Ok(kv)
  {
    var e := kv.Encode();
    var b := e + trailing;
    assert b[..|e|] == e;
    assert DeclaredKeyLength(b) == |kv.key| && DeclaredValueLength(b) == |kv.value|;
    var rest := b[4..];
    assert rest[..|kv.key|] == e[4..4 + |kv.key|];
    assert rest[|kv.key|..][..|kv.value|] == e[4 + |kv.key|..];
  }

  /** The other direction: a successful decode consumed exactly the encoding
      of the record it returns, so nothing but the trailing bytes is lost. */
  lemma EncodeDecode(b: seq<byte>)
    requires Decodable(b) && Decode(b).Ok?
    ensures Decode(b).value.Encode() == b[..4 + DeclaredKeyLength(b) + DeclaredValueLength(b)]
  {
    var keyLength, valueLength := DeclaredKeyLength(b), DeclaredValueLength(b);
    var n := 4 + keyLength + valueLength;
    var kv := Decode(b).value;
    assert kv.key == b[4..4 + keyLength];
    assert kv.value == b[4 + keyLength..n];
    assert PutU16Le(keyLength) == b[0..2];
    assert PutU16Le(valueLength) == b[2..4];
    assert b[..n] == b[0..2] + b[2..4] + b[4..4 + keyLength] + b[4 + keyLength..n];
  }

  /** A zero declared length with all declared bytes present is the case
      `decode_from` panics on, through the assertions of `KeyValue::new`
      (key_value.rs:40, 12-13). This is only the contrapositive of
      `Decodable`'s second conjunct, spelled out to record that panic; it adds
      no fact of its own. */
  lemma ZeroLengthIsNotDecodable(b: seq<byte>)
    requires |b| >= 4 && 4 + DeclaredKeyLength(b) + DeclaredValueLength(b) <= |b|
    requires DeclaredKeyLength(b) == 0 || DeclaredValueLength(b) == 0
    ensures !Decodable(b)
  {
  }

  /** The repository's test: "raft" and "consensus" survive the round trip,
      as seen through `key()` and `value()`. */
  lemma RaftConsensusRoundTrip()
    ensures Decodable(NewKeyValue(Ascii("raft"), Ascii("consensus")).Encode())
    ensures var r := Decode(NewKeyValue(Ascii("raft"), Ascii("consensus")).Encode());
            r.Ok? && r.value.Key() == Ascii("raft") && r.value.Value() == Ascii("consensus")
    ensures |NewKeyValue(Ascii("raft"), Ascii("consensus")).Encode()| == 17
  {
    DecodeEncode(NewKeyValue(Ascii("raft"), Ascii("consensus")), []);
    assert NewKeyValue(Ascii("raft"), Ascii("consensus")).Encode() + [] ==
           NewKeyValue(Ascii("raft"), Ascii("consensus")).Encode();
  }
}
