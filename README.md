# memcore storage core in Dafny

memcore is an in-memory key/value store. Its storage core has these parts:

- **Log.** An append-only log made of a fixed number of fixed-size segments. A segment tail points at the segment currently being written.
- **Records.** Keys and values are written as length-prefixed binary records: a 16-bit little-endian key length, a 16-bit little-endian value length, the key bytes, then the value bytes.
- **Index.** An index maps each key to the record that holds its latest value. A marker gives the segment, the offset inside the segment and the record size.
- **Command executor.** Turns Get, Put and Update commands into log calls.
- **Queue.** A single-producer, single-consumer queue that works on head and tail cursors.

The model has one module per source file:

- `Options` for `src/memory/options.rs`
- `Segments` for `src/memory/segment.rs`
- `KeyValues` for both `src/key_value.rs` and `src/memory/key_value.rs`
- `Indexes` for `src/memory/index.rs`
- `Logs` for `src/memory/log.rs`
- `Commands` for `src/executor/command.rs`
- `Executor` for `src/executor/command_executor.rs`
- `Spsc` for `src/queue/spsc.rs`

`Types` holds the byte type, `Option` and `Result`.

The source types whose methods change their fields become classes: `Segment`, `Index`, `Log`, `CommandExecutor` and `SPSCQueue`. The value types become datatypes: `LogOptions`, `KeyValue`, `IndexMarker`, `Command` and `CommandResponse`. A Rust `assert!` becomes a precondition, and so does a panic on an index or slice that is out of range.

### Where the model departs from the source text

- **No `try_get` and no index in `Log`.** `src/memory/log.rs` has neither, yet `src/executor/command_executor.rs:19` calls `self.log.try_get`. The model adds an `index` field to `Log`. A successful `TryAppend` inserts the marker: the tail segment, the offset returned by `Segment::try_append`, and the encoded length. `TryGet` looks the key up and decodes the addressed bytes. The invariant `Logs.IndexSound` states that every marker addresses written bytes which decode to a record of its key.
- **Bool use of a tuple result.** At log.rs:20 and log.rs:27, `Segment::try_append` returns `(usize, bool)`, but the code uses it as a `bool`. The model takes the second component.
- **Different wrap points in the queue.** `try_enqueue` wraps the tail at `capacity + 1` (spsc.rs:27), while `pop` wraps the head at `capacity` (spsc.rs:49). The model keeps both, as the code has them.
- **Insert, not overwrite.** The queue stores elements with `Vec::insert`, which shifts the later elements instead of overwriting a slot.
- **Decode errors.** `decode_from` fails with the `std::io::Error` of `read_exact`. The model has a single `UnexpectedEof` error.

## Model

| member | source | states |
|---|---|---|
| Options.NewLogOptions | src/memory/options.rs:7-13 | requires the log size to be at least the segment size (the assertion); the result is valid and keeps both sizes, and `segment_size` returns the segment size |
| Options.NumberOfSegmentsIsCeiling | src/memory/options.rs:15-20 | the segment count is the ceiling of log size over segment size: that many segments cover the log, one fewer does not |
| Options.NumberOfSegmentsUnique | src/memory/options.rs:15-20 | any count with the ceiling property is the segment count |
| Options.AtLeastOneSegment | src/memory/options.rs:7-20 | options that pass `new`'s assertion, with a nonzero segment size, give at least one segment |
| Options.NumberOfSegmentsExamples | src/memory/options.rs:31-41 | 100/10 gives 10 segments and 50/3 gives 17 |
| Segments.Segment.constructor | src/memory/segment.rs:7-13 | requires a positive capacity; starts with an empty buffer and all of its capacity available |
| Segments.Segment.TryAppend | src/memory/segment.rs:15-23 | succeeds exactly when the slice fits the available capacity; on success the slice is appended at the returned offset (the old length) and the available capacity drops by its length; on failure the result is (0, false) and nothing changes; written plus available bytes stay the capacity; after a success `get` at the returned offset reads the slice back, and the bytes written before are unchanged |
| Segments.Segment.Get | src/memory/segment.rs:25-30 | returns exactly `size` bytes, byte i being the buffer's byte at index + i |
| Segments.Segment.IsEmpty | src/memory/segment.rs:32-34 | true exactly when nothing has been written |
| Segments.Segment.IsFull | src/memory/segment.rs:36-38 | true exactly when the written bytes fill the capacity |
| Segments.AppendedBytesAtOffset | src/memory/segment.rs:15-30 | sequence fact behind `TryAppend`'s read-back and `Logs.AppendKeepsIndexSound`: after appending a slice to a buffer, the slice sits at the buffer's old length |
| Segments.WrittenBytesStay | src/memory/segment.rs:15-30 | sequence fact behind `TryAppend`'s unchanged prefix and `Logs.AppendKeepsIndexSound`: appending leaves every range of the earlier bytes as it was |
| Segments.FreshSegmentScenario | src/memory/segment.rs:45-49 | a new segment is empty and not full |
| Segments.AppendTwiceScenario | src/memory/segment.rs:51-58 | appends of 17 and 15 bytes to a 32-byte segment land at offsets 0 and 17, and after the first the segment is neither empty nor full |
| Segments.FillScenario | src/memory/segment.rs:60-67 | a 16-byte record fills a 16-byte segment, and a second record no longer fits |
| Segments.GetScenario | src/memory/segment.rs:110-141 | "memcore" reads back whole, and its first 3 bytes read back as "mem" |
| KeyValues.NewKeyValue | src/memory/key_value.rs:13-17 | requires a non-empty key and value; `key()` and `value()` return them unchanged |
| KeyValues.KeyValue.Encode | src/memory/key_value.rs:19-26 | the encoding is 4 + key + value bytes long; its two little-endian u16 headers hold the key and value lengths mod 65536; the key and value bytes follow in order |
| KeyValues.PutU16Le | src/memory/key_value.rs:21-22 | `put_u16_le` of a value below 65536 gives two bytes; `U16LeRoundTrip` states that they read back as the value |
| KeyValues.GetU16Le | src/memory/key_value.rs:29-30 | `get_u16_le` reads a value below 65536 |
| KeyValues.U16LeRoundTrip | src/memory/key_value.rs:19-30 | reading back a written u16 gives the value |
| KeyValues.Decode | src/memory/key_value.rs:28-43 | fails exactly when the buffer is shorter than the two headers plus the declared lengths; a success is a valid record whose lengths fit in 16 bits |
| KeyValues.DecodeEncode | src/key_value.rs:17-41 | a valid record with lengths below 65536 decodes back to itself, whatever bytes follow its encoding |
| KeyValues.EncodeDecode | src/key_value.rs:17-41 | a successful decode consumed exactly the encoding of the record it returns |
| KeyValues.ZeroLengthIsNotDecodable | src/memory/key_value.rs:42 | a complete record with a zero declared length is outside `Decode`'s domain, because `KeyValue::new` panics on it (the contrapositive of `Decodable`, recording that panic) |
| KeyValues.RaftConsensusRoundTrip | src/key_value.rs:48-56 | "raft"/"consensus" encodes to 17 bytes and decodes back, as seen through `key()` and `value()` |
| Indexes.Index.constructor | src/memory/index.rs:24-28 | a new index finds no key |
| Indexes.Index.Insert | src/memory/index.rs:30-32 | the key now maps to the new marker, replacing any older one; every other key keeps its marker |
| Indexes.Index.Get | src/memory/index.rs:34-36 | None exactly when the key is absent, otherwise the marker stored for it |
| Indexes.IndexScenario | src/memory/index.rs:43-61 | a fresh index misses; an inserted marker comes back with all three fields; a second insert of the key wins |
| Logs.AppendKeepsIndexSound | src/memory/log.rs:18-28 | appending a record to one segment and pointing its key's marker at it keeps every marker sound; the appended key then reads back as the record, and every other key reads back as before |
| Logs.Log.Buffers | src/memory/log.rs:5-8 | one buffer per segment, the i-th being segment i's bytes |
| Logs.Log.constructor | src/memory/log.rs:11-16 | `number_of_segments` segments, each of the segment size and empty; tail at 0; empty index, so every key reads back as None |
| Logs.Log.TryAppend | src/memory/log.rs:18-28 | appends to the tail segment if the encoding fits; if not and the tail is the last segment, fails with no change; otherwise moves the tail on for good and retries once there. A success writes the encoding at the end of the segment that took it and points the key's marker there; nothing else changes. After a success the key reads back as the record, and every other key as before |
| Logs.Log.AppendToSegment | src/memory/log.rs:20 | one segment attempt: succeeds exactly when the encoding fits, and keeps the index sound |
| Logs.Log.TryGet | src/executor/command_executor.rs:19 | None exactly when the key was never appended, otherwise the decoded record of that key, which always decodes |
| Logs.CapacityScenario | src/memory/log.rs:37-54 | a 64-byte log takes "raft"/"consensus"; a 32-byte log takes it once, then refuses it |
| Logs.OversizedScenario | src/memory/log.rs:18-28 | a 16-byte log refuses the 17-byte record, and the key stays unknown |
| Logs.RolloverScenario | src/memory/log.rs:18-28 | when a 32/16 log's first segment cannot fit the second record, the tail moves to segment 1 and takes it; a further record that fits neither is refused |
| Logs.RolloverReadBackScenario | src/memory/log.rs:18-28 | records written before and after a rollover both read back |
| Logs.OverwriteScenario | src/memory/log.rs:18-28 | a second append of a key replaces the first one for reads, while the segment still holds the bytes of both (17 + 14) |
| Commands.GetCommand | src/executor/command.rs:22-28 | a Get command with the key and no value |
| Commands.PutCommand | src/executor/command.rs:30-36 | a Put command with the key and the value |
| Commands.UpdateCommand | src/executor/command.rs:37-43 | an Update command with the key and the value |
| Commands.CommandResponse.PutResponse | src/executor/command.rs:54-59 | the stored flag for a Put response; false for any other kind |
| Commands.CommandResponse.UpdateResponse | src/executor/command.rs:68-73 | the stored flag for an Update response; false for any other kind |
| Commands.CommandResponse.GetResponse | src/executor/command.rs:82-87 | what a Get found; None for any other kind |
| Commands.ExactlyOneKind | src/executor/command.rs:47-80 | every response is of exactly one of the three kinds |
| Executor.CommandExecutor.constructor | src/executor/command_executor.rs:10-14 | the executor owns the given log |
| Executor.CommandExecutor.Execute | src/executor/command_executor.rs:16-25 | a Get answers with the log's lookup and changes nothing; a Put or an Update behaves as `Log.TryAppend` and answers with its result under the command's own tag; a stored key reads back as the new value; other keys read back as before |
| Executor.PutStoredScenario | src/executor/command_executor.rs:35-46 | a Put of "raft"/"consensus" on a 64-byte log is stored, and the response is a Put |
| Executor.PutRefusedScenario | src/executor/command_executor.rs:48-59 | the same Put on a 16-byte log is refused, and the response is still a Put |
| Executor.UpdateStoredScenario | src/executor/command_executor.rs:61-72 | an Update of "raft"/"consensus" on a 64-byte log is stored, and the response is an Update |
| Executor.UpdateRefusedScenario | src/executor/command_executor.rs:74-85 | the same Update on a 16-byte log is refused, and the response is still an Update |
| Executor.GetFoundScenario | src/executor/command_executor.rs:87-102 | after a Put a Get returns the stored value |
| Executor.GetMissingScenario | src/executor/command_executor.rs:104-115 | on a fresh log a Get returns None |
| Spsc.SpscQueue.constructor | src/queue/spsc.rs:12-18 | both cursors at 0 and no elements, so the queue is empty and has no front |
| Spsc.SpscQueue.IsEmpty | src/queue/spsc.rs:20-22 | empty exactly when the cursors meet, and then `TryGetFront` gives None |
| Spsc.SpscQueue.TryEnqueue | src/queue/spsc.rs:24-36 | refuses, changing nothing, exactly when the tail's successor (wrapping at capacity + 1) is the head; otherwise inserts the element at the tail's index and moves the tail to that successor; the head never moves; from a state where the tail equals the element count, as `new` leaves it, the tail stays equal to it and the insert is an append, so elements stay in arrival order |
| Spsc.SpscQueue.TryGetFront | src/queue/spsc.rs:38-44 | None exactly when the cursors meet, otherwise the element at the head, without removing it |
| Spsc.SpscQueue.Pop | src/queue/spsc.rs:46-53 | the head moves to its successor, wrapping at capacity; the tail and elements stay |
| Spsc.TailCycle | src/queue/spsc.rs:25-29 | from 0, successive tails go 1, 2, ..., capacity and then back to 0; the final wrap is the source's arithmetic, which the model reaches only on `TryEnqueue`'s refusal path |
| Spsc.HeadCycle | src/queue/spsc.rs:47-51 | from 0, successive heads go 1, ..., capacity - 1 and then back to 0 |
| Spsc.EnqueuesUntilFull | src/queue/spsc.rs:24-36 | with the head at 0, the enqueue after k successful ones is refused exactly when k equals the capacity |
| Spsc.EmptyScenario | src/queue/spsc.rs:61-65 | a new queue is empty and has no front |
| Spsc.FullScenario | src/queue/spsc.rs:80-86 | with capacity 2, three enqueues give true, true, false |
| Spsc.FrontScenario | src/queue/spsc.rs:67-78 | after 10 and 20 the front is 10, and after a pop it is 20 |
| Spsc.PopScenario | src/queue/spsc.rs:95-106 | with capacity 2 two pops take the head to 1, then back to 0 |

## Left out

- Logs.Log.TryAppend: requires key and value lengths below 65536. `encode` writes `len() as u16`, which truncates silently, and a truncated header would not read back. `KeyValues.KeyValue.Encode` models the truncation itself.
- Executor.CommandExecutor.Execute: requires the same 16-bit bound for Put and Update. It also requires the value that `unwrap()` and `KeyValue::new` demand; the panic paths are preconditions.
- Segments.Segment.Get: requires `index + size <= |buffer|`. The assertion at segment.rs:27 alone would admit one byte more, but the slice at segment.rs:29 panics then.
- `hash_of` (src/memory/key_value.rs:45-49) is not modelled. It calls the external Murmur hasher.
- `LogOptions::number_of_segments` (src/memory/options.rs:15-20) is `Options.LogOptions.NumberOfSegments`, the quotient plus one when there is a remainder. It has no contract of its own; `Options.NumberOfSegmentsIsCeiling` and `Options.NumberOfSegmentsUnique` characterise it as the ceiling.
- `is_put_response`, `is_update_response` and `is_get_response` (src/executor/command.rs:47-52, 61-66, 75-80) are `Commands.CommandResponse.IsPutResponse`, `IsUpdateResponse` and `IsGetResponse`, the variant tests. They have no contract of their own; `Commands.ExactlyOneKind` and the contracts of `PutResponse`, `UpdateResponse` and `GetResponse` state them.
- `IndexMarker::new` (src/memory/index.rs:14-20) is the datatype constructor `Indexes.IndexMarker`.
- `LogOptions::segment_size` (src/memory/options.rs:22-24) is the field accessor `SegmentSize`. Its property is in `Options.NewLogOptions`.
- `KeyValue::key()` and `value()` (src/memory/key_value.rs:51-57) are accessors. They appear in `KeyValues.NewKeyValue` and `KeyValues.RaftConsensusRoundTrip`.
- Atomics, memory orderings and `CachePadded` in the queue are not modelled. Every call runs to completion, one at a time; concurrent producer/consumer interleavings are not modelled.
- Spsc.SpscQueue.TryEnqueue: requires `tail <= |elements| < capacity` on its success path.
  - `Vec::insert` panics past the end, which gives the first half.
  - When the vector is full, `Vec::insert` grows its capacity, and with it the wrap points of both cursors. This growth is not modelled.
  - So enqueueing after a pop in a full queue, which the source's cursors would let through, is outside the model.
- `Vec::with_capacity` may reserve more than requested. The model takes the requested capacity for segments and for the queue.
- `usize` overflow of `tail + 1` and `head + 1` is not modelled.
- The contents of `std::io::Error` are not modelled; it is the single `KeyValues.DecodeError.UnexpectedEof`.
- Tests outside the core files and everything outside the storage core (networking, threads per core) are not part of this model.
