# In-memory event log — Dafny model

This project models `InMemoryEventLog`, the reference engine of the EventMesh
append-only event log. The engine stores a list of committed event records
and a next-offset counter. Producers append records and get back the committed
record, which carries the offset the log assigned. Consumers read a bounded batch (`ReadFromAsync`) or replay
a cancellable stream (`ReplayAsync`) from any offset. `GetEndOffsetAsync`
reports the next offset, `CompactAsync` does nothing, and `Dispose` clears
the log back to its initial, still usable, state.

The engine is modelled as an immutable `Log(events, nextOffset)` value, and
each operation as a pure function of it. The operations that can throw
(append, read, replay) return a `Result`: `Ok`, `ArgError` for
`ArgumentException` or `NullError` for `ArgumentNullException`. End offset,
compact and dispose cannot throw and return plain values (an `int`, or the
successor `Log`). A successful append returns the successor state together
with the committed record. `LogMachine.Step` wraps every call's reply in a
`Result`.

- `results.dfy` — `Option` stands for a nullable reference and `Result` for a
  call that returns or throws.
- `event_record.dfy` — the caller's `Draft` (any offset, nullable headers) and
  the committed `Record` (assigned offset, non-null headers), after
  `EventRecord.cs`.
- `in_memory_event_log.dfy` — the state, its invariant `Valid`, and the six
  operations, following the source's branches and checks. `ReadFrom` is
  `Take` after an offset filter. Replay is a loop that polls cancellation
  before each element; it runs over the log as it stands when the replay
  starts (see "Left out" for what that leaves unmodelled).
- `log_properties.dfy` — reads are contiguous slices, replay is a prefix of
  the uncancelled read, N appends get consecutive offsets, and dispose resets
  the log.
- `log_machine.dfy` — the engine as a state machine driven by one sequential
  caller. It proves that the invariant holds across any run, that errors and
  queries leave the state alone, and that the end offset counts the appends
  since the last dispose.

Cancellation in replay is given as `cancelAt: Option<nat>`. `Some(j)` means
the check made before element `j` (counting from 0) is the first to see the
token set. `None` means cancellation is never seen. Once set, the token stays
set.

## Model

| member | source | states |
|---|---|---|
| `InMemoryEventLog.Empty` | src/EventMesh.EventLog/InMemoryEventLog.cs:8-9 | a freshly constructed engine holds no records, has counter 0 and satisfies the invariant |
| `EventRecord.Commit` | src/EventMesh.EventLog/InMemoryEventLog.cs:16-30 | the stored record carries the given offset, the caller's topic, payload and timestamp, and the caller's headers, or an empty map when they were null |
| `InMemoryEventLog.Append` | src/EventMesh.EventLog/InMemoryEventLog.cs:11-33 | a null record fails with a null-argument error naming `record`. Otherwise the call succeeds. The returned record's offset is the previous end offset, the store grows by exactly that record, the counter advances by one, the caller's content is kept, and the invariant is preserved |
| `InMemoryEventLog.WhereOffsetAtLeast` | src/EventMesh.EventLog/InMemoryEventLog.cs:42-43 | a record is in the filtered list exactly when it is stored and its offset is at least the start |
| `InMemoryEventLog.Take` | src/EventMesh.EventLog/InMemoryEventLog.cs:44 | the result is a prefix of the input of length min(n, input length) |
| `InMemoryEventLog.ReadFrom` | src/EventMesh.EventLog/InMemoryEventLog.cs:35-48 | a negative start fails with an argument error on `startOffset`. A valid start with a negative count fails on `maxCount`. Any other call succeeds with at most `maxCount` stored records, each at or after the start |
| `InMemoryEventLog.GetEndOffset` | src/EventMesh.EventLog/InMemoryEventLog.cs:50-53 | on a valid log the end offset is the number of stored records (0 when empty) |
| `InMemoryEventLog.ReplaySteps` | src/EventMesh.EventLog/InMemoryEventLog.cs:61-68 | the replay loop yields a prefix of the records it visits and nothing once cancellation has been seen |
| `InMemoryEventLog.Replay` | src/EventMesh.EventLog/InMemoryEventLog.cs:55-69 | a negative start fails before any element, whatever the cancellation state. Otherwise the call yields a prefix of the records at or after the start, and nothing when cancellation is seen at the first check |
| `InMemoryEventLog.Compact` | src/EventMesh.EventLog/InMemoryEventLog.cs:71-75 | the records and the counter are unchanged |
| `InMemoryEventLog.Dispose` | src/EventMesh.EventLog/InMemoryEventLog.cs:77-81 | the result is the empty, valid log with counter 0 |
| `LogProperties.WhereOnConsecutive` | src/EventMesh.EventLog/InMemoryEventLog.cs:42-43 | on records with consecutive offsets, the offset filter keeps exactly the suffix that starts at the start offset |
| `LogProperties.ReadFromSlice` | src/EventMesh.EventLog/InMemoryEventLog.cs:42-47 | a valid read on a valid log returns `events[s .. s+k]` with k = min(m, max(0, end - s)); element i has offset s + i, so results are contiguous and ascending |
| `LogProperties.ReadFromEmpty` | src/EventMesh.EventLog/InMemoryEventLog.cs:42-47 | a valid read is empty if and only if the start is at or past the end offset or the count is 0 |
| `LogProperties.ReplayStepsTakes` | src/EventMesh.EventLog/InMemoryEventLog.cs:61-66 | the replay loop yields all pending records without cancellation. With cancellation first seen at step j it yields the first j - step of them |
| `LogProperties.ReplayUncancelledIsRead` | src/EventMesh.EventLog/InMemoryEventLog.cs:57-68 | an uncancelled replay from s equals ReadFrom(s, max(0, end - s)) |
| `LogProperties.ReplayCancelledIsRead` | src/EventMesh.EventLog/InMemoryEventLog.cs:60-66 | a replay whose cancellation is first seen at step j equals ReadFrom(s, j) |
| `LogProperties.ReplayCancelledIsPrefix` | src/EventMesh.EventLog/InMemoryEventLog.cs:61-64 | a cancelled replay yields exactly the first min(j, n) records of the uncancelled replay |
| `LogProperties.DisposeIdempotent` | src/EventMesh.EventLog/InMemoryEventLog.cs:77-81 | disposing twice equals disposing once |
| `LogProperties.AfterDispose` | src/EventMesh.EventLog/InMemoryEventLog.cs:77-81 | after dispose the log is the initial one. The end offset is 0, reads and replays are empty, and the next append gets offset 0 |
| `LogProperties.CompactPreserves` | src/EventMesh.EventLog/InMemoryEventLog.cs:71-75 | compaction keeps every record at its position and keeps the end offset |
| `LogProperties.AppendAll` | src/EventMesh.EventLog/InMemoryEventLog.cs:30-32 | N sequential appends return offsets end, end+1, ..., end+N-1 (0..N-1 from empty). They keep each caller's content, extend the store by exactly the returned records, and preserve the invariant |
| `LogMachine.Step` | src/EventMesh.EventLog/InMemoryEventLog.cs:11-81 | every call preserves the invariant. A call that throws leaves the state unchanged, and so do all calls other than append and dispose. A successful append replies with the previous end offset |
| `LogMachine.RunPreservesValid` | src/EventMesh.EventLog/InMemoryEventLog.cs:8-9 | every sequence of calls keeps `|events| == nextOffset >= 0` and `events[i].offset == i` |
| `LogMachine.EndOffsetCountsAppends` | src/EventMesh.EventLog/InMemoryEventLog.cs:30-31 | without dispose, the end offset grows by exactly the number of successful appends, and already committed records stay in place unchanged |
| `LogMachine.EndOffsetSinceDispose` | src/EventMesh.EventLog/InMemoryEventLog.cs:77-81 | the end offset equals the number of records appended since the last dispose |
| `LogMachine.FromEmpty` | src/EventMesh.EventLog/InMemoryEventLog.cs:8-9 | from a fresh engine without dispose, the log is valid and holds exactly as many records as successful appends |

## Left out

- InMemoryEventLog.Replay: replay is modelled over a snapshot of the log taken when the replay starts. In the source the filter is lazy over the live list, so an append or a dispose made between two elements (even by the same caller inside the `await foreach`) makes the next step throw InvalidOperationException, before the cancellation check. The model does not express that interleaving; `LogMachine.Step` treats a replay as one atomic call.
- Concurrency: the source takes no lock, and `_nextOffset++` followed by `_events.Add` is not atomic. The model has a single sequential caller and claims nothing about concurrent appends or linearizability.
- Async plumbing: the `Task` and `IAsyncEnumerable` wrappers and `Task.Yield` are not modelled. The `CancellationToken` parameters of append, read, end-offset and compact are ignored by the source and are not modelled.
- Replay error timing: the negative-offset check of the async iterator runs when enumeration starts, not when `ReplayAsync` is called. The model only says the error comes before any element.
- Timestamp: the default of `DateTime.UtcNow` is a clock read when the caller builds the record. The model treats the timestamp as an opaque value copied unchanged.
- C# record details: `byte[]` aliasing and dictionary identity are not modelled. Neither is the branch that copies a non-`EventRecord` implementation of `IEventRecord`; it is collapsed into one caller record with optional headers.
- Integer widths: offsets are `long` and `maxCount` is `int` in the source. The model uses unbounded integers. Counter overflow at 2^63 cannot be reached, because the backing `List` cannot hold that many elements.
- `IEventLog.cs` and `IEventRecord.cs` only declare the interface and are not modelled. The unit tests in `UnitTest1.cs` are not modelled as code; the behaviours they pin down (offsets 0 and 1 for two appends, reads from an offset and with a count, empty results past the end, argument errors, cancelled replay yielding nothing, empty topic and payload kept, null headers replaced, the log usable after dispose) are the properties stated in the table above.
