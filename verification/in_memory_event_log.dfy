/** The in-memory log engine: an ordered list of committed records and the
    offset the next append will receive. Every operation is a pure function of
    the current state; the ones that mutate return the successor state. */
module InMemoryEventLog {
  import opened Results
  import opened EventRecord

  /** The engine's state: the stored records and the next-offset counter. */
  datatype Log = Log(events: seq<Record>, nextOffset: int)

  /** What a successful Append produces: the successor state and the record
      handed back to the caller. */
  datatype Appended = Appended(log: Log, record: Record)

  /** The state of a freshly constructed engine: no records, counter 0. */
  function Empty(): (r: Log)
    ensures Valid(r)
    ensures r.events == [] && r.nextOffset == 0
  {
    Log([], 0)
  }

  /** The records of `xs` carry the consecutive offsets base, base + 1, ... */
  ghost predicate OffsetsFrom(xs: seq<Record>, base: int) {
    forall i :: 0 <= i < |xs| ==> xs[i].offset == base + i
  }

  /** The representation invariant: the record at position i has offset i and
      the counter equals the number of stored records. */
  ghost predicate Valid(log: Log) {
    && log.nextOffset >= 0
    && |log.events| == log.nextOffset
    && OffsetsFrom(log.events, 0)
  }

  /** Append: reject a null record; otherwise stamp the caller's record with
      the current counter (null headers become an empty map), store it at the
      end and advance the counter. */
  function Append(log: Log, record: Option<Draft>): (r: Result<Appended>)
    ensures record.None? ==> r == NullError("record")
    ensures record.Some? ==> r.Ok?
    ensures r.Ok? ==>
      && r.value.record.offset == log.nextOffset
      && r.value.log.events == log.events + [r.value.record]
      && r.value.log.nextOffset == log.nextOffset + 1
      && KeepsContent(record.value, r.value.record)
    ensures r.Ok? && Valid(log) ==> Valid(r.value.log)
  {
    match record
    case None => NullError("record")
    case Some(d) =>
      var stored := Commit(d, log.nextOffset);
      Ok(Appended(Log(log.events + [stored], log.nextOffset + 1), stored))
  }

  /** The records of `xs` whose offset is at least `start`, in list order
      (the LINQ `Where(e => e.Offset >= startOffset)` filter). */
  function WhereOffsetAtLeast(xs: seq<Record>, start: int): (r: seq<Record>)
    ensures |r| <= |xs|
    ensures forall x :: x in r <==> x in xs && x.offset >= start
  {
    if |xs| == 0 then []
    else if xs[0].offset >= start then [xs[0]] + WhereOffsetAtLeast(xs[1..], start)
    else WhereOffsetAtLeast(xs[1..], start)
  }

  /** At most the first `n` elements of `xs` (the LINQ `Take(n)` operator). */
  function Take(xs: seq<Record>, n: nat): (r: seq<Record>)
    ensures r <= xs
    ensures |r| == if n <= |xs| then n else |xs|
  {
    if n <= |xs| then xs[..n] else xs
  }

  /** ReadFrom: reject a negative start offset, then a negative count;
      otherwise the first `maxCount` stored records whose offset is at least
      `startOffset`. */
  function ReadFrom(log: Log, startOffset: int, maxCount: int): (r: Result<seq<Record>>)
    ensures startOffset < 0 ==> r == ArgError("startOffset", "Start offset cannot be negative")
    ensures 0 <= startOffset && maxCount < 0 ==> r == ArgError("maxCount", "Max count cannot be negative")
    ensures r.Ok? <==> 0 <= startOffset && 0 <= maxCount
    ensures r.Ok? ==> |r.value| <= maxCount
    ensures r.Ok? ==> forall x :: x in r.value ==> x in log.events && x.offset >= startOffset
  {
    if startOffset < 0 then ArgError("startOffset", "Start offset cannot be negative")
    else if maxCount < 0 then ArgError("maxCount", "Max count cannot be negative")
    else Ok(Take(WhereOffsetAtLeast(log.events, startOffset), maxCount))
  }

  /** GetEndOffset: the offset the next appended record will receive. */
  function GetEndOffset(log: Log): (r: int)
    ensures Valid(log) ==> r == |log.events| && r >= 0
  {
    log.nextOffset
  }

  /** Whether the cancellation check made before element `step` sees the
      token set. `cancelAt` is the first step whose check sees it set, or None
      when the token is never set during the traversal; once set it stays set. */
  predicate CancellationSeen(cancelAt: Option<nat>, step: nat) {
    cancelAt.Some? && cancelAt.value <= step
  }

  /** The replay loop over the filtered records still to visit: before each
      element it polls the token and stops silently when cancellation is seen. */
  function ReplaySteps(pending: seq<Record>, step: nat, cancelAt: Option<nat>): (r: seq<Record>)
    ensures r <= pending
    ensures CancellationSeen(cancelAt, step) ==> r == []
    decreases |pending|
  {
    if |pending| == 0 then []
    else if CancellationSeen(cancelAt, step) then []
    else [pending[0]] + ReplaySteps(pending[1..], step + 1, cancelAt)
  }

  /** Replay: reject a negative start offset before producing anything;
      otherwise stream the stored records whose offset is at least
      `startOffset`, stopping at the first step that sees cancellation. */
  function Replay(log: Log, startOffset: int, cancelAt: Option<nat>): (r: Result<seq<Record>>)
    ensures startOffset < 0 ==> r == ArgError("startOffset", "Start offset cannot be negative")
    ensures r.Ok? <==> 0 <= startOffset
    ensures r.Ok? ==> r.value <= WhereOffsetAtLeast(log.events, startOffset)
    ensures r.Ok? && cancelAt == Some(0) ==> r.value == []
  {
    if startOffset < 0 then ArgError("startOffset", "Start offset cannot be negative")
    else Ok(ReplaySteps(WhereOffsetAtLeast(log.events, startOffset), 0, cancelAt))
  }

  /** Compact: a no-op for the in-memory engine. */
  function Compact(log: Log): (r: Log)
    ensures r.events == log.events && r.nextOffset == log.nextOffset
  {
    log
  }

  /** Dispose: drop every record and reset the counter, leaving an empty but
      usable log. */
  function Dispose(log: Log): (r: Log)
    ensures Valid(r)
    ensures r.events == [] && r.nextOffset == 0
  {
    Empty()
  }
}
