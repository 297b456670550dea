/** The log engine as a state machine driven by one sequential caller: every
    public operation is a step from one state to the next with a reply, and a
    run is a sequence of steps. */
module LogMachine {
  import opened Results
  import opened EventRecord
  import opened InMemoryEventLog

  /** A call on the engine's public surface. */
  datatype Op =
    | AppendOp(record: Option<Draft>)
    | ReadFromOp(startOffset: int, maxCount: int)
    | GetEndOffsetOp
    | ReplayOp(startOffset: int, cancelAt: Option<nat>)
    | CompactOp
    | DisposeOp

  /** What a call hands back when it does not throw. */
  datatype Reply =
    | Committed(record: Record)
    | Records(records: seq<Record>)
    | EndOffset(offset: int)
    | Done

  /** The state after a call together with the call's reply. */
  datatype Outcome = Outcome(log: Log, reply: Result<Reply>)

  /** The same exception, re-typed for a reply. */
  function Rethrow<T>(r: Result<T>): (e: Result<Reply>)
    requires r.IsFailure()
    ensures e.IsFailure()
  {
    match r
    case ArgError(p, m) => ArgError(p, m)
    case NullError(p) => NullError(p)
  }

  /** One call on the engine. */
  function Step(log: Log, op: Op): (r: Outcome)
    ensures r.reply.IsFailure() ==> r.log == log
    ensures !op.AppendOp? && !op.DisposeOp? ==> r.log == log
    ensures op.AppendOp? && r.reply.Ok? ==>
              r.reply.value.Committed? && r.reply.value.record.offset == log.nextOffset
    ensures Valid(log) ==> Valid(r.log)
  {
    match op
    case AppendOp(record) =>
      var a := Append(log, record);
      if a.Ok? then Outcome(a.value.log, Ok(Committed(a.value.record)))
      else Outcome(log, Rethrow(a))
    case ReadFromOp(s, m) =>
      var rs := ReadFrom(log, s, m);
      if rs.Ok? then Outcome(log, Ok(Records(rs.value))) else Outcome(log, Rethrow(rs))
    case GetEndOffsetOp =>
      Outcome(log, Ok(EndOffset(GetEndOffset(log))))
    case ReplayOp(s, cancelAt) =>
      var rs := Replay(log, s, cancelAt);
      if rs.Ok? then Outcome(log, Ok(Records(rs.value))) else Outcome(log, Rethrow(rs))
    case CompactOp =>
      Outcome(Compact(log), Ok(Done))
    case DisposeOp =>
      Outcome(Dispose(log), Ok(Done))
  }

  /** The state after performing `ops` in order. */
  function Run(log: Log, ops: seq<Op>): Log
    decreases |ops|
  {
    if |ops| == 0 then log else Run(Step(log, ops[0]).log, ops[1..])
  }

  /** The number of calls in `ops` that append a non-null record. */
  function SuccessfulAppends(ops: seq<Op>): nat
    decreases |ops|
  {
    if |ops| == 0 then 0
    else (if ops[0].AppendOp? && ops[0].record.Some? then 1 else 0) + SuccessfulAppends(ops[1..])
  }

  /** `ops` contains no Dispose call. */
  predicate NoDispose(ops: seq<Op>) {
    forall i :: 0 <= i < |ops| ==> !ops[i].DisposeOp?
  }

  /** Every sequence of calls keeps the representation invariant. */
  lemma {:induction false} RunPreservesValid(log: Log, ops: seq<Op>)
    requires Valid(log)
    ensures Valid(Run(log, ops))
    decreases |ops|
  {
    if |ops| > 0 {
      RunPreservesValid(Step(log, ops[0]).log, ops[1..]);
    }
  }

  /** Running `a` then `b` is running their concatenation. */
  lemma {:induction false} RunConcat(log: Log, a: seq<Op>, b: seq<Op>)
    ensures Run(log, a + b) == Run(Run(log, a), b)
    decreases |a|
  {
    if |a| > 0 {
      assert (a + b)[0] == a[0];
      assert (a + b)[1..] == a[1..] + b;
      RunConcat(Step(log, a[0]).log, a[1..], b);
    } else {
      assert a + b == b;
    }
  }

  /** Without Dispose, the end offset advances by exactly the number of
      successful appends, and records already committed stay where they are,
      unchanged. */
  lemma {:induction false} EndOffsetCountsAppends(log: Log, ops: seq<Op>)
    requires NoDispose(ops)
    ensures GetEndOffset(Run(log, ops)) == GetEndOffset(log) + SuccessfulAppends(ops)
    ensures log.events <= Run(log, ops).events
    decreases |ops|
  {
    if |ops| > 0 {
      var next := Step(log, ops[0]).log;
      assert NoDispose(ops[1..]) by {
        forall i | 0 <= i < |ops[1..]|
          ensures !ops[1..][i].DisposeOp?
        {
          assert ops[1..][i] == ops[i + 1];
        }
      }
      EndOffsetCountsAppends(next, ops[1..]);
      if ops[0].AppendOp? && ops[0].record.Some? {
        assert next.nextOffset == log.nextOffset + 1;
        assert log.events <= next.events;
      } else {
        assert next == log;
      }
    }
  }

  /** The end offset equals the number of records successfully appended since
      the last Dispose, whatever happened before it. */
  lemma EndOffsetSinceDispose(log: Log, before: seq<Op>, after: seq<Op>)
    requires NoDispose(after)
    ensures GetEndOffset(Run(log, before + [DisposeOp] + after)) == SuccessfulAppends(after)
    ensures Valid(Run(log, before + [DisposeOp] + after))
  {
    RunConcat(log, before + [DisposeOp], after);
    RunConcat(log, before, [DisposeOp]);
    var cleared := Run(log, before + [DisposeOp]);
    assert cleared == Empty();
    EndOffsetCountsAppends(cleared, after);
    RunPreservesValid(cleared, after);
  }

  /** From a fresh engine, any sequence of calls leaves the invariant in
      force and the end offset equal to the number of records committed. */
  lemma FromEmpty(ops: seq<Op>)
    requires NoDispose(ops)
    ensures Valid(Run(Empty(), ops))
    ensures GetEndOffset(Run(Empty(), ops)) == SuccessfulAppends(ops)
    ensures |Run(Empty(), ops).events| == SuccessfulAppends(ops)
  {
    RunPreservesValid(Empty(), ops);
    EndOffsetCountsAppends(Empty(), ops);
  }
}
