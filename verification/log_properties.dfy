/** Properties of the log engine's operations: reads are contiguous slices,
    replay is a prefix of the uncancelled read, appends assign consecutive
    offsets, and dispose returns the log to its initial state. */
module LogProperties {
  import opened Results
  import opened EventRecord
  import opened InMemoryEventLog

  /** How many records a valid ReadFrom(start, maxCount) returns from a log
      whose end offset is `endOffset`: min(maxCount, max(0, endOffset - start)). */
  function ReadCount(endOffset: int, start: int, maxCount: nat): nat {
    var available := if endOffset - start > 0 then endOffset - start else 0;
    if maxCount <= available then maxCount else available
  }

  /** Where a filter on `offset >= start` cuts a run of `n` records whose
      offsets start at `base`. */
  function Cut(start: int, base: int, n: nat): nat {
    if start - base <= 0 then 0
    else if start - base >= n then n
    else start - base
  }

  /** On records with consecutive offsets, the offset filter keeps exactly a
      suffix: everything from the record whose offset is `start` onwards. */
  lemma {:induction false} WhereOnConsecutive(xs: seq<Record>, base: int, start: int)
    requires OffsetsFrom(xs, base)
    ensures WhereOffsetAtLeast(xs, start) == xs[Cut(start, base, |xs|)..]
    decreases |xs|
  {
    if |xs| > 0 {
      assert xs[0].offset == base;
      var rest := xs[1..];
      assert OffsetsFrom(rest, base + 1) by {
        forall i | 0 <= i < |rest|
          ensures rest[i].offset == base + 1 + i
        {
          assert rest[i] == xs[i + 1];
        }
      }
      WhereOnConsecutive(rest, base + 1, start);
      if base >= start {
        assert [xs[0]] + rest == xs;
      } else {
        assert Cut(start, base, |xs|) == 1 + Cut(start, base + 1, |rest|);
        assert rest[Cut(start, base + 1, |rest|)..] == xs[Cut(start, base, |xs|)..];
      }
    }
  }

  /** A valid ReadFrom(s, m) returns the contiguous, ascending slice of the
      store that starts at offset s and has ReadCount records. */
  lemma ReadFromSlice(log: Log, startOffset: int, maxCount: int)
    requires Valid(log)
    requires 0 <= startOffset && 0 <= maxCount
    ensures ReadFrom(log, startOffset, maxCount).Ok?
    ensures |ReadFrom(log, startOffset, maxCount).value|
         == ReadCount(log.nextOffset, startOffset, maxCount)
    ensures forall i :: 0 <= i < |ReadFrom(log, startOffset, maxCount).value| ==>
              && ReadFrom(log, startOffset, maxCount).value[i] == log.events[startOffset + i]
              && ReadFrom(log, startOffset, maxCount).value[i].offset == startOffset + i
    ensures startOffset <= log.nextOffset ==>
              (ReadFrom(log, startOffset, maxCount).value
               == log.events[startOffset .. startOffset + ReadCount(log.nextOffset, startOffset, maxCount)])
  {
    WhereOnConsecutive(log.events, 0, startOffset);
  }

  /** A valid read is empty exactly when it starts at or past the end offset
      or asks for nothing. */
  lemma ReadFromEmpty(log: Log, startOffset: int, maxCount: int)
    requires Valid(log)
    requires 0 <= startOffset && 0 <= maxCount
    ensures ReadFrom(log, startOffset, maxCount) == Ok([])
        <==> startOffset >= log.nextOffset || maxCount == 0
  {
    ReadFromSlice(log, startOffset, maxCount);
  }

  /** The replay loop yields the first `j - step` pending records when the
      first cancellation check to see the token set is step j, and all of
      them when cancellation is never seen. */
  lemma {:induction false} ReplayStepsTakes(pending: seq<Record>, step: nat, cancelAt: Option<nat>)
    ensures cancelAt.None? ==> ReplaySteps(pending, step, cancelAt) == pending
    ensures cancelAt.Some? ==>
      ReplaySteps(pending, step, cancelAt)
      == Take(pending, if cancelAt.value <= step then 0 else cancelAt.value - step)
    decreases |pending|
  {
    if |pending| > 0 && !CancellationSeen(cancelAt, step) {
      ReplayStepsTakes(pending[1..], step + 1, cancelAt);
      assert [pending[0]] + pending[1..] == pending;
      if cancelAt.Some? {
        var k := cancelAt.value - step;
        if k <= |pending| {
          assert [pending[0]] + pending[1..][..k - 1] == pending[..k];
        }
      }
    }
  }

  /** Replay run to completion without cancellation yields exactly the
      records ReadFrom returns for the rest of the log. */
  lemma ReplayUncancelledIsRead(log: Log, startOffset: int)
    requires Valid(log)
    requires 0 <= startOffset
    ensures Replay(log, startOffset, None)
         == ReadFrom(log, startOffset, if log.nextOffset - startOffset > 0 then log.nextOffset - startOffset else 0)
  {
    var pending := WhereOffsetAtLeast(log.events, startOffset);
    ReplayStepsTakes(pending, 0, None);
    WhereOnConsecutive(log.events, 0, startOffset);
    assert Take(pending, |pending|) == pending;
  }

  /** Replay whose cancellation is first seen at step j yields what
      ReadFrom(start, j) returns. */
  lemma ReplayCancelledIsRead(log: Log, startOffset: int, j: nat)
    requires 0 <= startOffset
    ensures Replay(log, startOffset, Some(j)) == ReadFrom(log, startOffset, j)
  {
    ReplayStepsTakes(WhereOffsetAtLeast(log.events, startOffset), 0, Some(j));
  }

  /** A cancelled replay yields exactly the first j records of the
      uncancelled replay: always a prefix, never a reordering or a gap. */
  lemma ReplayCancelledIsPrefix(log: Log, startOffset: int, j: nat)
    requires 0 <= startOffset
    ensures Replay(log, startOffset, Some(j)).Ok? && Replay(log, startOffset, None).Ok?
    ensures var full := Replay(log, startOffset, None).value;
      Replay(log, startOffset, Some(j)).value == full[..if j <= |full| then j else |full|]
  {
    var pending := WhereOffsetAtLeast(log.events, startOffset);
    ReplayStepsTakes(pending, 0, Some(j));
    ReplayStepsTakes(pending, 0, None);
  }

  /** Disposing twice is the same as disposing once. */
  lemma DisposeIdempotent(log: Log)
    ensures Dispose(Dispose(log)) == Dispose(log)
  {
  }

  /** After Dispose the log behaves as a freshly constructed one: end offset
      0, every read and replay empty, and the next append gets offset 0. */
  lemma AfterDispose(log: Log, startOffset: int, maxCount: int, cancelAt: Option<nat>, d: Draft)
    requires 0 <= startOffset && 0 <= maxCount
    ensures Dispose(log) == Empty()
    ensures GetEndOffset(Dispose(log)) == 0
    ensures ReadFrom(Dispose(log), startOffset, maxCount) == Ok([])
    ensures Replay(Dispose(log), startOffset, cancelAt) == Ok([])
    ensures Append(Dispose(log), Some(d)).value.record.offset == 0
  {
  }

  /** Compaction keeps every committed record, its offset and its position. */
  lemma CompactPreserves(log: Log)
    ensures |Compact(log).events| == |log.events|
    ensures forall i :: 0 <= i < |log.events| ==> Compact(log).events[i] == log.events[i]
    ensures GetEndOffset(Compact(log)) == GetEndOffset(log)
  {
  }

  /** Appending N records one after another assigns them the offsets
      nextOffset, nextOffset + 1, ..., keeps each caller's content and leaves
      the store extended by exactly those records. From the empty log the
      offsets are 0 .. N-1. */
  method AppendAll(log: Log, drafts: seq<Draft>) returns (result: Log, committed: seq<Record>)
    ensures |committed| == |drafts|
    ensures result.events == log.events + committed
    ensures result.nextOffset == log.nextOffset + |drafts|
    ensures forall i :: 0 <= i < |drafts| ==>
              committed[i].offset == log.nextOffset + i && KeepsContent(drafts[i], committed[i])
    ensures Valid(log) ==> Valid(result)
  {
    result := log;
    committed := [];
    for n := 0 to |drafts|
      invariant |committed| == n
      invariant result.events == log.events + committed
      invariant result.nextOffset == log.nextOffset + n
      invariant forall i :: 0 <= i < n ==>
                  committed[i].offset == log.nextOffset + i && KeepsContent(drafts[i], committed[i])
      invariant Valid(log) ==> Valid(result)
    {
      var appended := Append(result, Some(drafts[n])).value;
      result := appended.log;
      committed := committed + [appended.record];
    }
  }
}
