/** The event tracer: the kernel records events into one of 32 buffers and publishes it when the trace
    is finalized; a user process dumps published buffers. The two share a word of ready bits. */
module TraceRing {
  import opened Basics
  import opened BitWord

  const RTL_TNBUFFERS := 32
  const RTL_TNRECORDS := 40
  const RTL_TRACE_MAX_EVENTS := 64
  const RTL_TRACE_FINALIZE := 18

  datatype Record = Record(timestamp: int, eventId: int, eip: int, eventData: int, domainId: int)

  datatype Buffer = Buffer(pos: int, timestamp: int, len: int, id: int, overwritten: nat, trace: seq<Record>)

  /** All that was recorded for one trace, the number it got, and how many traces were lost since the
      one published before. */
  datatype Trace = Trace(records: seq<Record>, timestamp: int, lost: nat)

  // ---- ring positions ----

  /** The buffer of the `n`-th trace published. */
  function Slot(n: int): (i: nat)
    ensures i < RTL_TNBUFFERS
  {
    n % RTL_TNBUFFERS
  }

  lemma SlotNext(n: int)
    ensures (Slot(n) + 1) % RTL_TNBUFFERS == Slot(n + 1)
  {
  }

  lemma SlotApart(m: int, n: int)
    requires m < n < m + RTL_TNBUFFERS
    ensures Slot(m) != Slot(n)
  {
  }

  lemma SlotWraps(n: int)
    ensures Slot(n + RTL_TNBUFFERS) == Slot(n)
  {
  }

  /** Of the 32 traces from the first not yet cleared on, exactly those published are ready. */
  ghost predicate Outstanding(ready: nat, cleared: nat, published: nat) {
    && cleared <= published < cleared + RTL_TNBUFFERS && ready < WORD
    && forall n :: cleared <= n < cleared + RTL_TNBUFFERS ==> (Test(ready, Slot(n)) <==> n < published)
  }

  /** The next buffer is ready exactly if 31 traces are outstanding. */
  lemma NextReady(ready: nat, cleared: nat, published: nat)
    requires Outstanding(ready, cleared, published)
    ensures Test(SetBit(ready, Slot(published)), Slot(published + 1)) <==> published == cleared + RTL_TNBUFFERS - 1
  {
    SetBitTest(ready, Slot(published), Slot(published + 1));
    SlotApart(published, published + 1);
    if published == cleared + RTL_TNBUFFERS - 1 {
      SlotWraps(cleared);
      assert Test(ready, Slot(cleared));
    }
  }

  lemma Publishing(ready: nat, cleared: nat, published: nat)
    requires Outstanding(ready, cleared, published) && published < cleared + RTL_TNBUFFERS - 1
    ensures Outstanding(SetBit(ready, Slot(published)), cleared, published + 1)
  {
    WordBits(ready, Slot(published));
    forall n | cleared <= n < cleared + RTL_TNBUFFERS
      ensures Test(SetBit(ready, Slot(published)), Slot(n)) <==> n < published + 1
    {
      SetBitTest(ready, Slot(published), Slot(n));
      if n < published { SlotApart(n, published); } else if published < n { SlotApart(published, n); }
    }
  }

  /** A trace that finds no room leaves the ready bits as they were. */
  lemma Dropping(ready: nat, cleared: nat, published: nat)
    requires Outstanding(ready, cleared, published)
    ensures Outstanding(ClearBit(SetBit(ready, Slot(published)), Slot(published)), cleared, published)
  {
    var p := Slot(published);
    WordBits(ready, p);
    WordBits(SetBit(ready, p), p);
    forall n | cleared <= n < cleared + RTL_TNBUFFERS
      ensures Test(ClearBit(SetBit(ready, p), p), Slot(n)) <==> n < published
    {
      SetBitTest(ready, p, Slot(n));
      ClearBitTest(SetBit(ready, p), p, Slot(n));
      if n < published { SlotApart(n, published); }
    }
  }

  lemma Clearing(ready: nat, cleared: nat, published: nat)
    requires Outstanding(ready, cleared, published) && cleared < published
    ensures Outstanding(ClearBit(ready, Slot(cleared)), cleared + 1, published)
  {
    WordBits(ready, Slot(cleared));
    forall n | cleared + 1 <= n < cleared + 1 + RTL_TNBUFFERS
      ensures Test(ClearBit(ready, Slot(cleared)), Slot(n)) <==> n < published
    {
      ClearBitTest(ready, Slot(cleared), Slot(n));
      if n == cleared + RTL_TNBUFFERS {
        SlotWraps(cleared);
      } else {
        SlotApart(cleared, n);
      }
    }
  }

  // ---- records within a buffer ----

  /** The last 40 records, oldest first. */
  function Last(records: seq<Record>): seq<Record> {
    if |records| <= RTL_TNRECORDS then records else records[|records| - RTL_TNRECORDS..]
  }

  lemma LastExact(records: seq<Record>)
    ensures Last(records) == records[if |records| > 40 then |records| - 40 else 0..]
  {
  }

  function Place(m: nat): (i: nat)
    ensures i < RTL_TNRECORDS
  {
    m % RTL_TNRECORDS
  }

  lemma PlaceNext(m: nat)
    ensures Place(m + 1) == if Place(m) + 1 >= RTL_TNRECORDS then 0 else Place(m) + 1
  {
  }

  lemma PlaceApart(m: nat, n: nat)
    requires m < n < m + RTL_TNRECORDS
    ensures Place(m) != Place(n)
  {
  }

  /** The slots hold the last records, record `m` at its place. */
  ghost predicate Filled(trace: seq<Record>, len: int, pos: int, records: seq<Record>) {
    && |trace| == RTL_TNRECORDS && len == |Last(records)| && pos == Place(|records|)
    && forall m :: |records| - len <= m < |records| ==> trace[Place(m)] == records[m]
  }

  lemma Recording(trace: seq<Record>, len: int, pos: int, records: seq<Record>, r: Record)
    requires Filled(trace, len, pos, records)
    ensures 0 <= pos < RTL_TNRECORDS
    ensures Filled(trace[pos := r], if len < RTL_TNRECORDS then len + 1 else len,
      if pos + 1 >= RTL_TNRECORDS then 0 else pos + 1, records + [r])
  {
    hide Place;
    var k := |records|;
    PlaceNext(k);
    var len' := if len < RTL_TNRECORDS then len + 1 else len;
    var after, all := trace[pos := r], records + [r];
    forall m | k + 1 - len' <= m < k + 1 ensures after[Place(m)] == all[m] {
      if m < k {
        PlaceApart(m, k);
        assert all[m] == records[m] && trace[Place(m)] == records[m];
      }
    }
  }

  lemma FilledAnew(trace: seq<Record>)
    requires |trace| == RTL_TNRECORDS
    ensures Filled(trace, 0, 0, [])
  {
  }

  // ---- the buffers ----

  ghost predicate Stored(b: Buffer, t: Trace) {
    Filled(b.trace, b.len, b.pos, t.records) && b.timestamp == t.timestamp
  }

  /** The buffers outstanding hold the traces published. */
  ghost predicate Contents(buffers: seq<Buffer>, published: seq<Trace>, cleared: nat) {
    && |buffers| == RTL_TNBUFFERS
    && forall n :: cleared <= n < |published| ==> Stored(buffers[Slot(n)], published[n])
  }

  /** What the counter in the buffer for trace `n` should be. */
  function Expected(published: seq<Trace>, lost: nat, n: nat): nat {
    if n < |published| then published[n].lost else if n == |published| then lost else 0
  }

  /** Each buffer counts the traces lost before its trace, until that has been dumped. */
  ghost predicate Counted(buffers: seq<Buffer>, published: seq<Trace>, lost: nat, dumped: nat) {
    && |buffers| == RTL_TNBUFFERS
    && forall n :: dumped <= n < dumped + RTL_TNBUFFERS ==> buffers[Slot(n)].overwritten == Expected(published, lost, n)
  }

  function SumLost(ts: seq<Trace>): nat {
    if ts == [] then 0 else SumLost(ts[..|ts| - 1]) + ts[|ts| - 1].lost
  }

  lemma SumLostNext(ts: seq<Trace>, t: Trace)
    ensures SumLost(ts + [t]) == SumLost(ts) + t.lost
  {
    assert (ts + [t])[..|ts|] == ts;
  }

  /** Writing the current buffer leaves the published ones alone. */
  lemma CurrentApart(buffers: seq<Buffer>, published: seq<Trace>, cleared: nat, b: Buffer)
    requires Contents(buffers, published, cleared) && |published| < cleared + RTL_TNBUFFERS
    ensures Contents(buffers[Slot(|published|) := b], published, cleared)
  {
    forall n | cleared <= n < |published| ensures Slot(n) != Slot(|published|) {
      SlotApart(n, |published|);
    }
  }

  lemma ContentsPublished(buffers: seq<Buffer>, published: seq<Trace>, cleared: nat, t: Trace)
    requires Contents(buffers, published, cleared) && Stored(buffers[Slot(|published|)], t)
    ensures Contents(buffers, published + [t], cleared)
  {
  }

  /** The current buffer changes, and its counter with the number of traces lost. */
  lemma Counting(buffers: seq<Buffer>, published: seq<Trace>, lost: nat, dumped: nat, b: Buffer)
    requires Counted(buffers, published, lost, dumped) && dumped <= |published| < dumped + RTL_TNBUFFERS
    ensures Counted(buffers[Slot(|published|) := b], published, b.overwritten, dumped)
  {
    var p := |published|;
    forall n | dumped <= n < dumped + RTL_TNBUFFERS && n != p ensures Slot(n) != Slot(p) {
      if n < p { SlotApart(n, p); } else { SlotApart(p, n); }
    }
  }

  lemma CountedPublished(buffers: seq<Buffer>, published: seq<Trace>, lost: nat, dumped: nat, t: Trace)
    requires Counted(buffers, published, lost, dumped) && |published| < dumped + RTL_TNBUFFERS && t.lost == lost
    ensures Counted(buffers, published + [t], 0, dumped)
  {
    forall n | dumped <= n < dumped + RTL_TNBUFFERS ensures Expected(published + [t], 0, n) == Expected(published, lost, n) {
    }
  }

  /** The counter of a buffer is reset once its trace has been dumped. */
  lemma CountedDumped(buffers: seq<Buffer>, published: seq<Trace>, lost: nat, dumped: nat, b: Buffer)
    requires Counted(buffers, published, lost, dumped) && dumped < |published| < dumped + RTL_TNBUFFERS
    requires b.overwritten == 0
    ensures Counted(buffers[Slot(dumped) := b], published, lost, dumped + 1)
  {
    forall n | dumped + 1 <= n < dumped + 1 + RTL_TNBUFFERS
      ensures buffers[Slot(dumped) := b][Slot(n)].overwritten == Expected(published, lost, n)
    {
      if n == dumped + RTL_TNBUFFERS {
        SlotWraps(dumped);
      } else {
        SlotApart(dumped, n);
      }
    }
  }

  ghost predicate Shaped(buffers: seq<Buffer>) {
    |buffers| == RTL_TNBUFFERS && forall i :: 0 <= i < |buffers| ==> |buffers[i].trace| == RTL_TNRECORDS
  }

  // ---- the tracer ----

  /** Where the reader's loop is; while dumping, the slot and the number of the next record, and what
      has been printed of this trace. */
  datatype Reader = Testing | Dumping(s: int, i: int, out: seq<Record>) | Clearing | Advancing

  /** What has happened so far: the traces published, what is recorded of the current one, the traces
      lost since the last published one, and how many have been cleared and dumped. */
  datatype History = History(published: seq<Trace>, records: seq<Record>, lost: nat, cleared: nat, dumped: nat)

  ghost predicate Written(ready: nat, cpos: int, buffers: seq<Buffer>, len: int, cur: int, overwritten: nat, h: History) {
    && Outstanding(ready, h.cleared, |h.published|) && cpos == Slot(|h.published|) && Shaped(buffers)
    && Contents(buffers, h.published, h.cleared) && Filled(buffers[cpos].trace, len, cur, h.records)
    && Counted(buffers, h.published, h.lost, h.dumped) && h.cleared <= h.dumped <= h.cleared + 1 && h.dumped <= |h.published|
    && overwritten == SumLost(h.published) + h.lost
  }

  lemma Bounds(ready: nat, cpos: int, buffers: seq<Buffer>, len: int, cur: int, overwritten: nat, h: History)
    requires Written(ready, cpos, buffers, len, cur, overwritten, h)
    ensures 0 <= cpos < |buffers| == RTL_TNBUFFERS && |buffers[cpos].trace| == RTL_TNRECORDS && 0 <= cur < RTL_TNRECORDS
    ensures h.dumped <= |h.published| < h.dumped + RTL_TNBUFFERS && !Test(ready, cpos)
    ensures h.cleared <= |h.published| < h.cleared + RTL_TNBUFFERS && buffers[cpos].overwritten == h.lost
    ensures (cpos + 1) % RTL_TNBUFFERS == Slot(|h.published| + 1)
    ensures Test(SetBit(ready, cpos), Slot(|h.published| + 1)) <==> |h.published| == h.cleared + RTL_TNBUFFERS - 1
  {
    hide Outstanding, Contents, Filled, Counted, Slot, SetBit, Test, SumLost;
    NextReady(ready, h.cleared, |h.published|);
    SlotNext(|h.published|);
    OutstandingBounds(ready, h.cleared, |h.published|);
    CountedCurrent(buffers, h.published, h.lost, h.dumped);
    FilledPos(buffers[cpos].trace, len, cur, h.records);
  }

  lemma OutstandingBounds(ready: nat, cleared: nat, published: nat)
    requires Outstanding(ready, cleared, published)
    ensures cleared <= published < cleared + RTL_TNBUFFERS && !Test(ready, Slot(published))
  {
  }

  lemma CountedCurrent(buffers: seq<Buffer>, published: seq<Trace>, lost: nat, dumped: nat)
    requires Counted(buffers, published, lost, dumped) && dumped <= |published| < dumped + RTL_TNBUFFERS
    ensures |buffers| == RTL_TNBUFFERS && buffers[Slot(|published|)].overwritten == lost
  {
  }

  lemma FilledPos(trace: seq<Record>, len: int, pos: int, records: seq<Record>)
    requires Filled(trace, len, pos, records)
    ensures 0 <= pos < RTL_TNRECORDS
  {
  }

  lemma AppendStep(ready: nat, cpos: int, buffers: seq<Buffer>, len: int, cur: int, overwritten: nat, h: History, e: Record)
    requires Written(ready, cpos, buffers, len, cur, overwritten, h)
    requires 0 <= cpos < |buffers| && 0 <= cur < |buffers[cpos].trace|
    ensures Written(ready, cpos, buffers[cpos := buffers[cpos].(trace := buffers[cpos].trace[cur := e])],
      if len < RTL_TNRECORDS then len + 1 else len, if cur + 1 >= RTL_TNRECORDS then 0 else cur + 1,
      overwritten, h.(records := h.records + [e]))
  {
    hide Outstanding, Filled, Contents, Counted;
    Bounds(ready, cpos, buffers, len, cur, overwritten, h);
    var b := buffers[cpos].(trace := buffers[cpos].trace[cur := e]);
    Recording(buffers[cpos].trace, len, cur, h.records, e);
    CurrentApart(buffers, h.published, h.cleared, b);
    Counting(buffers, h.published, h.lost, h.dumped, b);
  }

  lemma DropStep(ready: nat, cpos: int, buffers: seq<Buffer>, len: int, cur: int, overwritten: nat, h: History)
    requires Written(ready, cpos, buffers, len, cur, overwritten, h)
    requires 0 <= cpos < |buffers|
    ensures Written(ClearBit(SetBit(ready, cpos), cpos), cpos,
      buffers[cpos := buffers[cpos].(overwritten := buffers[cpos].overwritten + 1)], 0, 0,
      overwritten + 1, h.(records := [], lost := h.lost + 1))
  {
    hide Outstanding, Filled, Contents, Counted;
    Bounds(ready, cpos, buffers, len, cur, overwritten, h);
    var b := buffers[cpos].(overwritten := buffers[cpos].overwritten + 1);
    Dropping(ready, h.cleared, |h.published|);
    CurrentApart(buffers, h.published, h.cleared, b);
    Counting(buffers, h.published, h.lost, h.dumped, b);
    FilledAnew(b.trace);
  }

  /** The current buffer as it is handed over. */
  function Sealed(b: Buffer, id: int, stamp: int, len: int, cur: int): Buffer {
    b.(id := id, timestamp := stamp, len := len, pos := cur)
  }

  function Grown(h: History, stamp: int): History {
    h.(published := h.published + [Trace(h.records, stamp, h.lost)], records := [], lost := 0)
  }

  lemma PublishStep(ready: nat, cpos: int, buffers: seq<Buffer>, len: int, cur: int, overwritten: nat, h: History, id: int, stamp: int)
    requires Written(ready, cpos, buffers, len, cur, overwritten, h)
    requires 0 <= cpos < |buffers| && |h.published| < h.cleared + RTL_TNBUFFERS - 1
    ensures Written(SetBit(ready, cpos), Slot(|h.published| + 1),
      buffers[cpos := Sealed(buffers[cpos], id, stamp, len, cur)], 0, 0, overwritten, Grown(h, stamp))
  {
    hide Outstanding, Filled, Contents, Counted;
    Bounds(ready, cpos, buffers, len, cur, overwritten, h);
    var t := Trace(h.records, stamp, h.lost);
    var b := Sealed(buffers[cpos], id, stamp, len, cur);
    var after := buffers[cpos := b];
    Publishing(ready, h.cleared, |h.published|);
    CurrentApart(buffers, h.published, h.cleared, b);
    Counting(buffers, h.published, h.lost, h.dumped, b);
    ContentsPublished(after, h.published, h.cleared, t);
    CountedPublished(after, h.published, h.lost, h.dumped, t);
    SumLostNext(h.published, t);
    FilledAnew(after[Slot(|h.published| + 1)].trace);
  }

  /** The reader has printed the first traces published, each once and in order, and stands at the
      next; its positions lag behind accordingly. */
  ghost predicate Follows(published: seq<Trace>, dumped: seq<Trace>, reader: Reader, cpos: int, ppos: int, cleared: nat) {
    && |dumped| <= |published| && (forall n :: 0 <= n < |dumped| ==> dumped[n] == Dumped(published[n]))
    && match reader
       case Testing => |dumped| == cleared && Behind(ppos, cleared)
       case Dumping(s, i, out) =>
         && |dumped| == cleared < |published| && cpos == Slot(cleared) && Behind(ppos, cleared)
         && var all := published[cleared].records;
         && 0 <= i <= |Last(all)| && out == Last(all)[..i] && s == Place(|all| - |Last(all)| + i)
       case Clearing => |dumped| == cleared + 1 && cpos == Slot(cleared) && Behind(ppos, cleared)
       case Advancing => |dumped| == cleared > 0 && cpos == Slot(cleared - 1) && Behind(ppos, cleared - 1)
  }

  ghost predicate Behind(ppos: int, n: nat) {
    ppos == if n == 0 then -1 else Slot(n - 1)
  }

  lemma FollowsMore(published: seq<Trace>, t: Trace, dumped: seq<Trace>, reader: Reader, cpos: int, ppos: int, cleared: nat)
    requires Follows(published, dumped, reader, cpos, ppos, cleared)
    ensures Follows(published + [t], dumped, reader, cpos, ppos, cleared)
  {
  }

  /** `rtl_trace_dump` starts at the oldest record. */
  lemma DumpStart(b: Buffer, t: Trace)
    requires Stored(b, t)
    ensures b.len == |Last(t.records)|
    ensures Place(|t.records| - |Last(t.records)|) ==
      if b.pos - b.len < 0 then b.pos - b.len + RTL_TNRECORDS else b.pos - b.len
  {
  }

  /** The record at the reader's slot is the next one. */
  lemma DumpOne(b: Buffer, t: Trace, s: int, i: int)
    requires Stored(b, t) && 0 <= i < b.len && s == Place(|t.records| - |Last(t.records)| + i)
    ensures 0 <= s < |b.trace| && i < |Last(t.records)| && b.trace[s] == Last(t.records)[i]
    ensures Last(t.records)[..i + 1] == Last(t.records)[..i] + [b.trace[s]]
    ensures Place(|t.records| - |Last(t.records)| + (i + 1)) == if s + 1 >= RTL_TNRECORDS then 0 else s + 1
  {
    PlaceNext(|t.records| - |Last(t.records)| + i);
  }

  /** Resetting the counter of the trace just dumped. */
  lemma DumpEnd(ready: nat, cpos: int, buffers: seq<Buffer>, len: int, cur: int, overwritten: nat, h: History)
    requires Written(ready, cpos, buffers, len, cur, overwritten, h) && h.dumped == h.cleared < |h.published|
    ensures buffers[Slot(h.dumped)].overwritten == h.published[h.dumped].lost
    ensures Written(ready, cpos, buffers[Slot(h.dumped) := buffers[Slot(h.dumped)].(overwritten := 0)], len, cur,
      overwritten, h.(dumped := h.dumped + 1))
  {
    hide Outstanding, Filled;
    Bounds(ready, cpos, buffers, len, cur, overwritten, h);
    CountedDumped(buffers, h.published, h.lost, h.dumped, buffers[Slot(h.dumped)].(overwritten := 0));
    SlotApart(h.dumped, |h.published|);
  }

  lemma ClearStep(ready: nat, cpos: int, buffers: seq<Buffer>, len: int, cur: int, overwritten: nat, h: History)
    requires Written(ready, cpos, buffers, len, cur, overwritten, h) && h.dumped == h.cleared + 1
    ensures Written(ClearBit(ready, Slot(h.cleared)), cpos, buffers, len, cur, overwritten, h.(cleared := h.cleared + 1))
  {
    hide Outstanding, Filled;
    Clearing(ready, h.cleared, |h.published|);
  }

  lemma AtFront(ready: nat, cpos: int, buffers: seq<Buffer>, len: int, cur: int, overwritten: nat, h: History)
    requires Written(ready, cpos, buffers, len, cur, overwritten, h)
    ensures Test(ready, Slot(h.cleared)) <==> h.cleared < |h.published|
    ensures h.cleared < |h.published| ==> |buffers| == RTL_TNBUFFERS && Stored(buffers[Slot(h.cleared)], h.published[h.cleared])
  {
  }

  class Tracer {
    var ready: nat
    var overwritten: nat
    var finalizeCount: nat
    var readerCpos: int
    var readerPpos: int
    var writerCpos: int
    var writerNpos: int
    var buffers: seq<Buffer>
    var timestamp: int
    var len: int
    var cur: int
    var reader: Reader
    var dumped: seq<Trace>
    ghost var past: History
    ghost var started: nat

    ghost predicate Valid()
      reads this
    {
      && Written(ready, writerCpos, buffers, len, cur, overwritten, past) && past.dumped == |dumped|
      && finalizeCount == started + |past.published| + overwritten
      && Follows(past.published, dumped, reader, readerCpos, readerPpos, past.cleared)
    }

    /** `xmtrace_core_setup`, on buffers that count no lost traces; `finalize_count` is not reset. */
    constructor (trace: seq<Record>, count: nat)
      requires |trace| == RTL_TNRECORDS
      ensures Valid() && past == History([], [], 0, 0, 0) && dumped == [] && reader == Testing && started == count
    {
      ready, overwritten, finalizeCount, started := 0, 0, count, count;
      readerCpos, readerPpos, writerCpos, writerNpos := 0, -1, 0, 0;
      buffers := seq(RTL_TNBUFFERS, _ => Buffer(0, 0, 0, 0, 0, trace));
      timestamp, len, cur := 0, 0, 0;
      reader, dumped, past := Testing, [], History([], [], 0, 0, 0);
      new;
      forall k: nat ensures !Test(0, k) {
        NoBits(k);
      }
    }

    /** No ready buffer has changed. */
    twostate predicate ReadyKept()
      reads this
    {
      |buffers| == |old(buffers)| == RTL_TNBUFFERS &&
      forall i :: 0 <= i < RTL_TNBUFFERS && Test(old(ready), i) ==> buffers[i] == old(buffers)[i]
    }

    /** `rtl_do_trace`; `enabled` tells whether the class of the event is traced. */
    method DoTrace(event: Record, enabled: bool)
      requires Valid()
      modifies this
      ensures Valid() && ReadyKept() && dumped == old(dumped) && reader == old(reader) && started == old(started)
      ensures event.eventId != RTL_TRACE_FINALIZE ==> past == old(past).(records :=
        if enabled && 0 <= event.eventId < RTL_TRACE_MAX_EVENTS then old(past).records + [event] else old(past).records)
      ensures event.eventId == RTL_TRACE_FINALIZE ==>
        past == if |old(past).published| - old(past).cleared < 31 then
          History(old(past).published + [Trace(old(past).records, timestamp, old(past).lost)], [], 0,
                  old(past).cleared, old(past).dumped)
        else History(old(past).published, [], old(past).lost + 1, old(past).cleared, old(past).dumped)
    {
      hide Written, Follows;
      Bounds(ready, writerCpos, buffers, len, cur, overwritten, past);
      if event.eventId < 0 || event.eventId >= RTL_TRACE_MAX_EVENTS {
        return;
      }
      if event.eventId == RTL_TRACE_FINALIZE {
        Finalize(1);
        return;
      }
      if enabled {
        Append(event);
      }
    }

    method Append(event: Record)
      requires Valid()
      modifies this`buffers, this`len, this`cur, this`past
      ensures Valid() && ReadyKept() && past == old(past).(records := old(past).records + [event])
    {
      hide Written, Follows;
      Bounds(ready, writerCpos, buffers, len, cur, overwritten, past);
      AppendStep(ready, writerCpos, buffers, len, cur, overwritten, past, event);
      buffers := buffers[writerCpos := buffers[writerCpos].(trace := buffers[writerCpos].trace[cur := event])];
      if len < RTL_TNRECORDS {
        len := len + 1;
      }
      cur := cur + 1;
      if cur >= RTL_TNRECORDS {
        cur := 0;
      }
      past := past.(records := past.records + [event]);
    }

    /** `rtl_trace_finalize`: the trace is published with all that was recorded, or dropped and counted as
        lost if 31 traces are outstanding. */
    method Finalize(id: int)
      requires Valid()
      modifies this
      ensures Valid() && ReadyKept()
      ensures past == if |old(past).published| - old(past).cleared < 31 then
          History(old(past).published + [Trace(old(past).records, timestamp, old(past).lost)], [], 0,
                  old(past).cleared, old(past).dumped)
        else History(old(past).published, [], old(past).lost + 1, old(past).cleared, old(past).dumped)
      ensures dumped == old(dumped) && reader == old(reader) && started == old(started)
      ensures finalizeCount == old(finalizeCount) + 1 && timestamp == old(timestamp) + 1
    {
      hide Written, Follows;
      Bounds(ready, writerCpos, buffers, len, cur, overwritten, past);
      timestamp := timestamp + 1;
      finalizeCount := finalizeCount + 1;
      writerNpos := (writerCpos + 1) % RTL_TNBUFFERS;
      var bits := SetBit(ready, writerCpos);
      if Test(bits, writerNpos) {
        Drop(bits);
      } else {
        Publish(id, bits);
      }
    }

    /** A finalize has been counted but neither published nor dropped yet. */
    ghost predicate Finalizing()
      reads this
    {
      && Written(ready, writerCpos, buffers, len, cur, overwritten, past) && past.dumped == |dumped|
      && finalizeCount == started + |past.published| + overwritten + 1
      && Follows(past.published, dumped, reader, readerCpos, readerPpos, past.cleared)
    }

    /** The next buffer has not been read yet: the current one is started all over again. */
    method Drop(bits: nat)
      requires Finalizing() && 0 <= writerCpos && bits == SetBit(ready, writerCpos)
      modifies this`overwritten, this`buffers, this`ready, this`len, this`cur, this`past
      ensures Valid() && ReadyKept() && past == old(past).(records := [], lost := old(past).lost + 1)
    {
      hide Written, Follows;
      Bounds(ready, writerCpos, buffers, len, cur, overwritten, past);
      DropStep(ready, writerCpos, buffers, len, cur, overwritten, past);
      overwritten := overwritten + 1;
      buffers := buffers[writerCpos := buffers[writerCpos].(overwritten := buffers[writerCpos].overwritten + 1)];
      ready := ClearBit(bits, writerCpos);
      len, cur, past := 0, 0, past.(records := [], lost := past.lost + 1);
    }

    method Publish(id: int, bits: nat)
      requires Finalizing() && 0 <= writerCpos && bits == SetBit(ready, writerCpos)
      requires writerNpos == Slot(|past.published| + 1) && |past.published| < past.cleared + RTL_TNBUFFERS - 1
      modifies this`buffers, this`ready, this`writerCpos, this`len, this`cur, this`past
      ensures Valid() && ReadyKept() && past == Grown(old(past), timestamp)
    {
      hide Written, Follows, Slot, SetBit, Test, Sealed;
      Bounds(ready, writerCpos, buffers, len, cur, overwritten, past);
      PublishStep(ready, writerCpos, buffers, len, cur, overwritten, past, id, timestamp);
      ghost var t := Trace(past.records, timestamp, past.lost);
      FollowsMore(past.published, t, dumped, reader, readerCpos, readerPpos, past.cleared);
      buffers := buffers[writerCpos := Sealed(buffers[writerCpos], id, timestamp, len, cur)];
      ready := bits;
      len, cur, writerCpos, past := 0, 0, writerNpos, Grown(past, timestamp);
    }

    /** The test of the reader's loop. */
    method TestReady()
      requires Valid() && reader.Testing?
      modifies this`readerCpos, this`reader
      ensures Valid() && (reader.Dumping? <==> past.cleared < |past.published|) && (reader.Dumping? || reader.Testing?)
    {
      hide Written, Stored, Slot, Last;
      AtFront(ready, writerCpos, buffers, len, cur, overwritten, past);
      SlotNext(past.cleared - 1);
      SlotStart();
      readerCpos := (readerPpos + 1) % RTL_TNBUFFERS;
      if Test(ready, readerCpos) {
        var b := buffers[readerCpos];
        DumpStart(b, past.published[past.cleared]);
        var s := b.pos - b.len;
        if s < 0 {
          s := s + RTL_TNRECORDS;
        }
        reader := Dumping(s, 0, []);
      }
    }

    /** One turn of the loop in `rtl_trace_dump`, or its end. */
    method DumpNext()
      requires Valid() && reader.Dumping?
      modifies this`reader, this`dumped, this`buffers, this`past
      ensures Valid()
      ensures past == if reader.Clearing? then old(past).(dumped := old(past).dumped + 1) else old(past)
      ensures reader.Dumping? ==> dumped == old(dumped)
      ensures reader.Clearing? ==>
        && |old(dumped)| < |past.published|
        && var t := past.published[|old(dumped)|];
        && var from := if |t.records| > 40 then |t.records| - 40 else 0;
        && dumped == old(dumped) + [Trace(t.records[from..], t.timestamp, t.lost)]
      ensures reader.Dumping? || reader.Clearing?
    {
      hide Written, Stored, Slot, Last;
      AtFront(ready, writerCpos, buffers, len, cur, overwritten, past);
      Bounds(ready, writerCpos, buffers, len, cur, overwritten, past);
      var b := buffers[readerCpos];
      ghost var t := past.published[past.cleared];
      DumpStart(b, t);
      var Dumping(s, i, out) := reader;
      if i < b.len {
        DumpOne(b, t, s, i);
        reader := Dumping(if s + 1 >= RTL_TNRECORDS then 0 else s + 1, i + 1, out + [b.trace[s]]);
      } else {
        DumpEnd(ready, writerCpos, buffers, len, cur, overwritten, past);
        SameStamp(b, t);
        LastExact(t.records);
        dumped := dumped + [Trace(out, b.timestamp, b.overwritten)];
        buffers := buffers[readerCpos := b.(overwritten := 0)];
        reader, past := Clearing, past.(dumped := past.dumped + 1);
      }
    }

    method ClearReady()
      requires Valid() && reader.Clearing?
      modifies this`ready, this`reader, this`past
      ensures Valid() && past == old(past).(cleared := old(past).cleared + 1) && reader == Advancing
    {
      hide Written, Slot;
      ClearStep(ready, writerCpos, buffers, len, cur, overwritten, past);
      ready := ClearBit(ready, readerCpos);
      reader, past := Advancing, past.(cleared := past.cleared + 1);
    }

    method Advance()
      requires Valid() && reader.Advancing?
      modifies this`readerPpos, this`reader
      ensures Valid() && reader == Testing
    {
      hide Written, Slot;
      readerPpos := readerCpos;
      reader := Testing;
    }

    /** What the invariant says of everything that has happened: the traces dumped are the first ones
        published, each once and in order, each with its last 40 records oldest first; at most 31
        are outstanding; and every finalize has either published or lost a trace. */
    lemma Summary()
      requires Valid()
      ensures |dumped| <= |past.published| && |past.published| - past.cleared <= 31
      ensures forall n :: 0 <= n < |dumped| ==>
        && dumped[n].timestamp == past.published[n].timestamp && dumped[n].lost == past.published[n].lost
        && var all := past.published[n].records;
           dumped[n].records == all[if |all| > 40 then |all| - 40 else 0..]
      ensures finalizeCount - started == |past.published| + overwritten
      ensures overwritten == SumLost(past.published) + past.lost
    {
    }

    /** Any interleaving of recorded events, finalizes and single steps of the reader. */
    method Run(steps: seq<Step>)
      requires Valid()
      modifies this
      ensures Valid() && started == old(started)
      ensures old(past).published <= past.published && old(dumped) <= dumped
    {
      hide Written, Follows;
      var i := 0;
      while i < |steps|
        invariant i <= |steps| && Valid() && started == old(started)
        invariant old(past).published <= past.published && old(dumped) <= dumped
      {
        match steps[i] {
          case Event(event, enabled) => DoTrace(event, enabled);
          case Read =>
            match reader {
              case Testing => TestReady();
              case Dumping(_, _, _) => DumpNext();
              case Clearing => ClearReady();
              case Advancing => Advance();
            }
        }
        i := i + 1;
      }
    }
  }

  datatype Step = Event(event: Record, enabled: bool) | Read

  lemma SlotStart()
    ensures Slot(0) == 0
  {
  }

  lemma SameStamp(b: Buffer, t: Trace)
    requires Stored(b, t)
    ensures b.timestamp == t.timestamp
  {
  }

  /** What is printed of a trace: its last records, its number and the count of traces lost. */
  function Dumped(t: Trace): Trace {
    t.(records := Last(t.records))
  }
}
