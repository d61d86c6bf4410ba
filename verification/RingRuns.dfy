/** Runs of mixed operations on the ring of src/ringbuffer.c as written, and the log from
    start to dump. */
module RingRuns {
  import opened Bytes
  import opened Deque
  import opened RingBuffer
  import opened RingLayout

  /** An operation that leaves the ring well whatever its stale cells hold: it does not take
      the last record, unless from a full buffer's front, and it steps back over no record
      of 255 bytes and over no suffix on the wrap point. */
  predicate Safe(size: nat, head: nat, recs: seq<Record>, op: Op)
    requires Total(recs) <= size && head < size
  {
    match op
    case Add(data, overwrite) =>
      var d := if overwrite then Discards(recs, size - Total(recs), |data| + 2) else 0;
      d < |recs| || d == 0 || |Last(recs)| + 2 == size
    case RemoveFirst => |recs| != 1 || |recs[0]| + 2 == size
    case RemoveLast => recs == [] || (|recs| > 1 && StepsClear(size, head, recs))
  }

  predicate StepsClear(size: nat, head: nat, recs: seq<Record>)
    requires Total(recs) <= size && head < size && |recs| > 1
  {
    TotalsFall(recs);
    var r := recs[|recs| - 2];
    |r| <= 254 && !SuffixOnWrap(size, At(size, head, Total(Init(Init(recs)))), |r|)
  }

  lemma TotalsFall(recs: seq<Record>)
    requires |recs| > 1
    ensures Total(Init(Init(recs))) <= Total(Init(recs)) <= Total(recs)
  {
    TotalSplit(recs, |recs| - 1);
    TotalSplit(Init(recs), |recs| - 2);
  }

  /** Where the oldest record starts afterwards. */
  function HeadNext(size: nat, head: nat, recs: seq<Record>, op: Op): nat
    requires Total(recs) <= size && head < size
  {
    match op
    case Add(data, overwrite) =>
      var d := if overwrite then Discards(recs, size - Total(recs), |data| + 2) else 0;
      TotalSplit(recs, d);
      At(size, head, Total(recs[..d]))
    case RemoveFirst => if recs == [] then head else At(size, head, |recs[0]| + 2)
    case RemoveLast => head
  }

  ghost predicate AllSafe(size: nat, head: nat, recs: seq<Record>, ops: seq<Op>)
    decreases |ops|
  {
    && Total(recs) <= size && head < size
    && (ops != [] ==>
          && Safe(size, head, recs, ops[0])
          && AllSafe(size, HeadNext(size, head, recs, ops[0]), DequeStep(recs, size, ops[0]).0, ops[1..]))
  }

  /** One operation on the ring, with room to copy any record out. */
  method Apply(rb: U8RingBuffer, op: Op) returns (a: Answer)
    requires rb.Valid() && rb.head < rb.size
    modifies rb, rb.buf
    ensures (rb.records, a) == DequeStep(old(rb.records), rb.size, op)
    ensures rb.head == HeadNext(rb.size, old(rb.head), old(rb.records), op)
    // in other words
    ensures op.RemoveFirst? ==>
              if old(rb.records) == [] then a == Refused && rb.records == []
              else a == Removed(old(rb.records)[0]) && rb.records == old(rb.records)[1..]
    ensures op.RemoveLast? ==>
              if old(rb.records) == [] then a == Refused && rb.records == []
              else a == Removed(old(rb.records)[|old(rb.records)| - 1]) && rb.records == old(rb.records)[..|old(rb.records)| - 1]
    ensures op.Add? && !op.overwrite ==>
              if Total(old(rb.records)) + |op.data| + 2 <= rb.size then a == Added && rb.records == old(rb.records) + [op.data]
              else a == Refused && rb.records == old(rb.records)
    ensures op.Add? && op.overwrite ==> a == if |op.data| + 2 <= rb.size then Added else Refused
    ensures op.Add? && op.overwrite ==>
              DropsFewest(old(rb.records), rb.size, |op.data| + 2, if a == Added then [op.data] else [], rb.records)
    // and when the ring is well afterwards
    ensures Safe(rb.size, old(rb.head), old(rb.records), op) ==> rb.Valid()
    ensures !op.RemoveLast? ==> (rb.Valid() <==> Safe(rb.size, old(rb.head), old(rb.records), op))
    ensures op.RemoveLast? && old(rb.records) != [] ==> (rb.Valid() <==> old(rb.LastWell()))
  {
    ghost var was := rb.records;
    a := ApplyOne(rb, op);
    if op.Add? && op.overwrite {
      AddInWords(was, rb.size, op.data);
    }
  }

  method ApplyOne(rb: U8RingBuffer, op: Op) returns (a: Answer)
    requires rb.Valid() && rb.head < rb.size
    modifies rb, rb.buf
    ensures (rb.records, a) == DequeStep(old(rb.records), rb.size, op)
    ensures rb.head == HeadNext(rb.size, old(rb.head), old(rb.records), op)
    ensures Safe(rb.size, old(rb.head), old(rb.records), op) ==> rb.Valid()
    ensures !op.RemoveLast? ==> (rb.Valid() <==> Safe(rb.size, old(rb.head), old(rb.records), op))
    ensures op.RemoveLast? && old(rb.records) != [] ==> (rb.Valid() <==> old(rb.LastWell()))
  {
    match op
    case Add(data, overwrite) =>
      a := ApplyAdd(rb, data, overwrite);
    case RemoveFirst =>
      var len, data := rb.RemoveFirst(255);
      a := if len > 0 then Removed(data) else Refused;
    case RemoveLast =>
      ghost var recs := rb.records;
      if |recs| > 1 {
        TotalsFall(recs);
      }
      var len, data := rb.RemoveLast(255);
      a := if len > 0 then Removed(data) else Refused;
  }

  lemma AddIs(size: nat, head: nat, recs: seq<Record>, free: nat, data: Record, overwrite: bool)
    requires free + Total(recs) == size && head < size
    ensures var d := if overwrite then Discards(recs, free, |data| + 2) else 0;
            && DequeStep(recs, size, Add(data, overwrite)) ==
                 (if free + Total(recs[..d]) >= |data| + 2 then (recs[d..] + [data], Added) else (recs[d..], Refused))
            && (d == 0 ==> HeadNext(size, head, recs, Add(data, overwrite)) == head)
            && (d > 0 ==> HeadAfter(size, head, Total(recs[..d]), HeadNext(size, head, recs, Add(data, overwrite))))
  {
    var d := if overwrite then Discards(recs, free, |data| + 2) else 0;
    assert size - Total(recs) == free;
    TotalSplit(recs, d);
    assert recs[..0] == [] && recs[0..] == recs;
  }

  method ApplyAdd(rb: U8RingBuffer, data: Record, overwrite: bool) returns (a: Answer)
    requires rb.Valid() && rb.head < rb.size
    modifies rb, rb.buf
    ensures (rb.records, a) == DequeStep(old(rb.records), rb.size, Add(data, overwrite))
    ensures rb.head == HeadNext(rb.size, old(rb.head), old(rb.records), Add(data, overwrite))
    ensures rb.Valid() <==> Safe(rb.size, old(rb.head), old(rb.records), Add(data, overwrite))
  {
    ghost var recs, d := rb.records, if overwrite then Discards(rb.records, rb.free, |data| + 2) else 0;
    AddIs(rb.size, rb.head, recs, rb.free, data, overwrite);
    var r := rb.Add(data, overwrite);
    assert r == 0 || rb.records == recs[d..];
    a := if r == 0 then Added else Refused;
  }

  /** Every run of safe operations is that of a deque: of adds and removals of the first record
      it is a queue, and a removal right after an add takes back what was added. */
  method Run(rb: U8RingBuffer, ops: seq<Op>) returns (answers: seq<Answer>)
    requires rb.Valid() && AllSafe(rb.size, rb.head, rb.records, ops)
    modifies rb, rb.buf
    ensures rb.Valid() && (rb.records, answers) == DequeRun(old(rb.records), rb.size, ops)
    ensures Queueing(ops) ==> old(rb.records) + Accepted(ops, answers) == HandedOut(answers) + rb.records
    ensures LastInHandedOut(ops, answers)
  {
    ghost var was := rb.records;
    answers := RunAll(rb, ops);
    if Queueing(ops) {
      FirstInFirstOut(was, rb.size, ops);
    }
    LastInFirstOut(was, rb.size, ops);
  }

  method RunAll(rb: U8RingBuffer, ops: seq<Op>) returns (answers: seq<Answer>)
    requires rb.Valid() && AllSafe(rb.size, rb.head, rb.records, ops)
    modifies rb, rb.buf
    ensures rb.Valid() && (rb.records, answers) == DequeRun(old(rb.records), rb.size, ops)
    decreases |ops|
  {
    if ops == [] {
      return [];
    }
    var a := ApplyOne(rb, ops[0]);
    var rest := RunAll(rb, ops[1..]);
    return [a] + rest;
  }

  // ---- the log ----

  /** Where the newest of the messages logged since set-up starts: they lie one after the
      other, discarded ones included. */
  function NewestAt(msgs: seq<Record>, size: nat): nat
    requires size > 0
  {
    if msgs == [] then 0 else Around(size, Total(Init(msgs)))
  }

  /** A message whose last cell comes out just past a full round has its suffix on the wrap
      point. */
  predicate PastTheEnd(msgs: seq<Record>, size: nat)
    requires size > 0
  {
    msgs != [] && Around(size, Total(msgs)) == 1
  }

  /** What the slack cell holds: the length of the last message that was written past the end. */
  function SlackAfter(msgs: seq<Record>, size: nat, before: byte): byte
    requires size > 0
    decreases |msgs|
  {
    if msgs == [] then before
    else if PastTheEnd(msgs, size) then |Last(msgs)|
    else SlackAfter(Init(msgs), size, before)
  }

  lemma OneMessageMore(msgs: seq<Record>, msg: Record, size: nat)
    requires 514 <= size
    ensures NewestAt(msgs + [msg], size) ==
            if msgs == [] then 0 else At(size, NewestAt(msgs, size), |Last(msgs)| + 2)
    ensures PastTheEnd(msgs + [msg], size) <==> SuffixOnWrap(size, NewestAt(msgs + [msg], size), |msg|)
  {
    assert Init(msgs + [msg]) == msgs;
    TotalSnoc(msgs, msg);
    AroundThenAt(size, Total(msgs), |msg| + 2);
    if msgs != [] {
      TotalSplit(msgs, |msgs| - 1);
      assert msgs == Init(msgs) + [Last(msgs)];
      TotalSnoc(Init(msgs), Last(msgs));
      AroundThenAt(size, Total(Init(msgs)), |Last(msgs)| + 2);
    }
  }

  ghost predicate Logged(rb: U8RingBuffer, msgs: seq<Record>, before: byte)
    reads rb, rb.buf
  {
    && rb.Valid() && 514 <= rb.size && LongestFit(rb.records, msgs, rb.size)
    && (msgs == [] <==> rb.records == [])
    && (msgs != [] ==> rb.records != [] && Last(rb.records) == Last(msgs))
    && rb.tail == NewestAt(msgs, rb.size)
    && rb.buf[rb.size] == SlackAfter(msgs, rb.size, before)
  }

  /** The log from its start. The cell past the ring is written exactly by the messages for which
      the cells of all messages so far, their own included, are 1 modulo the size. */
  method LogFromStart(b: array<byte>, size: nat, msgs: seq<Record>) returns (rb: U8RingBuffer)
    requires b.Length == size + 1 && 514 <= size && size + 258 < SIZE_T_RANGE
    modifies b
    ensures fresh(rb) && rb.buf == b && rb.size == size && Logged(rb, msgs, old(b[size]))
  {
    rb := NewLog(b, size);
    ghost var before, past := b[size], [];
    for i := 0 to |msgs|
      invariant past == msgs[..i] && Logged(rb, past, before)
    {
      LogOne(rb, past, msgs[i], before);
      past := past + [msgs[i]];
    }
    assert past == msgs;
  }

  method NewLog(b: array<byte>, size: nat) returns (rb: U8RingBuffer)
    requires b.Length == size + 1 && 514 <= size && size + 258 < SIZE_T_RANGE
    ensures fresh(rb) && rb.buf == b && rb.size == size && Logged(rb, [], b[size])
  {
    rb := new U8RingBuffer(b, size);
    assert FitsWithout([], rb.records, [], size);
  }

  method LogOne(rb: U8RingBuffer, ghost past: seq<Record>, msg: Record, ghost before: byte)
    requires Logged(rb, past, before)
    modifies rb, rb.buf
    ensures Logged(rb, past + [msg], before)
  {
    OneMessageMore(past, msg, rb.size);
    assert Init(past + [msg]) == past && Last(past + [msg]) == msg;
    LogMsg(rb, past, msg);
  }

  /** Whatever was logged, the dump is the longest run of newest messages that fits, oldest
      first. */
  method LogAndDump(b: array<byte>, size: nat, msgs: seq<Record>) returns (out: seq<seq<byte>>)
    requires b.Length == size + 1 && 514 <= size && size + 258 < SIZE_T_RANGE
    modifies b
    ensures exists kept: seq<Record> :: out == kept && LongestFit(kept, msgs, size)
    ensures b[size] == SlackAfter(msgs, size, old(b[size]))
  {
    var rb := LogFromStart(b, size, msgs);
    out := DumpLog(rb);
  }
}
