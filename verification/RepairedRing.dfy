/** The ring of src/ringbuffer.c with its three faults repaired, as a value: the suffix wraps
    like the payload, the step back is not cut to one byte, and a buffer that a removal
    empties has `head` and `tail` set anew. It is then a deque in every run. */
module RepairedRing {
  import opened Bytes
  import opened RingLayout
  import opened Deque

  datatype Ring = Ring(m: seq<byte>, free: nat, head: nat, tail: nat, items: nat)

  // ---- the repaired operations ----

  predicate Sane(r: Ring) {
    |r.m| < SIZE_T_RANGE && r.head < |r.m| && r.tail < |r.m|
  }

  function Fetch(m: seq<byte>, off: nat): seq<byte>
    requires off < |m|
  {
    seq(m[off], k requires 0 <= k < m[off] => if k < |m| then m[At(|m|, off, k + 1)] else 0)
  }

  /** The m with r written at `off`, suffix and all, going round at the end. */
  function Store(m: seq<byte>, off: nat, r: Record): seq<byte>
    requires off < |m|
  {
    seq(|m|, x requires 0 <= x < |m| =>
      var d := Dist(|m|, off, x);
      if d == 0 || d == |r| + 1 then |r| else if d <= |r| then r[d - 1] else m[x])
  }

  function StepBack(m: seq<byte>, off: nat): nat
    requires off < |m|
  {
    var o := At(|m|, off, |m| - 1);
    BackBy(|m|, o, m[o] as int + 1)
  }

  function DropFirstItem(r: Ring): Ring
    requires Sane(r) && r.items > 0
  {
    var head := NextOffset(r.m, |r.m|, r.head);
    r.(head := head, tail := if r.items == 1 then head else r.tail,
       free := r.free + r.m[r.head] as int + 2, items := r.items - 1)
  }

  function DropLastItem(r: Ring): Ring
    requires Sane(r) && r.items > 0
  {
    var tail := if r.items == 1 then r.head else StepBack(r.m, r.tail);
    r.(tail := tail, free := r.free + r.m[r.tail] as int + 2, items := r.items - 1)
  }

  function MakeRoom(r: Ring, need: nat): (r': Ring)
    requires Sane(r)
    ensures Sane(r') && |r'.m| == |r.m|
    decreases r.items
  {
    if r.free >= need || r.items == 0 then r else MakeRoom(DropFirstItem(r), need)
  }

  function Put(r: Ring, data: Record): Ring
    requires Sane(r) && |data| + 2 <= r.free
  {
    var tail := if r.items > 0 then NextOffset(r.m, |r.m|, r.tail) else r.tail;
    r.(m := Store(r.m, tail, data), tail := tail, free := r.free - |data| - 2, items := r.items + 1)
  }

  function PutIfRoom(r: Ring, data: Record): (Ring, Answer)
    requires Sane(r)
  {
    if |data| + 2 <= r.free then (Put(r, data), Added) else (r, Refused)
  }

  /** The ring holds exactly `recs`. */
  ghost predicate Holds(r: Ring, recs: seq<Record>) {
    && Sane(r)
    && r.items == |recs|
    && r.free + Total(recs) == |r.m|
    && Stored(true, r.m, |r.m|, r.head, r.tail, recs)
  }

  lemma DropFirstHolds(r: Ring, recs: seq<Record>)
    requires Holds(r, recs) && recs != []
    ensures Holds(DropFirstItem(r), recs[1..])
    ensures Fetch(r.m, r.head) == recs[0]
  {
    DropFirst(true, r.m, |r.m|, r.head, r.tail, recs);
    FetchIs(r.m, r.head, recs[0]);
  }

  lemma FetchIs(m: seq<byte>, off: nat, r: Record)
    requires off < |m| && |r| + 2 <= |m| && RecordAt(true, m, |m|, off, r)
    ensures Fetch(m, off) == r
  {
  }

  lemma DropLastHolds(r: Ring, recs: seq<Record>)
    requires Holds(r, recs) && recs != []
    ensures Sane(DropLastItem(r)) && Holds(DropLastItem(r), Init(recs))
    ensures Fetch(r.m, r.tail) == Last(recs)
  {
    var size := |r.m|;
    ChainInit(true, r.m, size, r.head, recs);
    LastRecord(r.m, r.head, recs);
    if |recs| > 1 {
      ChainInit(true, r.m, size, r.head, Init(recs));
      LastRecord(r.m, r.head, Init(recs));
    }
  }

  lemma LastRecord(m: seq<byte>, head: nat, recs: seq<Record>)
    requires head < |m| && Total(recs) <= |m| && recs != [] && Chain(true, m, |m|, head, recs)
    ensures Total(Init(recs)) + |Last(recs)| + 2 == Total(recs)
    ensures var last := At(|m|, head, Total(Init(recs)));
            Fetch(m, last) == Last(recs) && StepBack(m, At(|m|, head, Total(recs))) == last
  {
    LastRecordAt(m, head, recs);
    var last := At(|m|, head, Total(Init(recs)));
    StepBackOver(m, last, Last(recs));
    FetchIs(m, last, Last(recs));
  }

  lemma LastRecordAt(m: seq<byte>, head: nat, recs: seq<Record>)
    requires head < |m| && Total(recs) <= |m| && recs != [] && Chain(true, m, |m|, head, recs)
    ensures Total(Init(recs)) + |Last(recs)| + 2 == Total(recs)
    ensures var last := At(|m|, head, Total(Init(recs)));
            && RecordAt(true, m, |m|, last, Last(recs))
            && At(|m|, head, Total(recs)) == At(|m|, last, |Last(recs)| + 2)
  {
    ChainInit(true, m, |m|, head, recs);
    ChainRecord(true, m, |m|, head, recs, |recs| - 1);
    AtTwice(|m|, head, Total(Init(recs)), |Last(recs)| + 2);
  }

  lemma StepBackOver(m: seq<byte>, off: nat, r: Record)
    requires off < |m| && |r| + 2 <= |m| && RecordAt(true, m, |m|, off, r)
    ensures StepBack(m, At(|m|, off, |r| + 2)) == off
  {
    assert At(|m|, At(|m|, off, |r| + 2), |m| - 1) == At(|m|, off, |r| + 1);
  }

  lemma {:induction false} MakeRoomHolds(r: Ring, recs: seq<Record>, need: nat)
    requires Holds(r, recs)
    ensures Holds(MakeRoom(r, need), recs[Discards(recs, r.free, need)..])
    decreases r.items
  {
    if r.free < need && r.items > 0 {
      DropFirstHolds(r, recs);
      DropFirst(true, r.m, |r.m|, r.head, r.tail, recs);
      MakeRoomHolds(DropFirstItem(r), recs[1..], need);
    }
  }

  lemma StoreWrites(m: seq<byte>, off: nat, r: Record)
    requires off < |m| && |r| + 2 <= |m|
    ensures RecordAt(true, Store(m, off, r), |m|, off, r)
    ensures forall x :: 0 <= x < |m| && Dist(|m|, off, x) >= |r| + 2 ==> Store(m, off, r)[x] == m[x]
  {
    forall k | 0 <= k < |r| + 2
      ensures Dist(|m|, off, At(|m|, off, k)) == k
    {
    }
  }

  lemma PutHolds(r: Ring, recs: seq<Record>, data: Record)
    requires Holds(r, recs) && |data| + 2 <= r.free
    ensures Holds(Put(r, data), recs + [data])
  {
    NextTail(true, r.m, |r.m|, r.head, r.tail, recs);
    StoreWrites(r.m, At(|r.m|, r.head, Total(recs)), data);
    AppendLast(true, r.m, Put(r, data).m, |r.m|, r.head, recs, data);
  }

  // ---- every run ----

  /** One operation; a Ring that is not Sane is never met. */
  function Step(r: Ring, op: Op): (Ring, Answer)
    requires Sane(r)
  {
    match op
    case Add(data, overwrite) =>
      var r' := if overwrite then MakeRoom(r, |data| + 2) else r;
      PutIfRoom(r', data)
    case RemoveFirst =>
      if r.items == 0 then (r, Refused) else (DropFirstItem(r), Removed(Fetch(r.m, r.head)))
    case RemoveLast =>
      if r.items == 0 then (r, Refused) else (DropLastItem(r), Removed(Fetch(r.m, r.tail)))
  }

  lemma AddRefines(r: Ring, recs: seq<Record>, data: Record, overwrite: bool)
    requires Holds(r, recs)
    ensures var op := Add(data, overwrite);
            && Step(r, op).1 == DequeStep(recs, |r.m|, op).1
            && Holds(Step(r, op).0, DequeStep(recs, |r.m|, op).0) && |Step(r, op).0.m| == |r.m|
  {
    var r', left := BeforePut(r, recs, data, overwrite);
    PutIfRoomRefines(r', left, data);
  }

  lemma BeforePut(r: Ring, recs: seq<Record>, data: Record, overwrite: bool) returns (r': Ring, left: seq<Record>)
    requires Holds(r, recs)
    ensures Holds(r', left) && |r'.m| == |r.m|
    ensures Step(r, Add(data, overwrite)) == PutIfRoom(r', data)
    ensures DequeStep(recs, |r.m|, Add(data, overwrite)) == AddIfRoom(left, |r.m|, data)
  {
    r', left := r, recs;
    if overwrite {
      MakeRoomHolds(r, recs, |data| + 2);
      r', left := MakeRoom(r, |data| + 2), recs[Discards(recs, |r.m| - Total(recs), |data| + 2)..];
    }
  }

  lemma PutIfRoomRefines(r: Ring, recs: seq<Record>, data: Record)
    requires Holds(r, recs)
    ensures PutIfRoom(r, data).1 == AddIfRoom(recs, |r.m|, data).1
    ensures Holds(PutIfRoom(r, data).0, AddIfRoom(recs, |r.m|, data).0) && |PutIfRoom(r, data).0.m| == |r.m|
  {
    if |data| + 2 <= r.free {
      PutHolds(r, recs, data);
    }
  }

  lemma StepHolds(r: Ring, recs: seq<Record>, op: Op)
    requires Holds(r, recs)
    ensures Step(r, op).1 == DequeStep(recs, |r.m|, op).1
    ensures Holds(Step(r, op).0, DequeStep(recs, |r.m|, op).0) && |Step(r, op).0.m| == |r.m|
  {
    match op
    case Add(data, overwrite) =>
      AddRefines(r, recs, data, overwrite);
    case RemoveFirst =>
      if recs != [] {
        DropFirstHolds(r, recs);
      }
    case RemoveLast =>
      if recs != [] {
        DropLastHolds(r, recs);
      }
  }

  /** One operation on the repaired ring: the answer, and the records it holds then. */
  lemma StepRefines(r: Ring, recs: seq<Record>, op: Op) returns (left: seq<Record>)
    requires Holds(r, recs)
    ensures Holds(Step(r, op).0, left) && |Step(r, op).0.m| == |r.m|
    ensures (left, Step(r, op).1) == DequeStep(recs, |r.m|, op)
    // in other words
    ensures !op.Add? && recs == [] ==> left == [] && Step(r, op).1 == Refused
    ensures op.RemoveFirst? && recs != [] ==> left == recs[1..] && Step(r, op).1 == Removed(recs[0])
    ensures op.RemoveLast? && recs != [] ==> left == recs[..|recs| - 1] && Step(r, op).1 == Removed(recs[|recs| - 1])
    ensures op.Add? && !op.overwrite ==>
              if Total(recs) + |op.data| + 2 <= |r.m| then left == recs + [op.data] && Step(r, op).1 == Added
              else left == recs && Step(r, op).1 == Refused
    ensures op.Add? && op.overwrite ==>
              if |op.data| + 2 <= |r.m| then DropsFewest(recs, |r.m|, |op.data| + 2, [op.data], left) && Step(r, op).1 == Added
              else DropsFewest(recs, |r.m|, |op.data| + 2, [], left) && Step(r, op).1 == Refused
  {
    StepHolds(r, recs, op);
    left := StepInWords(recs, |r.m|, op);
  }

  lemma QueueHolds(recs: seq<Record>, size: nat, ops: seq<Op>)
    requires Total(recs) <= size
    ensures var (left, answers) := DequeRun(recs, size, ops);
            Queueing(ops) ==> recs + Accepted(ops, answers) == HandedOut(answers) + left
  {
    if Queueing(ops) {
      FirstInFirstOut(recs, size, ops);
    }
  }

  /** A run of the repaired ring gives the answers of the deque and ends in its records. */
  function RingRun(r: Ring, ghost recs: seq<Record>, ops: seq<Op>): (res: (Ring, seq<Answer>))
    requires Holds(r, recs)
    ensures res.1 == DequeRun(recs, |r.m|, ops).1
    ensures Holds(res.0, DequeRun(recs, |r.m|, ops).0)
    ensures LastInHandedOut(ops, res.1)
    ensures Queueing(ops) ==>
              exists left :: Holds(res.0, left) && recs + Accepted(ops, res.1) == HandedOut(res.1) + left
    decreases |ops|
  {
    LastInFirstOut(recs, |r.m|, ops);
    QueueHolds(recs, |r.m|, ops);
    if ops == [] then (r, [])
    else
      var (r', answer) := Step(r, ops[0]);
      StepHolds(r, recs, ops[0]);
      var (last, answers) := RingRun(r', DequeStep(recs, |r.m|, ops[0]).0, ops[1..]);
      (last, [answer] + answers)
  }

  // ---- walking back ----

  /** In full width a step back from record i + 1 is right over a record of any length. */
  lemma StepBackInChain(m: seq<byte>, head: nat, recs: seq<Record>, i: nat)
    requires head < |m| && Total(recs) <= |m| && i + 1 < |recs| && Chain(true, m, |m|, head, recs)
    ensures Total(recs[..i]) <= |m| && Total(recs[..i + 1]) <= |m|
    ensures StepBack(m, Position(|m|, head, recs, i + 1)) == Position(|m|, head, recs, i)
  {
    ChainRecord(true, m, |m|, head, recs, i);
    var off := Position(|m|, head, recs, i);
    StepBackOver(m, off, recs[i]);
    AtTwice(|m|, head, Total(recs[..i]), |recs[i]| + 2);
  }

  /** A walk of n records from `off` by the step back, in storage order. */
  function FetchBack(m: seq<byte>, off: nat, n: nat): seq<seq<byte>>
    decreases n
  {
    if n == 0 || off >= |m| then [] else FetchBack(m, StepBack(m, off), n - 1) + [Fetch(m, off)]
  }

  /** Walking back from `tail` fetches every record of the repaired ring. */
  lemma WalkBackFetchesAll(r: Ring, recs: seq<Record>)
    requires Holds(r, recs)
    ensures FetchBack(r.m, r.tail, r.items) == recs
  {
    if recs != [] {
      assert recs[..|recs|] == recs;
      WalkBackFetches(r.m, r.head, recs, |recs|);
    }
  }

  lemma {:induction false} WalkBackFetches(m: seq<byte>, head: nat, recs: seq<Record>, i: nat)
    requires head < |m| && Total(recs) <= |m| && 0 < i <= |recs| && Chain(true, m, |m|, head, recs)
    ensures Total(recs[..i - 1]) <= |m|
    ensures FetchBack(m, Position(|m|, head, recs, i - 1), i) == recs[..i]
  {
    var off := RecordFetched(m, head, recs, i - 1);
    assert recs[..i] == recs[..i - 1] + [recs[i - 1]];
    if i > 1 {
      StepBackInChain(m, head, recs, i - 2);
      WalkBackFetches(m, head, recs, i - 1);
    }
    OneBack(m, off, recs[..i - 1], recs[i - 1]);
  }

  lemma RecordFetched(m: seq<byte>, head: nat, recs: seq<Record>, i: nat) returns (off: nat)
    requires head < |m| && Total(recs) <= |m| && i < |recs| && Chain(true, m, |m|, head, recs)
    ensures Total(recs[..i]) <= |m| && off == Position(|m|, head, recs, i) && Fetch(m, off) == recs[i]
  {
    ChainRecord(true, m, |m|, head, recs, i);
    off := Position(|m|, head, recs, i);
    FetchIs(m, off, recs[i]);
  }

  lemma OneBack(m: seq<byte>, off: nat, recs: seq<Record>, r: Record)
    requires off < |m| && Fetch(m, off) == r && FetchBack(m, StepBack(m, off), |recs|) == recs
    ensures FetchBack(m, off, |recs| + 1) == recs + [r]
  {
  }

  // ---- with the suffix repaired and nothing else ----

  function PlainDropFirstItem(r: Ring): Ring
    requires Sane(r) && r.items > 0
  {
    r.(head := NextOffset(r.m, |r.m|, r.head), free := r.free + r.m[r.head] as int + 2, items := r.items - 1)
  }

  function PlainDropLastItem(r: Ring): Ring
    requires Sane(r) && r.items > 0
  {
    r.(tail := PreviousOffset(r.m, |r.m|, r.tail), free := r.free + r.m[r.tail] as int + 2, items := r.items - 1)
  }

  function PlainMakeRoom(r: Ring, need: nat): (r': Ring)
    requires Sane(r)
    ensures Sane(r') && |r'.m| == |r.m|
    decreases r.items
  {
    if r.free >= need || r.items == 0 then r else PlainMakeRoom(PlainDropFirstItem(r), need)
  }

  function PlainStep(r: Ring, op: Op): (Ring, Answer)
    requires Sane(r)
  {
    match op
    case Add(data, overwrite) =>
      var r' := if overwrite then PlainMakeRoom(r, |data| + 2) else r;
      PutIfRoom(r', data)
    case RemoveFirst =>
      if r.items == 0 then (r, Refused) else (PlainDropFirstItem(r), Removed(Fetch(r.m, r.head)))
    case RemoveLast =>
      if r.items == 0 then (r, Refused) else (PlainDropLastItem(r), Removed(Fetch(r.m, r.tail)))
  }

  ghost predicate AllShort(recs: seq<Record>) {
    forall i :: 0 <= i < |recs| ==> |recs[i]| <= 254
  }

  /** The operation does not take the last record there is. */
  ghost predicate Spares(recs: seq<Record>, size: nat, op: Op)
    requires Total(recs) <= size
  {
    match op
    case Add(data, overwrite) =>
      |data| <= 254 && (overwrite && recs != [] ==> Discards(recs, size - Total(recs), |data| + 2) < |recs|)
    case RemoveFirst => |recs| != 1
    case RemoveLast => |recs| != 1
  }

  lemma {:induction false} PlainMakesRoom(r: Ring, recs: seq<Record>, need: nat)
    requires Holds(r, recs) && (recs != [] ==> Discards(recs, r.free, need) < |recs|)
    ensures PlainMakeRoom(r, need) == MakeRoom(r, need)
    decreases r.items
  {
    if r.free < need && r.items > 0 {
      DropFirstHolds(r, recs);
      DropFirst(true, r.m, |r.m|, r.head, r.tail, recs);
      PlainMakesRoom(DropFirstItem(r), recs[1..], need);
    }
  }

  lemma PlainDropsLast(r: Ring, recs: seq<Record>)
    requires Holds(r, recs) && |recs| > 1 && |recs[|recs| - 2]| <= 254
    ensures PlainDropLastItem(r) == DropLastItem(r)
  {
    ChainInit(true, r.m, |r.m|, r.head, recs);
    SuffixBefore(r.m, r.head, Init(recs));
    PreviousIsBack(r.m, |r.m|, r.tail);
  }

  /** The cell before the end of a chain holds the length of its last record. */
  lemma SuffixBefore(m: seq<byte>, head: nat, recs: seq<Record>)
    requires head < |m| && Total(recs) <= |m| && recs != [] && Chain(true, m, |m|, head, recs)
    ensures m[At(|m|, At(|m|, head, Total(recs)), |m| - 1)] == |Last(recs)|
  {
    LastRecordAt(m, head, recs);
    SuffixOf(m, At(|m|, head, Total(Init(recs))), Last(recs), At(|m|, head, Total(recs)));
  }

  lemma SuffixOf(m: seq<byte>, off: nat, r: Record, next: nat)
    requires off < |m| && |r| + 2 <= |m| && RecordAt(true, m, |m|, off, r) && next == At(|m|, off, |r| + 2)
    ensures m[At(|m|, next, |m| - 1)] == |r|
  {
    assert At(|m|, next, |m| - 1) == At(|m|, off, |r| + 1);
  }

  /** For records of at most 254 bytes, and while no operation takes the last record, the other
      two repairs make no difference. */
  lemma PlainIsRepaired(r: Ring, recs: seq<Record>, op: Op)
    requires Holds(r, recs) && AllShort(recs) && Spares(recs, |r.m|, op)
    ensures PlainStep(r, op) == Step(r, op)
  {
    match op
    case Add(data, overwrite) =>
      if overwrite {
        PlainMakesRoom(r, recs, |data| + 2);
      }
    case RemoveFirst =>
    case RemoveLast =>
      if recs != [] {
        PlainDropsLast(r, recs);
      }
  }

  lemma StaysShort(recs: seq<Record>, size: nat, op: Op)
    requires Total(recs) <= size && AllShort(recs) && Spares(recs, size, op)
    ensures AllShort(DequeStep(recs, size, op).0)
  {
  }

  ghost predicate AllSpare(recs: seq<Record>, size: nat, ops: seq<Op>)
    requires Total(recs) <= size
    decreases |ops|
  {
    ops != [] ==>
      && Spares(recs, size, ops[0])
      && Total(DequeStep(recs, size, ops[0]).0) <= size
      && AllSpare(DequeStep(recs, size, ops[0]).0, size, ops[1..])
  }

  /** So with the suffix alone repaired such a run is that of a deque, too. */
  function PlainRun(r: Ring, ghost recs: seq<Record>, ops: seq<Op>): (res: (Ring, seq<Answer>))
    requires Holds(r, recs) && AllShort(recs) && AllSpare(recs, |r.m|, ops)
    ensures res.1 == DequeRun(recs, |r.m|, ops).1
    ensures Holds(res.0, DequeRun(recs, |r.m|, ops).0)
    ensures LastInHandedOut(ops, res.1)
    ensures Queueing(ops) ==>
              exists left :: Holds(res.0, left) && recs + Accepted(ops, res.1) == HandedOut(res.1) + left
    decreases |ops|
  {
    LastInFirstOut(recs, |r.m|, ops);
    QueueHolds(recs, |r.m|, ops);
    if ops == [] then (r, [])
    else
      var (r', answer) := PlainStep(r, ops[0]);
      PlainIsRepaired(r, recs, ops[0]);
      StaysShort(recs, |r.m|, ops[0]);
      StepHolds(r, recs, ops[0]);
      var (last, answers) := PlainRun(r', DequeStep(recs, |r.m|, ops[0]).0, ops[1..]);
      (last, [answer] + answers)
  }
}
