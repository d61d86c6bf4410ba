/** What a byte ring stands for: a deque of records in a buffer of `size` bytes. */
module Deque {
  import opened Bytes
  import opened RingLayout

  datatype Op = Add(data: Record, overwrite: bool) | RemoveFirst | RemoveLast

  datatype Answer = Refused | Added | Removed(data: seq<byte>)

  function AddIfRoom(recs: seq<Record>, size: nat, data: Record): (seq<Record>, Answer) {
    if Total(recs) + |data| + 2 <= size then (recs + [data], Added) else (recs, Refused)
  }

  /** What the operation does to the records of a buffer of `size` bytes. */
  function DequeStep(recs: seq<Record>, size: nat, op: Op): (seq<Record>, Answer)
    requires Total(recs) <= size
  {
    match op
    case Add(data, overwrite) =>
      var left := if overwrite then recs[Discards(recs, size - Total(recs), |data| + 2)..] else recs;
      AddIfRoom(left, size, data)
    case RemoveFirst => if recs == [] then (recs, Refused) else (recs[1..], Removed(recs[0]))
    case RemoveLast => if recs == [] then (recs, Refused) else (Init(recs), Removed(Last(recs)))
  }

  /** A run on a plain deque of `size` bytes: what is left, and the answers. */
  function DequeRun(recs: seq<Record>, size: nat, ops: seq<Op>): (res: (seq<Record>, seq<Answer>))
    requires Total(recs) <= size
    ensures |res.1| == |ops|
    decreases |ops|
  {
    if ops == [] then (recs, [])
    else
      var (recs', answer) := DequeStep(recs, size, ops[0]);
      DequeStepFits(recs, size, ops[0]);
      var (left, answers) := DequeRun(recs', size, ops[1..]);
      (left, [answer] + answers)
  }

  lemma DequeStepFits(recs: seq<Record>, size: nat, op: Op)
    requires Total(recs) <= size
    ensures Total(DequeStep(recs, size, op).0) <= size
  {
    match op
    case Add(data, overwrite) =>
      var d := if overwrite then Discards(recs, size - Total(recs), |data| + 2) else 0;
      TotalSplit(recs, d);
      TotalSnoc(recs[d..], data);
    case RemoveFirst =>
    case RemoveLast =>
      if recs != [] {
        TotalSplit(recs, |recs| - 1);
      }
  }

  /** `left` is `recs` without the fewest of the oldest records that make room for `need` bytes,
      all if they must go, and with `more` behind. */
  ghost predicate DropsFewest(recs: seq<Record>, size: nat, need: nat, more: seq<Record>, left: seq<Record>) {
    var d := |recs| + |more| - |left|;
    && 0 <= d <= |recs|
    && left == recs[d..] + more
    && (Total(recs[d..]) + need <= size || d == |recs|)
    && (d > 0 ==> Total(recs[d - 1..]) + need > size)
  }

  /** What an operation does, in other words. */
  lemma StepInWords(recs: seq<Record>, size: nat, op: Op) returns (left: seq<Record>)
    requires Total(recs) <= size
    ensures left == DequeStep(recs, size, op).0
    ensures var a := DequeStep(recs, size, op).1;
            && (!op.Add? && recs == [] ==> left == [] && a == Refused)
            && (op.RemoveFirst? && recs != [] ==> left == recs[1..] && a == Removed(recs[0]))
            && (op.RemoveLast? && recs != [] ==> left == recs[..|recs| - 1] && a == Removed(recs[|recs| - 1]))
            && (op.Add? && !op.overwrite ==>
                  if Total(recs) + |op.data| + 2 <= size then left == recs + [op.data] && a == Added
                  else left == recs && a == Refused)
            && (op.Add? && op.overwrite ==>
                  if |op.data| + 2 <= size then DropsFewest(recs, size, |op.data| + 2, [op.data], left) && a == Added
                  else DropsFewest(recs, size, |op.data| + 2, [], left) && a == Refused)
  {
    left := DequeStep(recs, size, op).0;
    if op.Add? && op.overwrite {
      AddInWords(recs, size, op.data);
    }
  }

  /** What an overwriting add does. */
  lemma AddInWords(recs: seq<Record>, size: nat, data: Record)
    requires Total(recs) <= size
    ensures DequeStep(recs, size, Add(data, true)).1 == if |data| + 2 <= size then Added else Refused
    ensures DropsFewest(recs, size, |data| + 2, if |data| + 2 <= size then [data] else [], DequeStep(recs, size, Add(data, true)).0)
  {
    var d := DroppedFirst(recs, size, data);
    AddAfter(recs, d, size, data);
  }

  lemma DroppedFirst(recs: seq<Record>, size: nat, data: Record) returns (d: nat)
    requires Total(recs) <= size
    ensures d <= |recs| && DequeStep(recs, size, Add(data, true)) == AddIfRoom(recs[d..], size, data)
    ensures Total(recs[d..]) + |data| + 2 <= size || d == |recs|
    ensures d > 0 ==> Total(recs[d - 1..]) + |data| + 2 > size
  {
    d := Discards(recs, size - Total(recs), |data| + 2);
    RoomIsMade(recs, size, |data| + 2);
  }

  lemma AddAfter(recs: seq<Record>, d: nat, size: nat, data: Record)
    requires d <= |recs|
    requires Total(recs[d..]) + |data| + 2 <= size || d == |recs|
    requires d > 0 ==> Total(recs[d - 1..]) + |data| + 2 > size
    ensures var (left, a) := AddIfRoom(recs[d..], size, data);
            && a == (if |data| + 2 <= size then Added else Refused)
            && DropsFewest(recs, size, |data| + 2, if |data| + 2 <= size then [data] else [], left)
  {
    assert recs[d..] + [] == recs[d..];
    if d == |recs| {
      assert recs[d..] == [];
    }
  }

  lemma RoomIsMade(recs: seq<Record>, size: nat, need: nat)
    requires Total(recs) <= size
    ensures var d := Discards(recs, size - Total(recs), need);
            && (Total(recs[d..]) + need <= size || d == |recs|)
            && (d > 0 ==> Total(recs[d - 1..]) + need > size)
  {
    var d := Discards(recs, size - Total(recs), need);
    DiscardsShortest(recs, size - Total(recs), need);
    TotalSplit(recs, d);
    if d > 0 {
      TotalSplit(recs, d - 1);
    }
  }

  // ---- laws of runs ----

  /** The records of the adds that were accepted, in order. */
  function Accepted(ops: seq<Op>, answers: seq<Answer>): seq<Record>
    requires |ops| == |answers|
  {
    if ops == [] then []
    else (if ops[0].Add? && answers[0] == Added then [ops[0].data] else []) + Accepted(ops[1..], answers[1..])
  }

  /** The records that were handed out, in order. */
  function HandedOut(answers: seq<Answer>): seq<seq<byte>> {
    if answers == [] then []
    else (if answers[0].Removed? then [answers[0].data] else []) + HandedOut(answers[1..])
  }

  /** Nothing but non-overwriting adds and removals of the first record. */
  ghost predicate Queueing(ops: seq<Op>) {
    forall i :: 0 <= i < |ops| ==> ops[i].RemoveFirst? || (ops[i].Add? && !ops[i].overwrite)
  }

  /** First in, first out: nothing is lost, made up or changed in order. */
  lemma {:induction false} FirstInFirstOut(recs: seq<Record>, size: nat, ops: seq<Op>)
    requires Total(recs) <= size && Queueing(ops)
    ensures var (left, answers) := DequeRun(recs, size, ops);
            recs + Accepted(ops, answers) == HandedOut(answers) + left
    decreases |ops|
  {
    if ops != [] {
      var (recs', a) := DequeStep(recs, size, ops[0]);
      DequeStepFits(recs, size, ops[0]);
      FirstInFirstOut(recs', size, ops[1..]);
      var (left, answers) := DequeRun(recs', size, ops[1..]);
      OneAnswerMore(ops, a, answers);
      if ops[0].RemoveFirst? && recs != [] {
        OneHandedOut(recs, Accepted(ops[1..], answers), HandedOut(answers), left);
      } else if a == Added {
        OneAccepted(recs, ops[0].data, Accepted(ops[1..], answers), HandedOut(answers), left);
      }
    }
  }

  lemma OneAnswerMore(ops: seq<Op>, a: Answer, answers: seq<Answer>)
    requires |ops| == |answers| + 1
    ensures Accepted(ops, [a] + answers) ==
            if ops[0].Add? && a == Added then [ops[0].data] + Accepted(ops[1..], answers) else Accepted(ops[1..], answers)
    ensures HandedOut([a] + answers) == if a.Removed? then [a.data] + HandedOut(answers) else HandedOut(answers)
  {
    assert ([a] + answers)[1..] == answers;
    assert [] + Accepted(ops[1..], answers) == Accepted(ops[1..], answers);
    assert [] + HandedOut(answers) == HandedOut(answers);
  }

  lemma OneHandedOut(recs: seq<Record>, later: seq<Record>, handed: seq<seq<byte>>, left: seq<Record>)
    requires recs != [] && recs[1..] + later == handed + left
    ensures recs + later == [recs[0]] + handed + left
  {
    assert recs + later == [recs[0]] + (recs[1..] + later);
    assert [recs[0]] + (handed + left) == [recs[0]] + handed + left;
  }

  lemma OneAccepted(recs: seq<Record>, data: Record, later: seq<Record>, handed: seq<seq<byte>>, left: seq<Record>)
    requires recs + [data] + later == handed + left
    ensures recs + ([data] + later) == handed + left
  {
    assert recs + ([data] + later) == recs + [data] + later;
  }

  /** A removal of the last record right after an accepted add hands that record out. */
  ghost predicate LastInHandedOut(ops: seq<Op>, answers: seq<Answer>) {
    |ops| == |answers| && forall i :: 0 <= i < |ops| - 1 && ops[i].Add? && answers[i] == Added && ops[i + 1].RemoveLast? ==>
      answers[i + 1] == Removed(ops[i].data)
  }

  lemma {:induction false} LastInFirstOut(recs: seq<Record>, size: nat, ops: seq<Op>)
    requires Total(recs) <= size
    ensures LastInHandedOut(ops, DequeRun(recs, size, ops).1)
    decreases |ops|
  {
    if ops != [] {
      var (recs', a) := DequeStep(recs, size, ops[0]);
      DequeStepFits(recs, size, ops[0]);
      LastInFirstOut(recs', size, ops[1..]);
    }
  }

  /** And the two together change nothing, unless the add overwrote. */
  lemma AddUndone(recs: seq<Record>, size: nat, data: Record, ops: seq<Op>)
    requires Total(recs) <= size
    ensures var (left, answers) := DequeRun(recs, size, [Add(data, false), RemoveLast] + ops);
            Total(recs) + |data| + 2 <= size ==>
            && left == DequeRun(recs, size, ops).0
            && answers == [Added, Removed(data)] + DequeRun(recs, size, ops).1
  {
    if Total(recs) + |data| + 2 <= size {
      assert [Add(data, false), RemoveLast] + ops == [Add(data, false)] + ([RemoveLast] + ops);
      assert Init(recs + [data]) == recs && Last(recs + [data]) == data;
      DequeStepFits(recs, size, Add(data, false));
      OneThenRest(recs, size, Add(data, false), recs + [data], Added, [RemoveLast] + ops);
      OneThenRest(recs + [data], size, RemoveLast, recs, Removed(data), ops);
      TwoAnswers(Added, Removed(data), DequeRun(recs, size, ops).1);
    }
  }

  lemma OneThenRest(recs: seq<Record>, size: nat, op: Op, recs': seq<Record>, a: Answer, rest: seq<Op>)
    requires Total(recs) <= size && Total(recs') <= size && DequeStep(recs, size, op) == (recs', a)
    ensures DequeRun(recs, size, [op] + rest) == (DequeRun(recs', size, rest).0, [a] + DequeRun(recs', size, rest).1)
  {
    assert ([op] + rest)[1..] == rest;
  }

  lemma TwoAnswers(a: Answer, b: Answer, rest: seq<Answer>)
    ensures [a] + ([b] + rest) == [a, b] + rest
  {
  }
}
