/** How core 0 hands its state to core 1 in src/brickpico.c: through transfer_state, under
    state_mutex, by copies that move one cell at a time while the other core runs.

    Core 0's main loop is the only writer of system_state. Every interleaving of the cores'
    steps is a run. */
module Handover {

  type Cells = seq<int>

  datatype Owner = Nobody | Core0 | Core1

  /** Where core 0 is: in its main loop, or in update_core1_state with so many cells copied. */
  datatype Phase0 = Main | Publishing(copied: nat)

  /** Where core 1 is: in its loop, or refreshing: saving its state, then taking the new one. */
  datatype Phase1 = Loop | Saving(copied: nat) | Taking(copied: nat)

  /** `published` and `seen` are history: every whole state core 0 has published, and which
      of them core 1 took last. */
  datatype State = State(
    system: Cells, transfer: Cells, state: Cells, prev: Cells,
    owner: Owner, core0: Phase0, core1: Phase1,
    published: seq<Cells>, seen: nat)

  ghost predicate Init(s: State) {
    && |s.state| == |s.transfer| == |s.prev| == |s.system|
    && s.state == s.transfer == s.system
    && s.owner == Nobody && s.core0 == Main && s.core1 == Loop
    && s.published == [s.system] && s.seen == 0
  }

  // ---- the steps ----

  /** The main loop changes system_state as it likes. */
  ghost predicate Write(s: State, s': State) {
    s.core0 == Main && |s'.system| == |s.system| && s' == s.(system := s'.system)
  }

  ghost predicate StartPublishing(s: State, s': State) {
    s.core0 == Main && s.owner == Nobody && s' == s.(owner := Core0, core0 := Publishing(0))
  }

  ghost predicate PublishCell(s: State, s': State) {
    s.core0.Publishing? && s.core0.copied < |s.system| == |s.transfer| &&
    var i := s.core0.copied;
    s' == s.(transfer := s.transfer[i := s.system[i]], core0 := Publishing(i + 1))
  }

  ghost predicate EndPublishing(s: State, s': State) {
    s.core0 == Publishing(|s.system|) &&
    s' == s.(owner := Nobody, core0 := Main, published := s.published + [s.system])
  }

  /** mutex_enter_timeout_us succeeds; when it times out nothing happens. */
  ghost predicate StartRefresh(s: State, s': State) {
    s.core1 == Loop && s.owner == Nobody && s' == s.(owner := Core1, core1 := Saving(0))
  }

  ghost predicate SaveCell(s: State, s': State) {
    s.core1.Saving? && s.core1.copied < |s.state| == |s.prev| &&
    var i := s.core1.copied;
    s' == s.(prev := s.prev[i := s.state[i]], core1 := Saving(i + 1))
  }

  ghost predicate StartTaking(s: State, s': State) {
    s.core1 == Saving(|s.state|) && s' == s.(core1 := Taking(0))
  }

  ghost predicate TakeCell(s: State, s': State) {
    s.core1.Taking? && s.core1.copied < |s.state| == |s.transfer| &&
    var i := s.core1.copied;
    s' == s.(state := s.state[i := s.transfer[i]], core1 := Taking(i + 1))
  }

  ghost predicate EndRefresh(s: State, s': State) {
    s.core1 == Taking(|s.state|) && |s.published| > 0 &&
    s' == s.(owner := Nobody, core1 := Loop, seen := |s.published| - 1)
  }

  ghost predicate Next(s: State, s': State) {
    || s' == s
    || Write(s, s')
    || StartPublishing(s, s') || PublishCell(s, s') || EndPublishing(s, s')
    || StartRefresh(s, s') || SaveCell(s, s') || StartTaking(s, s') || TakeCell(s, s') || EndRefresh(s, s')
  }

  // ---- what every step keeps ----

  ghost predicate Inv(s: State) {
    && |s.state| == |s.transfer| == |s.prev| == |s.system|
    && s.seen < |s.published|
    && (s.core0.Publishing? <==> s.owner == Core0)
    && (!s.core1.Loop? <==> s.owner == Core1)
    // transfer_state is the newest publication, unless one is being made
    && (match s.core0
        case Main => s.transfer == s.published[|s.published| - 1]
        case Publishing(i) => i <= |s.system| && forall k :: 0 <= k < i ==> s.transfer[k] == s.system[k])
    // core 1's state is the publication it took last, unless it is taking one
    && (match s.core1
        case Loop => s.state == s.published[s.seen]
        case Saving(i) => i <= |s.state| && s.state == s.published[s.seen] && forall k :: 0 <= k < i ==> s.prev[k] == s.state[k]
        case Taking(i) => i <= |s.state| && s.prev == s.published[s.seen] && forall k :: 0 <= k < i ==> s.state[k] == s.transfer[k])
  }

  lemma InitKeeps(s: State)
    requires Init(s)
    ensures Inv(s)
  {
  }

  ghost predicate Extends(a: seq<Cells>, b: seq<Cells>) {
    |a| <= |b| && forall k :: 0 <= k < |a| ==> b[k] == a[k]
  }

  lemma NextKeeps(s: State, s': State)
    requires Inv(s) && Next(s, s')
    ensures Inv(s')
    ensures Extends(s.published, s'.published) && s.seen <= s'.seen
  {
  }

  // ---- runs ----

  ghost predicate Behavior(run: seq<State>) {
    && run != []
    && Init(run[0])
    && forall i :: 0 <= i < |run| - 1 ==> StepAt(run, i)
  }

  ghost predicate StepAt(run: seq<State>, i: nat)
    requires i + 1 < |run|
  {
    Next(run[i], run[i + 1])
  }

  lemma {:induction false} InvAlways(run: seq<State>, i: nat)
    requires Behavior(run) && i < |run|
    ensures Inv(run[i])
  {
    if i == 0 {
      InitKeeps(run[0]);
    } else {
      InvAlways(run, i - 1);
      assert StepAt(run, i - 1);
      NextKeeps(run[i - 1], run[i]);
    }
  }

  lemma {:induction false} HistoryGrows(run: seq<State>, i: nat, j: nat)
    requires Behavior(run) && i <= j < |run|
    ensures Extends(run[i].published, run[j].published) && run[i].seen <= run[j].seen
    decreases j - i
  {
    if i < j {
      HistoryGrows(run, i, j - 1);
      InvAlways(run, j - 1);
      assert StepAt(run, j - 1);
      NextKeeps(run[j - 1], run[j]);
    }
  }

  /** In every run: whenever core 1 is in its loop, its state is one whole state that core 0
      published, and of two such moments the later never has the older publication. */
  lemma NeverTornNeverBack(run: seq<State>, i: nat, j: nat)
    requires Behavior(run) && i <= j < |run|
    requires run[i].core1 == Loop && run[j].core1 == Loop
    ensures run[i].seen <= run[j].seen < |run[j].published|
    ensures run[i].state == run[j].published[run[i].seen] && run[j].state == run[j].published[run[j].seen]
  {
    InvAlways(run, i);
    InvAlways(run, j);
    HistoryGrows(run, i, j);
  }

  /** A refresh ends with the newest publication, and leaves the one before it in prev_state. */
  lemma RefreshTakesNewest(run: seq<State>, i: nat)
    requires Behavior(run) && i + 1 < |run|
    requires run[i].core1.Taking? && run[i + 1].core1 == Loop
    ensures var s := run[i + 1];
            && run[i].seen < |s.published|
            && s.state == s.published[|s.published| - 1] == s.transfer && s.prev == s.published[run[i].seen]
  {
    InvAlways(run, i);
    InvAlways(run, i + 1);
    assert StepAt(run, i);
    NextKeeps(run[i], run[i + 1]);
  }

  // ---- progress ----

  /** Steps one after the other, from s to e. */
  ghost predicate Path(run: seq<State>, s: State, e: State) {
    && run != [] && run[0] == s && run[|run| - 1] == e
    && forall i :: 0 <= i < |run| - 1 ==> StepAt(run, i)
  }

  lemma OneStep(s: State, e: State) returns (run: seq<State>)
    requires Next(s, e)
    ensures Path(run, s, e)
  {
    run := [s, e];
  }

  lemma OnAgain(a: seq<State>, b: seq<State>, s: State, m: State, e: State) returns (run: seq<State>)
    requires Path(a, s, m) && Path(b, m, e)
    ensures Path(run, s, e) && run == a + b[1..]
  {
    run := a + b[1..];
    forall i | 0 <= i < |run| - 1
      ensures StepAt(run, i)
    {
      if i < |a| - 1 {
        assert StepAt(a, i);
      } else {
        assert StepAt(b, i - (|a| - 1));
        assert run[i] == b[i - (|a| - 1)] && run[i + 1] == b[i + 1 - (|a| - 1)];
      }
    }
  }

  /** The copy into transfer_state can be finished. */
  lemma {:induction false} FinishPublishing(s: State) returns (run: seq<State>)
    requires Inv(s) && s.core0.Publishing?
    ensures Path(run, s, s.(owner := Nobody, core0 := Main, transfer := s.system, published := s.published + [s.system]))
    decreases |s.system| - s.core0.copied
  {
    var i := s.core0.copied;
    if i == |s.system| {
      assert s.transfer == s.system;
      var e := s.(owner := Nobody, core0 := Main, published := s.published + [s.system]);
      assert EndPublishing(s, e);
      run := OneStep(s, e);
    } else {
      var n := s.(transfer := s.transfer[i := s.system[i]], core0 := Publishing(i + 1));
      assert PublishCell(s, n);
      var first := OneStep(s, n);
      var rest := FinishPublishing(n);
      run := OnAgain(first, rest, s, n, s.(owner := Nobody, core0 := Main, transfer := s.system, published := s.published + [s.system]));
    }
  }

  /** The copy into prev_state can be finished. */
  lemma {:induction false} FinishSaving(s: State) returns (run: seq<State>)
    requires Inv(s) && s.core1.Saving?
    ensures Path(run, s, s.(core1 := Taking(0), prev := s.state))
    decreases |s.state| - s.core1.copied
  {
    var i := s.core1.copied;
    if i == |s.state| {
      assert s.prev == s.state;
      var e := s.(core1 := Taking(0));
      assert StartTaking(s, e);
      run := OneStep(s, e);
    } else {
      var n := s.(prev := s.prev[i := s.state[i]], core1 := Saving(i + 1));
      assert SaveCell(s, n);
      var first := OneStep(s, n);
      var rest := FinishSaving(n);
      run := OnAgain(first, rest, s, n, s.(core1 := Taking(0), prev := s.state));
    }
  }

  /** And the copy out of transfer_state. */
  lemma {:induction false} FinishTaking(s: State) returns (run: seq<State>)
    requires Inv(s) && s.core1.Taking?
    ensures Path(run, s, s.(owner := Nobody, core1 := Loop, state := s.transfer, seen := |s.published| - 1))
    decreases |s.state| - s.core1.copied
  {
    var i := s.core1.copied;
    if i == |s.state| {
      assert s.state == s.transfer;
      var e := s.(owner := Nobody, core1 := Loop, seen := |s.published| - 1);
      assert EndRefresh(s, e);
      run := OneStep(s, e);
    } else {
      var n := s.(state := s.state[i := s.transfer[i]], core1 := Taking(i + 1));
      assert TakeCell(s, n);
      var first := OneStep(s, n);
      var rest := FinishTaking(n);
      run := OnAgain(first, rest, s, n, s.(owner := Nobody, core1 := Loop, state := s.transfer, seen := |s.published| - 1));
    }
  }

  /** From wherever the mutex is free, core 1 can refresh: nothing is published meanwhile, and
      it ends with the newest publication, the mutex given back. */
  lemma CanRefresh(s: State) returns (run: seq<State>, e: State)
    requires Inv(s) && s.core1 == Loop && s.owner == Nobody
    ensures Path(run, s, e) && Inv(e)
    ensures e.core1 == Loop && e.owner == Nobody && e.core0 == Main && e.system == s.system && e.published == s.published
    ensures e.state == e.transfer == s.published[|s.published| - 1] && e.prev == s.state
  {
    var a := s.(owner := Core1, core1 := Saving(0));
    assert StartRefresh(s, a);
    var first := OneStep(s, a);
    NextKeeps(s, a);
    var saving := FinishSaving(a);
    var b := a.(core1 := Taking(0), prev := a.state);
    var saved := OnAgain(first, saving, s, a, b);
    var taking := FinishTaking(b);
    e := b.(owner := Nobody, core1 := Loop, state := b.transfer, seen := |b.published| - 1);
    run := OnAgain(saved, taking, s, b, e);
  }

  /** And core 0 can publish whatever its state is. */
  lemma CanPublish(s: State) returns (run: seq<State>, e: State)
    requires Inv(s) && s.core0 == Main && s.owner == Nobody
    ensures Path(run, s, e) && Inv(e)
    ensures e.core0 == Main && e.owner == Nobody && e.core1 == Loop && e.system == s.system
    ensures e.published == s.published + [s.system] && e.transfer == s.system && e.state == s.state && e.prev == s.prev
  {
    var a := s.(owner := Core0, core0 := Publishing(0));
    assert StartPublishing(s, a);
    var first := OneStep(s, a);
    NextKeeps(s, a);
    var rest := FinishPublishing(a);
    e := a.(owner := Nobody, core0 := Main, transfer := a.system, published := a.published + [a.system]);
    run := OnAgain(first, rest, s, a, e);
  }

  /** Wherever the cores are, the one that holds the mutex can give it back by its own steps. */
  lemma CanGiveBack(s: State) returns (run: seq<State>, e: State)
    requires Inv(s)
    ensures Path(run, s, e) && Inv(e) && e.owner == Nobody && e.core0 == Main && e.core1 == Loop
    ensures e.system == s.system
    ensures e.published == if s.owner == Core0 then s.published + [s.system] else s.published
    ensures s.owner == Core1 ==> e.state == e.transfer == s.transfer
    ensures s.owner != Core1 ==> e.state == s.state
  {
    if s.owner == Nobody {
      run, e := [s], s;
    } else if s.owner == Core0 {
      run := FinishPublishing(s);
      e := s.(owner := Nobody, core0 := Main, transfer := s.system, published := s.published + [s.system]);
    } else {
      var b, saved := s, [s];
      if s.core1.Saving? {
        saved := FinishSaving(s);
        b := s.(core1 := Taking(0), prev := s.state);
      }
      var taking := FinishTaking(b);
      e := b.(owner := Nobody, core1 := Loop, state := b.transfer, seen := |b.published| - 1);
      run := OnAgain(saved, taking, s, b, e);
    }
  }

  /** Every run can be carried on so that core 1 comes to have any state core 0 may write: the
      mutex is given back, core 0 writes and publishes, core 1 refreshes. */
  lemma AnyStateGetsAcross(run: seq<State>, v: Cells) returns (on: seq<State>)
    requires Behavior(run) && |v| == |run[0].system|
    ensures Behavior(on) && |run| <= |on| && run == on[..|run|]
    ensures var e := on[|on| - 1];
            && e.owner == Nobody && e.core0 == Main && e.core1 == Loop
            && |e.published| > 0 && e.state == e.transfer == e.system == v == e.published[|e.published| - 1]
  {
    var s := run[|run| - 1];
    InvAlways(run, |run| - 1);
    SizeStays(run, |run| - 1);
    var r0, a := CanGiveBack(s);
    var b := a.(system := v);
    assert Write(a, b);
    NextKeeps(a, b);
    var r1 := OneStep(a, b);
    var r2, c := CanPublish(b);
    var r3, e := CanRefresh(c);
    var p := OnAgain(r0, r1, s, a, b);
    p := OnAgain(p, r2, s, b, c);
    p := OnAgain(p, r3, s, c, e);
    on := OnAgain(run, p, run[0], s, e);
    assert on[..|run|] == run;
  }

  lemma {:induction false} SizeStays(run: seq<State>, i: nat)
    requires Behavior(run) && i < |run|
    ensures |run[i].system| == |run[0].system|
  {
    if i > 0 {
      SizeStays(run, i - 1);
      InvAlways(run, i - 1);
      assert StepAt(run, i - 1);
      SizeKept(run[i - 1], run[i]);
    }
  }

  lemma SizeKept(s: State, s': State)
    requires Inv(s) && Next(s, s')
    ensures |s'.system| == |s.system|
  {
  }
}
