/** The polled scheduler of src/timer.c: which polls fire an event, over any run of polls. */
module TimerScheduler {
  import opened Text
  import opened Bitmask
  import opened TimerText

  const MAX_EVENT_COUNT := 20
  const DEBOUNCE := 60

  /** localtime_r in a zone `offset` minutes ahead of UTC; day 0 of the clock was a Thursday. */
  function LocalTime(t: int, offset: int): Tm {
    var local := t + 60 * offset;
    Tm((local / 60) % 60, (local / 3600) % 24, (local / 86400 + 4) % 7)
  }

  /** The decision of handle_timer_events for one slot of its table. */
  predicate Fires(e: TimerEvent, last: int, t: int, offset: int) {
    t >= last + DEBOUNCE && Matches(e, LocalTime(t, offset))
  }

  /** How many of the first n events fire. */
  function FiredCount(events: seq<TimerEvent>, last: seq<int>, t: int, offset: int, n: nat): nat
    requires n <= |events| <= |last|
  {
    if n == 0 then 0
    else FiredCount(events, last, t, offset, n - 1) + if Fires(events[n - 1], last[n - 1], t, offset) then 1 else 0
  }

  /** The power of output o after the first n events: what the last one that fires and has o
      in its mask says. */
  function PowerAfter(events: seq<TimerEvent>, last: seq<int>, t: int, offset: int, n: nat, o: nat, before: nat): nat
    requires n <= |events| <= |last| && o < 32
  {
    if n == 0 then before
    else if Fires(events[n - 1], last[n - 1], t, offset) && events[n - 1].mask[o] then
      PowerOf(events[n - 1].action)
    else PowerAfter(events, last, t, offset, n - 1, o, before)
  }

  /** The loop over the outputs for an event that fires. */
  method SetOutputs(e: TimerEvent, pwr: array<nat>)
    requires pwr.Length <= 32
    modifies pwr
    ensures forall o :: 0 <= o < pwr.Length ==> pwr[o] == if e.mask[o] then PowerOf(e.action) else old(pwr[o])
  {
    for o := 0 to pwr.Length
      invariant forall k :: 0 <= k < pwr.Length ==> pwr[k] == if k < o && e.mask[k] then PowerOf(e.action) else old(pwr[k])
    {
      if e.mask[o] {
        pwr[o] := if e.action == ActionOn then 1 else 0;
      }
    }
  }

  class Scheduler {
    const lastEvent: array<int>

    constructor ()
      ensures fresh(lastEvent) && lastEvent.Length == MAX_EVENT_COUNT
      ensures forall i :: 0 <= i < MAX_EVENT_COUNT ==> lastEvent[i] == 0
    {
      lastEvent := new int[MAX_EVENT_COUNT](_ => 0);
    }

    /** handle_timer_events; `now` is None while the clock is not running. */
    method Handle(events: seq<TimerEvent>, pwr: array<nat>, now: Option<int>, offset: int) returns (res: int)
      requires |events| <= MAX_EVENT_COUNT == lastEvent.Length && pwr.Length <= 32
      modifies lastEvent, pwr
      ensures now.None? ==> res == -1 && unchanged(lastEvent) && unchanged(pwr)
      ensures now.Some? ==>
                && res == FiredCount(events, old(lastEvent[..]), now.value, offset, |events|)
                && (forall i :: 0 <= i < MAX_EVENT_COUNT ==>
                      lastEvent[i] == if i < |events| && Fires(events[i], old(lastEvent[i]), now.value, offset) then now.value
                                      else old(lastEvent[i]))
                && (forall o :: 0 <= o < pwr.Length ==>
                      pwr[o] == PowerAfter(events, old(lastEvent[..]), now.value, offset, |events|, o, old(pwr[o])))
      // in other words: the result is how many events fire, and an output is left as the last of
      // them that names it says, 1 for ON and else 0, or as it was
      ensures now.Some? ==>
                res == |set k | 0 <= k < |events| && Fires(events[k], old(lastEvent[..])[k], now.value, offset)|
      ensures now.Some? ==>
                forall o, k | 0 <= o < pwr.Length && 0 <= k < |events| && events[k].mask[o] &&
                              Fires(events[k], old(lastEvent[..])[k], now.value, offset) &&
                              (forall k' :: k < k' < |events| && events[k'].mask[o] ==> !Fires(events[k'], old(lastEvent[..])[k'], now.value, offset)) ::
                  pwr[o] == if events[k].action == ActionOn then 1 else 0
      ensures now.Some? ==>
                forall o | 0 <= o < pwr.Length &&
                           (forall k :: 0 <= k < |events| && events[k].mask[o] ==> !Fires(events[k], old(lastEvent[..])[k], now.value, offset)) ::
                  pwr[o] == old(pwr[o])
    {
      if now.None? {
        return -1;
      }
      res := HandleAt(events, pwr, now.value, offset);
      ghost var last := old(lastEvent[..]);
      CountIsSize(events, last, now.value, offset);
      LastOneDecides(events, last, now.value, offset, old(pwr[..]), pwr[..]);
    }

    /** The loop of handle_timer_events, at time t. */
    method HandleAt(events: seq<TimerEvent>, pwr: array<nat>, t: int, offset: int) returns (res: int)
      requires |events| <= MAX_EVENT_COUNT == lastEvent.Length && pwr.Length <= 32
      modifies lastEvent, pwr
      ensures res == FiredCount(events, old(lastEvent[..]), t, offset, |events|)
      ensures forall i :: 0 <= i < MAX_EVENT_COUNT ==>
                lastEvent[i] == if i < |events| && Fires(events[i], old(lastEvent[i]), t, offset) then t else old(lastEvent[i])
      ensures forall o :: 0 <= o < pwr.Length ==>
                pwr[o] == PowerAfter(events, old(lastEvent[..]), t, offset, |events|, o, old(pwr[o]))
    {
      var tm := LocalTime(t, offset);
      res := 0;
      ghost var last := lastEvent[..];
      for i := 0 to |events|
        invariant res == FiredCount(events, last, t, offset, i)
        invariant forall k :: 0 <= k < MAX_EVENT_COUNT ==>
                    lastEvent[k] == if k < i && Fires(events[k], last[k], t, offset) then t else last[k]
        invariant forall o :: 0 <= o < pwr.Length ==>
                    pwr[o] == PowerAfter(events, last, t, offset, i, o, old(pwr[o]))
      {
        var e := events[i];
        if t < lastEvent[i] + DEBOUNCE {
          continue;
        }
        if !Matches(e, tm) {
          continue;
        }
        SetOutputs(e, pwr);
        lastEvent[i] := t;
        res := res + 1;
      }
    }
  }

  lemma CountIsSize(events: seq<TimerEvent>, last: seq<int>, t: int, offset: int)
    requires |events| <= |last|
    ensures FiredCount(events, last, t, offset, |events|) == |set k | 0 <= k < |events| && Fires(events[k], last[k], t, offset)|
  {
    var row := seq(|events|, k requires 0 <= k < |events| => Fires(events[k], last[k], t, offset));
    CountInRow(events, last, t, offset, row, |events|);
    assert (set k | 0 <= k < |events| && row[k]) == set k | 0 <= k < |events| && Fires(events[k], last[k], t, offset);
  }

  lemma {:induction false} CountInRow(events: seq<TimerEvent>, last: seq<int>, t: int, offset: int, row: seq<bool>, n: nat)
    requires n <= |events| == |row| <= |last|
    requires forall k :: 0 <= k < |events| ==> row[k] == Fires(events[k], last[k], t, offset)
    ensures FiredCount(events, last, t, offset, n) == |set k | 0 <= k < n && row[k]|
  {
    if n > 0 {
      CountInRow(events, last, t, offset, row, n - 1);
      OneMoreInRow(row, n - 1);
    }
  }

  lemma OneMoreInRow(row: seq<bool>, n: nat)
    requires n < |row|
    ensures |set k | 0 <= k < n + 1 && row[k]| == |set k | 0 <= k < n && row[k]| + if row[n] then 1 else 0
  {
    var fewer := set k | 0 <= k < n && row[k];
    if row[n] {
      assert (set k | 0 <= k < n + 1 && row[k]) == fewer + {n} && n !in fewer;
    } else {
      assert (set k | 0 <= k < n + 1 && row[k]) == fewer;
    }
  }

  /** Event k fires and names output o, and no later event of the table does. */
  ghost predicate LastToSet(events: seq<TimerEvent>, last: seq<int>, t: int, offset: int, n: nat, o: nat, k: nat)
    requires k < n <= |events| <= |last| && o < 32
  {
    && events[k].mask[o] && Fires(events[k], last[k], t, offset)
    && forall k' :: k < k' < n && events[k'].mask[o] ==> !Fires(events[k'], last[k'], t, offset)
  }

  lemma {:induction false} LastOneSets(events: seq<TimerEvent>, last: seq<int>, t: int, offset: int, n: nat, o: nat, before: nat, k: nat)
    requires k < n <= |events| <= |last| && o < 32 && LastToSet(events, last, t, offset, n, o, k)
    ensures PowerAfter(events, last, t, offset, n, o, before) == if events[k].action == ActionOn then 1 else 0
  {
    if k < n - 1 {
      LastOneSets(events, last, t, offset, n - 1, o, before, k);
    }
  }

  lemma {:induction false} NoneSets(events: seq<TimerEvent>, last: seq<int>, t: int, offset: int, n: nat, o: nat, before: nat)
    requires n <= |events| <= |last| && o < 32
    requires forall k :: 0 <= k < n && events[k].mask[o] ==> !Fires(events[k], last[k], t, offset)
    ensures PowerAfter(events, last, t, offset, n, o, before) == before
  {
    if n > 0 {
      NoneSets(events, last, t, offset, n - 1, o, before);
    }
  }

  lemma LastOneDecides(events: seq<TimerEvent>, last: seq<int>, t: int, offset: int, was: seq<nat>, pwr: seq<nat>)
    requires |events| <= |last| && |pwr| == |was| <= 32
    requires forall o :: 0 <= o < |pwr| ==> pwr[o] == PowerAfter(events, last, t, offset, |events|, o, was[o])
    ensures forall o, k | 0 <= o < |pwr| && 0 <= k < |events| && events[k].mask[o] && Fires(events[k], last[k], t, offset) &&
                          (forall k' :: k < k' < |events| && events[k'].mask[o] ==> !Fires(events[k'], last[k'], t, offset)) ::
              pwr[o] == if events[k].action == ActionOn then 1 else 0
    ensures forall o | 0 <= o < |pwr| &&
                       (forall k :: 0 <= k < |events| && events[k].mask[o] ==> !Fires(events[k], last[k], t, offset)) ::
              pwr[o] == was[o]
  {
    forall o, k | 0 <= o < |pwr| && 0 <= k < |events| && LastToSet(events, last, t, offset, |events|, o, k)
      ensures pwr[o] == if events[k].action == ActionOn then 1 else 0
    {
      LastOneSets(events, last, t, offset, |events|, o, was[o], k);
    }
    forall o | 0 <= o < |pwr| && (forall k :: 0 <= k < |events| && events[k].mask[o] ==> !Fires(events[k], last[k], t, offset))
      ensures pwr[o] == was[o]
    {
      NoneSets(events, last, t, offset, |events|, o, was[o]);
    }
  }

  // ---- runs of polls ----

  /** A slot's lastevent before poll i. */
  function LastBefore(e: TimerEvent, offset: int, ts: seq<int>, i: nat): int
    requires i <= |ts|
    decreases i, 0
  {
    if i == 0 then 0
    else if FiresAt(e, offset, ts, i - 1) then ts[i - 1] else LastBefore(e, offset, ts, i - 1)
  }

  predicate FiresAt(e: TimerEvent, offset: int, ts: seq<int>, i: nat)
    requires i < |ts|
    decreases i, 1
  {
    Fires(e, LastBefore(e, offset, ts, i), ts[i], offset)
  }

  /** Event k fires at poll i and names output o. */
  predicate Sets(events: seq<TimerEvent>, offset: int, ts: seq<int>, i: nat, k: nat, o: nat)
    requires i < |ts| && k < |events| && o < 32
  {
    FiresAt(events[k], offset, ts, i) && events[k].mask[o]
  }

  function PowerOf(a: Action): nat {
    if a == ActionOn then 1 else 0
  }

  /** The power of output o after the first n events of poll i. */
  function PowerAt(events: seq<TimerEvent>, offset: int, ts: seq<int>, i: nat, n: nat, o: nat, before: nat): nat
    requires i < |ts| && n <= |events| && o < 32
  {
    if n == 0 then before
    else if Sets(events, offset, ts, i, n - 1, o) then PowerOf(events[n - 1].action)
    else PowerAt(events, offset, ts, i, n - 1, o, before)
  }

  /** And after the first i polls. */
  function PowerBefore(events: seq<TimerEvent>, offset: int, ts: seq<int>, i: nat, o: nat, start: nat): nat
    requires i <= |ts| && o < 32
  {
    if i == 0 then start
    else PowerAt(events, offset, ts, i - 1, |events|, o, PowerBefore(events, offset, ts, i - 1, o, start))
  }

  ghost predicate Slots(last: seq<int>, events: seq<TimerEvent>, offset: int, ts: seq<int>, i: nat)
    requires i <= |ts|
  {
    |events| <= |last| && forall k :: 0 <= k < |events| ==> last[k] == LastBefore(events[k], offset, ts, i)
  }

  ghost predicate Powers(pwr: seq<nat>, start: seq<nat>, events: seq<TimerEvent>, offset: int, ts: seq<int>, i: nat)
    requires i <= |ts| && |pwr| == |start| <= 32
  {
    forall o :: 0 <= o < |pwr| ==> pwr[o] == PowerBefore(events, offset, ts, i, o, start[o])
  }

  ghost predicate Fired(row: seq<bool>, events: seq<TimerEvent>, offset: int, ts: seq<int>, i: nat)
    requires i < |ts|
  {
    |row| == |events| && forall k :: 0 <= k < |events| ==> (row[k] <==> FiresAt(events[k], offset, ts, i))
  }

  /** Poll i, and which slots it moved: those of the events that fired. */
  method PollOnce(s: Scheduler, events: seq<TimerEvent>, pwr: array<nat>, ghost start: seq<nat>, ts: seq<int>, i: nat, offset: int)
      returns (count: int, row: seq<bool>)
    requires |events| <= MAX_EVENT_COUNT == s.lastEvent.Length && pwr.Length == |start| <= 32 && i < |ts|
    requires Slots(s.lastEvent[..], events, offset, ts, i) && Powers(pwr[..], start, events, offset, ts, i)
    modifies s.lastEvent, pwr
    ensures Slots(s.lastEvent[..], events, offset, ts, i + 1) && Powers(pwr[..], start, events, offset, ts, i + 1)
    ensures count == FiredAtCount(events, offset, ts, i, |events|) && Fired(row, events, offset, ts, i)
  {
    var was, before := s.lastEvent[..], pwr[..];
    count := s.Handle(events, pwr, Some(ts[i]), offset);
    var now := s.lastEvent[..];
    row := seq(|events|, k requires 0 <= k < |events| => now[k] != was[k]);
    SameCount(events, was, offset, ts, i, |events|);
    forall o | 0 <= o < pwr.Length
      ensures pwr[o] == PowerBefore(events, offset, ts, i + 1, o, start[o])
    {
      SamePower(events, was, offset, ts, i, |events|, o, before[o]);
    }
  }

  /** Polling a fresh scheduler with a fixed table: which events fire at each poll, how many
      each poll counts, and the powers at the end. */
  method Poll(events: seq<TimerEvent>, pwr: array<nat>, ts: seq<int>, offset: int)
      returns (s: Scheduler, counts: seq<int>, fired: seq<seq<bool>>)
    requires |events| <= MAX_EVENT_COUNT && pwr.Length <= 32
    modifies pwr
    ensures |counts| == |fired| == |ts|
    ensures forall i :: 0 <= i < |ts| ==> Fired(fired[i], events, offset, ts, i)
    ensures forall i :: 0 <= i < |ts| ==> counts[i] == FiredAtCount(events, offset, ts, i, |events|)
    ensures Powers(pwr[..], old(pwr[..]), events, offset, ts, |ts|)
    ensures fresh(s.lastEvent) && Slots(s.lastEvent[..], events, offset, ts, |ts|)
    // in other words: the latest poll, and of that the last event, that fired and names an output decides
    ensures forall o, j, k | 0 <= o < pwr.Length && 0 <= j < |ts| && 0 <= k < |events| &&
                             Sets(events, offset, ts, j, k, o) && NothingAfter(events, offset, ts, |ts|, o, j, k + 1) ::
              pwr[o] == if events[k].action == ActionOn then 1 else 0
    ensures forall o :: 0 <= o < pwr.Length && NothingAfter(events, offset, ts, |ts|, o, 0, 0) ==> pwr[o] == old(pwr[o])
  {
    ghost var start := pwr[..];
    s, counts, fired := PollAll(events, pwr, ts, offset);
    LatestDecides(events, offset, ts, start, pwr[..]);
  }

  lemma LatestDecides(events: seq<TimerEvent>, offset: int, ts: seq<int>, start: seq<nat>, pwr: seq<nat>)
    requires |pwr| == |start| <= 32 && Powers(pwr, start, events, offset, ts, |ts|)
    ensures forall o, j, k | 0 <= o < |pwr| && 0 <= j < |ts| && 0 <= k < |events| &&
                             Sets(events, offset, ts, j, k, o) && NothingAfter(events, offset, ts, |ts|, o, j, k + 1) ::
              pwr[o] == if events[k].action == ActionOn then 1 else 0
    ensures forall o :: 0 <= o < |pwr| && NothingAfter(events, offset, ts, |ts|, o, 0, 0) ==> pwr[o] == start[o]
  {
    forall o, j, k | 0 <= o < |pwr| && 0 <= j < |ts| && 0 <= k < |events| &&
        Sets(events, offset, ts, j, k, o) && NothingAfter(events, offset, ts, |ts|, o, j, k + 1)
      ensures pwr[o] == if events[k].action == ActionOn then 1 else 0
    {
      PowerIsLatest(events, offset, ts, |ts|, o, start[o], j, k);
    }
    forall o | 0 <= o < |pwr| && NothingAfter(events, offset, ts, |ts|, o, 0, 0)
      ensures pwr[o] == start[o]
    {
      PowerUnset(events, offset, ts, |ts|, o, start[o]);
    }
  }

  /** The polls one by one. */
  method PollAll(events: seq<TimerEvent>, pwr: array<nat>, ts: seq<int>, offset: int)
      returns (s: Scheduler, counts: seq<int>, fired: seq<seq<bool>>)
    requires |events| <= MAX_EVENT_COUNT && pwr.Length <= 32
    modifies pwr
    ensures |counts| == |fired| == |ts|
    ensures forall i :: 0 <= i < |ts| ==> Fired(fired[i], events, offset, ts, i)
    ensures forall i :: 0 <= i < |ts| ==> counts[i] == FiredAtCount(events, offset, ts, i, |events|)
    ensures Powers(pwr[..], old(pwr[..]), events, offset, ts, |ts|)
    ensures fresh(s.lastEvent) && Slots(s.lastEvent[..], events, offset, ts, |ts|)
  {
    s := new Scheduler();
    counts, fired := [], [];
    ghost var start := pwr[..];
    for i := 0 to |ts|
      invariant fresh(s.lastEvent) && s.lastEvent.Length == MAX_EVENT_COUNT && |counts| == |fired| == i
      invariant Slots(s.lastEvent[..], events, offset, ts, i) && Powers(pwr[..], start, events, offset, ts, i)
      invariant forall j :: 0 <= j < i ==> Fired(fired[j], events, offset, ts, j)
      invariant forall j :: 0 <= j < i ==> counts[j] == FiredAtCount(events, offset, ts, j, |events|)
    {
      var count, row := PollOnce(s, events, pwr, start, ts, i, offset);
      counts, fired := counts + [count], fired + [row];
    }
  }

  lemma {:induction false} SamePower(events: seq<TimerEvent>, last: seq<int>, offset: int, ts: seq<int>, i: nat, n: nat, o: nat, before: nat)
    requires i < |ts| && n <= |events| && o < 32 && Slots(last, events, offset, ts, i)
    ensures PowerAfter(events, last, ts[i], offset, n, o, before) == PowerAt(events, offset, ts, i, n, o, before)
  {
    if n > 0 {
      SamePower(events, last, offset, ts, i, n - 1, o, before);
    }
  }

  /** Nothing sets output o from event k of poll j on, in the first i polls. */
  ghost predicate NothingAfter(events: seq<TimerEvent>, offset: int, ts: seq<int>, i: nat, o: nat, j: nat, k: nat)
    requires i <= |ts| && o < 32
  {
    forall j', k' :: j <= j' < i && 0 <= k' < |events| && (j' == j ==> k <= k') ==> !Sets(events, offset, ts, j', k', o)
  }

  /** An output's power is what the latest event that set it says, of one poll the last in the
      table. */
  lemma {:induction false} PowerIsLatest(events: seq<TimerEvent>, offset: int, ts: seq<int>, i: nat, o: nat, start: nat, j: nat, k: nat)
    requires j < i <= |ts| && k < |events| && o < 32
    requires Sets(events, offset, ts, j, k, o) && NothingAfter(events, offset, ts, i, o, j, k + 1)
    ensures PowerBefore(events, offset, ts, i, o, start) == if events[k].action == ActionOn then 1 else 0
    decreases i
  {
    var before := PowerBefore(events, offset, ts, i - 1, o, start);
    if j == i - 1 {
      PowerFrom(events, offset, ts, j, |events|, o, before, k);
    } else {
      PowerIsLatest(events, offset, ts, i - 1, o, start, j, k);
      NotSet(events, offset, ts, i - 1, |events|, o, before);
    }
  }

  lemma {:induction false} PowerFrom(events: seq<TimerEvent>, offset: int, ts: seq<int>, i: nat, n: nat, o: nat, before: nat, k: nat)
    requires i < |ts| && k < n <= |events| && o < 32 && Sets(events, offset, ts, i, k, o)
    requires forall k' :: k < k' < n ==> !Sets(events, offset, ts, i, k', o)
    ensures PowerAt(events, offset, ts, i, n, o, before) == PowerOf(events[k].action)
    decreases n
  {
    if k < n - 1 {
      PowerFrom(events, offset, ts, i, n - 1, o, before, k);
    }
  }

  lemma {:induction false} NotSet(events: seq<TimerEvent>, offset: int, ts: seq<int>, i: nat, n: nat, o: nat, before: nat)
    requires i < |ts| && n <= |events| && o < 32
    requires forall k :: 0 <= k < n ==> !Sets(events, offset, ts, i, k, o)
    ensures PowerAt(events, offset, ts, i, n, o, before) == before
    decreases n
  {
    if n > 0 {
      NotSet(events, offset, ts, i, n - 1, o, before);
    }
  }

  /** And what it was at the start if none ever did. */
  lemma {:induction false} PowerUnset(events: seq<TimerEvent>, offset: int, ts: seq<int>, i: nat, o: nat, start: nat)
    requires i <= |ts| && o < 32 && NothingAfter(events, offset, ts, i, o, 0, 0)
    ensures PowerBefore(events, offset, ts, i, o, start) == start
    decreases i
  {
    if i > 0 {
      PowerUnset(events, offset, ts, i - 1, o, start);
      NotSet(events, offset, ts, i - 1, |events|, o, start);
    }
  }

  function FiredAtCount(events: seq<TimerEvent>, offset: int, ts: seq<int>, i: nat, n: nat): nat
    requires i < |ts| && n <= |events|
  {
    if n == 0 then 0
    else FiredAtCount(events, offset, ts, i, n - 1) + if FiresAt(events[n - 1], offset, ts, i) then 1 else 0
  }

  lemma {:induction false} SameCount(events: seq<TimerEvent>, last: seq<int>, offset: int, ts: seq<int>, i: nat, n: nat)
    requires i < |ts| && n <= |events| && Slots(last, events, offset, ts, i)
    ensures FiredCount(events, last, ts[i], offset, n) == FiredAtCount(events, offset, ts, i, n)
  {
    if n > 0 {
      SameCount(events, last, offset, ts, i, n - 1);
    }
  }

  // ---- exactly once ----

  /** A clock that never goes back and starts at 60 s or later. */
  ghost predicate GoodClock(ts: seq<int>) {
    && (ts != [] ==> ts[0] >= DEBOUNCE)
    && (forall i, j :: 0 <= i <= j < |ts| ==> ts[i] <= ts[j])
  }

  function Minute(t: int): int {
    t / 60
  }

  predicate FirstInMinute(ts: seq<int>, i: nat)
    requires i < |ts|
  {
    i == 0 || Minute(ts[i - 1]) != Minute(ts[i])
  }

  /** The event fires on the first poll in each matching minute and on no other. */
  ghost predicate OncePerMinute(e: TimerEvent, offset: int, ts: seq<int>) {
    forall i :: 0 <= i < |ts| ==>
      (FiresAt(e, offset, ts, i) <==> Matches(e, LocalTime(ts[i], offset)) && FirstInMinute(ts, i))
  }

  /** Local time is told by the minute alone. */
  lemma LocalTimeOfMinute(t: int, offset: int)
    ensures var m := Minute(t) + offset;
            LocalTime(t, offset) == Tm(m % 60, (m / 60) % 24, (m / 1440 + 4) % 7)
  {
    var local := t + 60 * offset;
    assert local / 60 == t / 60 + offset;
    assert local / 3600 == (local / 60) / 60;
    assert local / 86400 == (local / 60) / 1440;
  }

  lemma SameMinuteOfHour(m: int, m': int)
    requires m % 60 == m' % 60 && m < m'
    ensures m' >= m + 60
  {
    assert m == 60 * (m / 60) + m % 60 && m' == 60 * (m' / 60) + m' % 60;
  }

  /** Minutes in which an event with a fixed minute matches are an hour or more apart. */
  lemma MatchingMinutesApart(e: TimerEvent, offset: int, t: int, t': int)
    requires e.minute >= 0 && Matches(e, LocalTime(t, offset)) && Matches(e, LocalTime(t', offset))
    ensures Minute(t) < Minute(t') ==> t' >= t + DEBOUNCE
    ensures Minute(t) == Minute(t') ==> t' < t + DEBOUNCE
  {
    LocalTimeOfMinute(t, offset);
    LocalTimeOfMinute(t', offset);
    if Minute(t) < Minute(t') {
      SameMinuteOfHour(Minute(t) + offset, Minute(t') + offset);
    }
  }

  /** What the slot remembers: nothing, or an earlier matching poll, and that one in the minute
      of the previous poll if that minute matches. */
  lemma {:induction false} LastIsRecent(e: TimerEvent, offset: int, ts: seq<int>, i: nat)
    requires i <= |ts| && e.minute >= 0 && GoodClock(ts)
    ensures var last := LastBefore(e, offset, ts, i);
            && (last == 0 || (Matches(e, LocalTime(last, offset)) && i > 0 && last <= ts[i - 1]))
            && (i > 0 && Matches(e, LocalTime(ts[i - 1], offset)) ==> last != 0 && Minute(last) == Minute(ts[i - 1]))
  {
    if i > 0 {
      LastIsRecent(e, offset, ts, i - 1);
      var last := LastBefore(e, offset, ts, i - 1);
      if last != 0 && Matches(e, LocalTime(ts[i - 1], offset)) {
        MatchingMinutesApart(e, offset, last, ts[i - 1]);
      }
    }
  }

  /** An event with a fixed minute fires once per matching minute, however often it is polled. */
  lemma FixedMinuteOncePerMinute(e: TimerEvent, offset: int, ts: seq<int>)
    requires e.minute >= 0 && GoodClock(ts)
    ensures OncePerMinute(e, offset, ts)
  {
    forall i | 0 <= i < |ts|
      ensures FiresAt(e, offset, ts, i) <==> Matches(e, LocalTime(ts[i], offset)) && FirstInMinute(ts, i)
    {
      LastIsRecent(e, offset, ts, i);
      var last := LastBefore(e, offset, ts, i);
      if Matches(e, LocalTime(ts[i], offset)) {
        if last != 0 {
          MatchingMinutesApart(e, offset, last, ts[i]);
        }
        if !FirstInMinute(ts, i) {
          LocalTimeOfMinute(ts[i], offset);
          LocalTimeOfMinute(ts[i - 1], offset);
        }
      }
    }
  }

  /** How often the event fires among the first n polls that fall in minute m. */
  function FiredIn(e: TimerEvent, offset: int, ts: seq<int>, n: nat, m: int): nat
    requires n <= |ts|
  {
    if n == 0 then 0
    else FiredIn(e, offset, ts, n - 1, m) + if Minute(ts[n - 1]) == m && FiresAt(e, offset, ts, n - 1) then 1 else 0
  }

  ghost predicate PolledIn(ts: seq<int>, n: nat, m: int)
    requires n <= |ts|
  {
    exists i :: 0 <= i < n && Minute(ts[i]) == m
  }

  /** Polls of one minute follow each other. */
  lemma PolledBefore(ts: seq<int>, n: nat, m: int)
    requires 0 < n <= |ts| && GoodClock(ts)
    ensures Minute(ts[n - 1]) == m ==> PolledIn(ts, n, m) && (PolledIn(ts, n - 1, m) <==> !FirstInMinute(ts, n - 1))
    ensures Minute(ts[n - 1]) != m ==> (PolledIn(ts, n, m) <==> PolledIn(ts, n - 1, m))
  {
    if Minute(ts[n - 1]) == m && PolledIn(ts, n - 1, m) {
      var i :| 0 <= i < n - 1 && Minute(ts[i]) == m;
      assert ts[i] <= ts[n - 2] <= ts[n - 1];
    }
  }

  /** Exactly once in each matching minute that is polled at all, and never in another. */
  lemma {:induction false} ExactlyOnce(e: TimerEvent, offset: int, ts: seq<int>, n: nat, m: int)
    requires n <= |ts| && e.minute >= 0 && GoodClock(ts)
    ensures FiredIn(e, offset, ts, n, m) ==
            if PolledIn(ts, n, m) && Matches(e, LocalTime(60 * m, offset)) then 1 else 0
  {
    if n > 0 {
      ExactlyOnce(e, offset, ts, n - 1, m);
      FixedMinuteOncePerMinute(e, offset, ts);
      PolledBefore(ts, n, m);
      LocalTimeOfMinute(ts[n - 1], offset);
      LocalTimeOfMinute(60 * m, offset);
    }
  }

  /** Local minute k of an hour of day number d. */
  lemma LocalTimeAt(t: int, offset: int, d: int, hour: nat, k: nat)
    requires hour < 24 && k < 60 && Minute(t) + offset == 1440 * d + 60 * hour + k
    ensures LocalTime(t, offset) == Tm(k, hour, (d + 4) % 7)
  {
    LocalTimeOfMinute(t, offset);
    MinuteOfDay(d, hour, k);
  }

  lemma MinuteOfDay(d: int, hour: nat, k: nat)
    requires hour < 24 && k < 60
    ensures var m := 1440 * d + 60 * hour + k;
            m % 60 == k && (m / 60) % 24 == hour && m / 1440 == d
  {
    assert (1440 * d + 60 * hour + k) / 60 == 24 * d + hour;
  }

  // ---- by the calendar ----

  /** In local minute k of hour h of day number d (day 0 a Thursday), what it takes to fire. */
  lemma FiresExactly(e: TimerEvent, last: int, t: int, offset: int, d: int, h: nat, k: nat)
    requires h < 24 && k < 60 && t / 60 + offset == 1440 * d + 60 * h + k
    ensures Fires(e, last, t, offset) <==>
            && t >= last + 60
            && (e.minute < 0 || e.minute == k)
            && (e.hour < 0 || e.hour == h)
            && ((forall j :: 0 <= j < 32 ==> !e.wday[j]) || e.wday[(d + 4) % 7])
  {
    LocalTimeAt(t, offset, d, h, k);
  }

  /** Of an event with a fixed minute, the polls that fire: the first ones in its own minutes. */
  lemma FiresAtExactly(e: TimerEvent, offset: int, ts: seq<int>, i: nat, d: int, h: nat, k: nat)
    requires i < |ts| && e.minute >= 0 && GoodClock(ts)
    requires h < 24 && k < 60 && ts[i] / 60 + offset == 1440 * d + 60 * h + k
    ensures FiresAt(e, offset, ts, i) <==>
            && (i == 0 || ts[i - 1] / 60 < ts[i] / 60)
            && e.minute == k
            && (e.hour < 0 || e.hour == h)
            && ((forall j :: 0 <= j < 32 ==> !e.wday[j]) || e.wday[(d + 4) % 7])
  {
    FixedMinuteOncePerMinute(e, offset, ts);
    LocalTimeAt(ts[i], offset, d, h, k);
    if i > 0 {
      assert ts[i - 1] <= ts[i];
    }
  }

  /** An event with a fixed minute fires once in a minute that is polled and is one of its own,
      and else not at all. */
  lemma OncePerMinuteOfItsOwn(e: TimerEvent, offset: int, ts: seq<int>, n: nat, d: int, h: nat, k: nat)
    requires n <= |ts| && e.minute >= 0 && GoodClock(ts) && h < 24 && k < 60
    ensures var own := && e.minute == k
                       && (e.hour < 0 || e.hour == h)
                       && ((forall j :: 0 <= j < 32 ==> !e.wday[j]) || e.wday[(d + 4) % 7]);
            var m := 1440 * d + 60 * h + k - offset;
            FiredIn(e, offset, ts, n, m) == if own && PolledIn(ts, n, m) then 1 else 0
  {
    var m := 1440 * d + 60 * h + k - offset;
    ExactlyOnce(e, offset, ts, n, m);
    LocalTimeAt(60 * m, offset, d, h, k);
  }

  /** How often the event fires among the first n polls that fall in the minutes from lo to hi. */
  function FiredDuring(e: TimerEvent, offset: int, ts: seq<int>, n: nat, lo: int, hi: int): nat
    requires n <= |ts|
  {
    if n == 0 then 0
    else FiredDuring(e, offset, ts, n - 1, lo, hi) + if lo <= ts[n - 1] / 60 < hi && FiresAt(e, offset, ts, n - 1) then 1 else 0
  }

  lemma {:induction false} DuringOneMore(e: TimerEvent, offset: int, ts: seq<int>, n: nat, lo: int, hi: int)
    requires n <= |ts| && lo <= hi
    ensures FiredDuring(e, offset, ts, n, lo, hi + 1) == FiredDuring(e, offset, ts, n, lo, hi) + FiredIn(e, offset, ts, n, hi)
    ensures FiredDuring(e, offset, ts, n, lo, lo) == 0
  {
    if n > 0 {
      DuringOneMore(e, offset, ts, n - 1, lo, hi);
    }
  }

  lemma {:induction false} DuringParts(e: TimerEvent, offset: int, ts: seq<int>, n: nat, lo: int, mid: int, hi: int)
    requires n <= |ts| && lo <= mid <= hi
    ensures FiredDuring(e, offset, ts, n, lo, hi) == FiredDuring(e, offset, ts, n, lo, mid) + FiredDuring(e, offset, ts, n, mid, hi)
  {
    if n > 0 {
      DuringParts(e, offset, ts, n - 1, lo, mid, hi);
    }
  }

  ghost predicate OwnDay(e: TimerEvent, d: int) {
    (forall j :: 0 <= j < 32 ==> !e.wday[j]) || e.wday[(d + 4) % 7]
  }

  ghost predicate AllPolled(ts: seq<int>, n: nat, lo: int, hi: int)
    requires n <= |ts|
  {
    forall m :: lo <= m < hi ==> PolledIn(ts, n, m)
  }

  /** The first c minutes of an hour, all polled. */
  lemma {:induction false} FiredInHour(e: TimerEvent, offset: int, ts: seq<int>, n: nat, d: int, h: nat, c: nat)
    requires n <= |ts| && 0 <= e.minute <= 59 && GoodClock(ts) && h < 24 && c <= 60
    requires AllPolled(ts, n, 1440 * d + 60 * h - offset, 1440 * d + 60 * h - offset + c)
    ensures FiredDuring(e, offset, ts, n, 1440 * d + 60 * h - offset, 1440 * d + 60 * h - offset + c) ==
            if OwnDay(e, d) && (e.hour < 0 || e.hour == h) && e.minute < c then 1 else 0
  {
    var lo := 1440 * d + 60 * h - offset;
    DuringOneMore(e, offset, ts, n, lo, if c > 0 then lo + c - 1 else lo);
    if c > 0 {
      FiredInHour(e, offset, ts, n, d, h, c - 1);
      OncePerMinuteOfItsOwn(e, offset, ts, n, d, h, c - 1);
      assert PolledIn(ts, n, lo + c - 1);
    }
  }

  /** The first hours of a day. */
  lemma {:induction false} FiredInHours(e: TimerEvent, offset: int, ts: seq<int>, n: nat, d: int, hours: nat)
    requires n <= |ts| && 0 <= e.minute <= 59 && GoodClock(ts) && hours <= 24
    requires AllPolled(ts, n, 1440 * d - offset, 1440 * d - offset + 60 * hours)
    ensures FiredDuring(e, offset, ts, n, 1440 * d - offset, 1440 * d - offset + 60 * hours) ==
            if !OwnDay(e, d) then 0 else if e.hour < 0 then hours else if e.hour < hours then 1 else 0
  {
    var lo := 1440 * d - offset;
    if hours == 0 {
      DuringOneMore(e, offset, ts, n, lo, lo);
    } else {
      var mid := lo + 60 * (hours - 1);
      FiredInHours(e, offset, ts, n, d, hours - 1);
      FiredInHour(e, offset, ts, n, d, hours - 1, 60);
      DuringParts(e, offset, ts, n, lo, mid, lo + 60 * hours);
    }
  }

  /** Over a local day of which every minute is polled, an event with a fixed minute fires once
      if its hour is fixed, 24 times if not, and not at all on a day that is not one of its own. */
  lemma FiredInDay(e: TimerEvent, offset: int, ts: seq<int>, n: nat, d: int)
    requires n <= |ts| && 0 <= e.minute <= 59 && e.hour <= 23 && GoodClock(ts)
    requires forall m :: 1440 * d - offset <= m < 1440 * d - offset + 1440 ==> PolledIn(ts, n, m)
    ensures var day := (forall j :: 0 <= j < 32 ==> !e.wday[j]) || e.wday[(d + 4) % 7];
            FiredDuring(e, offset, ts, n, 1440 * d - offset, 1440 * d - offset + 1440) ==
            if !day then 0 else if e.hour < 0 then 24 else 1
  {
    FiredInHours(e, offset, ts, n, d, 24);
  }

  /** An event that any minute matches does not have this: a poll late in one minute keeps it
      from firing early in the next. So a fixed minute is exactly what it takes. */
  lemma OncePerMinuteExactly(e: TimerEvent, offset: int)
    requires -1 <= e.minute <= 59 && e.hour <= 23 && Within(e.wday, 7)
    ensures (forall ts: seq<int> :: GoodClock(ts) ==> OncePerMinute(e, offset, ts)) <==> e.minute >= 0
  {
    if e.minute >= 0 {
      forall ts: seq<int> | GoodClock(ts)
        ensures OncePerMinute(e, offset, ts)
      {
        FixedMinuteOncePerMinute(e, offset, ts);
      }
    } else {
      var ts := LateThenEarly(e, offset);
      assert !OncePerMinute(e, offset, ts);
    }
  }

  /** Two polls a second apart, in minutes that both match. */
  lemma LateThenEarly(e: TimerEvent, offset: int) returns (ts: seq<int>)
    requires e.minute == -1 && e.hour <= 23 && Within(e.wday, 7)
    ensures GoodClock(ts) && !OncePerMinute(e, offset, ts)
  {
    var day: nat := 0;
    if !NoneSet(e.wday) {
      day :| 0 <= day < 32 && e.wday[day];
    }
    var hour: nat := if e.hour >= 0 then e.hour else 0;
    var weeks := if offset >= 0 then offset + 1 else 1;
    var d := 7 * weeks + day + 3;
    var m := 1440 * d + 60 * hour - offset;
    ts := [60 * m + 59, 60 * m + 60];
    assert (d + 4) % 7 == day;
    LocalTimeAt(ts[0], offset, d, hour, 0);
    LocalTimeAt(ts[1], offset, d, hour, 1);
    assert LastBefore(e, offset, ts, 0) == 0;
    assert FiresAt(e, offset, ts, 0);
    assert LastBefore(e, offset, ts, 1) == ts[0];
    assert !FiresAt(e, offset, ts, 1);
  }
}
