/** The round-robin I2C sensor reader of src/i2c.c: one call starts every conversion, the calls
    after it read one sensor each, and the call that runs off the end closes the cycle. */
module I2cTemps {

  const VSENSOR_COUNT := 8

  /** What the calls do on the bus. */
  datatype Event = Start(sensor: nat) | Read(sensor: nat)

  /** The two static counters of i2c_read_temps. */
  datatype State = State(step: nat, sensor: nat)

  /** A stored measurement: temperature, pressure, humidity and the time of the reading. */
  datatype Reading = Reading(temp: real, pressure: real, humidity: real, updated: nat)

  /** What i2c_read_measurement returns and fills in. */
  datatype Result = Result(code: int, temp: real, pressure: real, humidity: real)

  // active[i] says that slot i is configured for I2C with a type and an initialised context.
  // The specification is for any number of slots; the firmware has eight.

  function StoredAt(r: Result, now: nat): Reading {
    Reading(r.temp, r.pressure, r.humidity, now)
  }

  /** The first active slot from a given one on; the end, or the given one if that is past it. */
  function FirstActive(active: seq<bool>, from: nat): (i: nat)
    ensures i <= |active| || i == from
    ensures i < |active| ==> from <= i && active[i]
    ensures forall k :: from <= k < i && k < |active| ==> !active[k]
    decreases |active| - from
  {
    if from >= |active| || active[from] then from else FirstActive(active, from + 1)
  }

  /** The counters after a call. */
  function Next(active: seq<bool>, s: State): State {
    if s.step != 1 then State(1, 0)
    else
      var i := FirstActive(active, s.sensor);
      State(if i + 1 >= |active| then 2 else 1, i + 1)
  }

  /** What a call does on the bus. */
  function Acts(active: seq<bool>, s: State): seq<Event> {
    if s.step != 1 then StartsFrom(active, 0)
    else
      var i := FirstActive(active, s.sensor);
      if i < |active| then [Read(i)] else []
  }

  function StartsFrom(active: seq<bool>, i: nat): seq<Event>
    decreases |active| - i
  {
    if i >= |active| then []
    else (if active[i] then [Start(i)] else []) + StartsFrom(active, i + 1)
  }

  lemma StartsNext(active: seq<bool>, i: nat, bus: seq<Event>)
    requires i < |active| && active[i]
    ensures bus + StartsFrom(active, i) == (bus + [Start(i)]) + StartsFrom(active, i + 1)
  {
  }

  function ReadsFrom(active: seq<bool>, i: nat): seq<Event>
    decreases |active| - i
  {
    if i >= |active| then []
    else (if active[i] then [Read(i)] else []) + ReadsFrom(active, i + 1)
  }

  /** The delay covers every conversion that was started. */
  ghost predicate Longest(delay: int, active: seq<bool>, starts: seq<int>)
    requires |starts| == |active|
  {
    && (forall k :: 0 <= k < |active| && active[k] ==> starts[k] <= delay)
    && ((exists k :: 0 <= k < |active| && active[k] && starts[k] == delay)
        || (delay == 15000 && forall k :: 0 <= k < |active| && active[k] ==> starts[k] <= 0))
  }

  class Reader {
    const busActive: bool
    const sensors: int                 // i2c_temp_sensors
    const active: seq<bool>
    const readings: array<Reading>     // vtemp, vpressure, vhumidity and vtemp_updated
    var step: nat
    var sensor: nat
    ghost var bus: seq<Event>          // everything done on the bus so far

    ghost predicate Valid() {
      readings.Length == |active| == VSENSOR_COUNT
    }

    function Counters(): State
      reads this
    {
      State(step, sensor)
    }

    constructor (busActive: bool, sensors: int, active: seq<bool>, readings: array<Reading>)
      requires readings.Length == |active| == VSENSOR_COUNT
      ensures Valid() && Counters() == State(0, 0) && bus == []
      ensures this.busActive == busActive && this.sensors == sensors
      ensures this.active == active && this.readings == readings
    {
      this.busActive, this.sensors, this.active, this.readings := busActive, sensors, active, readings;
      step, sensor, bus := 0, 0, [];
    }

    /** The loop that starts every conversion; the longest one is returned, or 0. */
    method StartAll(starts: seq<int>) returns (waitTime: int)
      requires Valid() && |starts| == VSENSOR_COUNT
      modifies this`bus
      ensures bus == old(bus) + StartsFrom(active, 0)
      ensures waitTime >= 0 && forall k :: 0 <= k < VSENSOR_COUNT && active[k] ==> starts[k] <= waitTime
      ensures waitTime > 0 ==> exists k :: 0 <= k < VSENSOR_COUNT && active[k] && starts[k] == waitTime
    {
      waitTime := 0;
      ghost var slowest := 0;
      for i := 0 to VSENSOR_COUNT
        invariant bus + StartsFrom(active, i) == old(bus) + StartsFrom(active, 0)
        invariant waitTime >= 0 && 0 <= slowest < VSENSOR_COUNT
        invariant forall k :: 0 <= k < i && active[k] ==> starts[k] <= waitTime
        invariant waitTime > 0 ==> active[slowest] && starts[slowest] == waitTime
      {
        if !active[i] {
          continue;
        }
        StartsNext(active, i, bus);
        bus := bus + [Start(i)];
        if starts[i] >= 0 && starts[i] > waitTime {
          waitTime := starts[i];
          slowest := i;
        }
      }
    }

    /** The loop that reads the next active sensor; it returns the slot it stopped at. */
    method ReadOne(results: seq<Result>, now: nat) returns (i: nat)
      requires Valid() && |results| == VSENSOR_COUNT
      modifies this`bus, readings
      ensures i == FirstActive(active, sensor)
      ensures bus == old(bus) + if i < VSENSOR_COUNT then [Read(i)] else []
      ensures forall k :: 0 <= k < VSENSOR_COUNT ==>
                readings[k] == if k == i && results[k].code == 0 then StoredAt(results[k], now) else old(readings[k])
    {
      i := sensor;
      while i < VSENSOR_COUNT
        invariant sensor <= i && FirstActive(active, i) == FirstActive(active, sensor)
        invariant bus == old(bus) && readings[..] == old(readings[..])
      {
        if !active[i] {
          i := i + 1;
          continue;
        }
        bus := bus + [Read(i)];
        if results[i].code == 0 {
          readings[i] := Reading(results[i].temp, results[i].pressure, results[i].humidity, now);
        }
        break;
      }
    }

    /** i2c_read_temps. The results of starting and of reading each sensor are arbitrary. */
    method ReadTemps(starts: seq<int>, results: seq<Result>, now: nat) returns (waitTime: int)
      requires Valid() && |starts| == VSENSOR_COUNT && |results| == VSENSOR_COUNT
      modifies this, readings
      // polling goes on exactly while there is something to poll
      ensures waitTime > 0 <==> busActive && sensors >= 1
      ensures waitTime <= 0 ==> waitTime == -1 && Counters() == old(Counters()) && bus == old(bus)
      ensures waitTime > 0 ==> Counters() == Next(active, old(Counters())) && bus == old(bus) + Acts(active, old(Counters()))
      // the delay after the starts is the longest conversion, or 15 s if none says how long
      ensures waitTime > 0 && old(step) != 1 ==> Longest(waitTime, active, starts)
      ensures waitTime > 0 && old(step) == 1 ==> waitTime == if step == 2 then 10000 else 50
      // a reading is stored for the sensor just read, if it succeeded, and nowhere else
      ensures forall k :: 0 <= k < VSENSOR_COUNT ==>
                readings[k] == if waitTime > 0 && old(step) == 1 && k == FirstActive(active, old(sensor))
                                  && results[k].code == 0
                               then StoredAt(results[k], now)
                               else old(readings[k])
      // with all its parts and the time
      ensures forall k :: 0 <= k < VSENSOR_COUNT && waitTime > 0 && old(step) == 1 && k == FirstActive(active, old(sensor))
                          && results[k].code == 0 ==>
                && readings[k].temp == results[k].temp && readings[k].pressure == results[k].pressure
                && readings[k].humidity == results[k].humidity && readings[k].updated == now
    {
      if !busActive || sensors < 1 {
        return -1;
      }
      waitTime := 0;
      if step > 1 {
        step := 0;
      }
      if step == 0 {
        waitTime := StartAll(starts);
        if waitTime < 1 {
          waitTime := 15000;
        }
        sensor := 0;
        step := step + 1;
      } else if step == 1 {
        var i := ReadOne(results, now);
        sensor := i + 1;
        if sensor >= VSENSOR_COUNT {
          waitTime := 10000;
          step := step + 1;
        } else {
          waitTime := 50;
        }
      }
    }
  }

  // ---- cycles ----

  function After(active: seq<bool>, s: State, n: nat): State
    decreases n
  {
    if n == 0 then s else After(active, Next(active, s), n - 1)
  }

  /** Everything that n calls do on the bus. */
  function Trace(active: seq<bool>, s: State, n: nat): seq<Event>
    decreases n
  {
    if n == 0 then [] else Acts(active, s) + Trace(active, Next(active, s), n - 1)
  }

  function CountFrom(active: seq<bool>, i: nat): (n: nat)
    ensures i <= |active| ==> n <= |active| - i
    decreases |active| - i
  {
    if i >= |active| then 0 else (if active[i] then 1 else 0) + CountFrom(active, i + 1)
  }

  /** The calls of one cycle: the starts, one per active sensor, and one more to find the end
      unless the very last slot is active. */
  function CycleCalls(active: seq<bool>): (n: nat)
    ensures n <= CountFrom(active, 0) + 2
  {
    1 + ReadCalls(active, 0)
  }

  function ReadCalls(active: seq<bool>, i: nat): nat {
    CountFrom(active, i) + if i < |active| && active[|active| - 1] then 0 else 1
  }

  function Cycle(active: seq<bool>): seq<Event> {
    StartsFrom(active, 0) + ReadsFrom(active, 0)
  }

  lemma {:induction false} SkipInactive(active: seq<bool>, i: nat)
    requires i < |active|
    ensures var j := FirstActive(active, i);
            if j >= |active| then CountFrom(active, i) == 0 && ReadsFrom(active, i) == [] && !active[|active| - 1]
            else CountFrom(active, i) == 1 + CountFrom(active, j + 1) && ReadsFrom(active, i) == [Read(j)] + ReadsFrom(active, j + 1)
    decreases |active| - i
  {
    if !active[i] && i + 1 < |active| {
      SkipInactive(active, i + 1);
    }
  }

  /** One call of the reading half: the next active sensor, or the end. */
  lemma OneRead(active: seq<bool>, i: nat)
    requires i < |active|
    ensures var s, j := State(1, i), FirstActive(active, i);
            if j + 1 < |active| then
              && ReadCalls(active, i) == 1 + ReadCalls(active, j + 1) && Next(active, s) == State(1, j + 1)
              && ReadsFrom(active, i) == Acts(active, s) + ReadsFrom(active, j + 1)
            else
              ReadCalls(active, i) == 1 && Next(active, s).step == 2 && ReadsFrom(active, i) == Acts(active, s)
  {
    SkipInactive(active, i);
  }

  /** The reading half of a cycle. */
  lemma {:induction false} ReadHalf(active: seq<bool>, i: nat)
    requires i < |active|
    ensures Trace(active, State(1, i), ReadCalls(active, i)) == ReadsFrom(active, i)
    ensures After(active, State(1, i), ReadCalls(active, i)).step == 2
    decreases |active| - i
  {
    var j := FirstActive(active, i);
    OneRead(active, i);
    Unfold(active, State(1, i), ReadCalls(active, i));
    if j + 1 < |active| {
      ReadHalf(active, j + 1);
    }
  }

  lemma {:induction false} ReadingGoesOn(active: seq<bool>, i: nat, k: nat)
    requires i < |active| && k < ReadCalls(active, i)
    ensures After(active, State(1, i), k).step == 1
    decreases |active| - i
  {
    if k > 0 {
      var j := FirstActive(active, i);
      OneRead(active, i);
      Unfold(active, State(1, i), k);
      ReadingGoesOn(active, j + 1, k - 1);
    }
  }

  /** From a call that starts conversions to the next such call: every active sensor is started
      and then read, once each and in order, and no call in between starts anything. */
  lemma OneCycle(active: seq<bool>, s: State)
    requires s.step != 1 && |active| > 0
    ensures Trace(active, s, CycleCalls(active)) == Cycle(active)
    ensures After(active, s, CycleCalls(active)).step == 2
    ensures forall k :: 0 < k < CycleCalls(active) ==> After(active, s, k).step == 1
  {
    ReadHalf(active, 0);
    Unfold(active, s, CycleCalls(active));
    forall k | 0 < k < CycleCalls(active)
      ensures After(active, s, k).step == 1
    {
      Unfold(active, s, k);
      ReadingGoesOn(active, 0, k - 1);
    }
  }

  lemma {:induction false} TraceAppend(active: seq<bool>, s: State, m: nat, n: nat)
    ensures Trace(active, s, m + n) == Trace(active, s, m) + Trace(active, After(active, s, m), n)
    ensures After(active, s, m + n) == After(active, After(active, s, m), n)
    decreases m
  {
    if m == 0 {
    } else {
      var s' := Next(active, s);
      TraceAppend(active, s', m - 1, n);
      Unfold(active, s, m - 1 + n + 1);
      Unfold(active, s, m);
    }
  }

  lemma Unfold(active: seq<bool>, s: State, n: nat)
    requires n > 0
    ensures Trace(active, s, n) == Acts(active, s) + Trace(active, Next(active, s), n - 1)
    ensures After(active, s, n) == After(active, Next(active, s), n - 1)
  {
  }

  function Repeat(e: seq<Event>, m: nat): seq<Event> {
    if m == 0 then [] else e + Repeat(e, m - 1)
  }

  /** Whole runs are cycles, one after the other. */
  lemma {:induction false} EveryCycle(active: seq<bool>, s: State, m: nat)
    requires s.step != 1 && |active| > 0
    ensures Trace(active, s, m * CycleCalls(active)) == Repeat(Cycle(active), m)
    decreases m
  {
    if m > 0 {
      var n := CycleCalls(active);
      assert m * n == n + (m - 1) * n;
      var s' := CycleThen(active, s, (m - 1) * n);
      EveryCycle(active, s', m - 1);
    }
  }

  lemma CycleThen(active: seq<bool>, s: State, k: nat) returns (s': State)
    requires s.step != 1 && |active| > 0
    ensures s'.step != 1
    ensures Trace(active, s, CycleCalls(active) + k) == Cycle(active) + Trace(active, s', k)
  {
    var n := CycleCalls(active);
    OneCycle(active, s);
    TraceAppend(active, s, n, k);
    s' := After(active, s, n);
  }

  /** The second half of a cycle: the active sensors, each once, in index order. */
  lemma ReadsAreTheActive(active: seq<bool>)
    ensures var done := ReadsFrom(active, 0);
            && |done| == CountFrom(active, 0)
            && (forall j: nat :: Read(j) in done <==> j < |active| && active[j])
            && (forall k, l :: 0 <= k < l < |done| ==> done[k].sensor < done[l].sensor)
  {
    ReadsCounted(active, 0);
    forall j: nat
      ensures Read(j) in ReadsFrom(active, 0) <==> j < |active| && active[j]
    {
      ReadIffActive(active, 0, j);
    }
    ReadsAscend(active, 0);
  }

  lemma {:induction false} ReadsCounted(active: seq<bool>, i: nat)
    ensures |ReadsFrom(active, i)| == CountFrom(active, i)
    decreases |active| - i
  {
    if i < |active| {
      ReadsCounted(active, i + 1);
    }
  }

  lemma {:induction false} ReadIffActive(active: seq<bool>, i: nat, j: nat)
    ensures Read(j) in ReadsFrom(active, i) <==> i <= j < |active| && active[j]
    decreases |active| - i
  {
    if i < |active| {
      ReadIffActive(active, i + 1, j);
    }
  }

  lemma {:induction false} ReadsAscend(active: seq<bool>, i: nat)
    ensures forall k :: 0 <= k < |ReadsFrom(active, i)| ==> ReadsFrom(active, i)[k].sensor >= i
    ensures forall k, l :: 0 <= k < l < |ReadsFrom(active, i)| ==>
              ReadsFrom(active, i)[k].sensor < ReadsFrom(active, i)[l].sensor
    decreases |active| - i
  {
    if i < |active| {
      ReadsAscend(active, i + 1);
    }
  }

  /** The first half starts the same sensors in the same order. */
  lemma {:induction false} StartsMirrorReads(active: seq<bool>, i: nat)
    ensures |StartsFrom(active, i)| == |ReadsFrom(active, i)|
    ensures forall k :: 0 <= k < |StartsFrom(active, i)| ==>
              StartsFrom(active, i)[k] == Start(ReadsFrom(active, i)[k].sensor)
    decreases |active| - i
  {
    if i < |active| {
      StartsMirrorReads(active, i + 1);
    }
  }

  /** What one call is given: the results of starting and of reading each sensor, and the time. */
  datatype Call = Call(starts: seq<int>, results: seq<Result>, now: nat)

  method PollOnce(r: Reader, call: Call) returns (wait: int)
    requires r.Valid() && r.busActive && r.sensors >= 1
    requires |call.starts| == |call.results| == VSENSOR_COUNT
    modifies r, r.readings
    ensures wait > 0 && r.Counters() == Next(r.active, old(r.Counters()))
    ensures r.bus == old(r.bus) + Acts(r.active, old(r.Counters()))
  {
    wait := r.ReadTemps(call.starts, call.results, call.now);
  }

  /** Any run of calls does on the bus what the trace says, and every delay is positive. */
  method Poll(r: Reader, calls: seq<Call>) returns (waits: seq<int>)
    requires r.Valid() && r.busActive && r.sensors >= 1
    requires forall k :: 0 <= k < |calls| ==> |calls[k].starts| == |calls[k].results| == VSENSOR_COUNT
    modifies r, r.readings
    ensures r.bus == old(r.bus) + Trace(r.active, old(r.Counters()), |calls|)
    ensures r.Counters() == After(r.active, old(r.Counters()), |calls|)
    ensures |waits| == |calls| && forall k :: 0 <= k < |waits| ==> waits[k] > 0
  {
    waits := [];
    ghost var s, before := r.Counters(), r.bus;
    for i := 0 to |calls|
      invariant r.bus == before + Trace(r.active, s, i) && r.Counters() == After(r.active, s, i)
      invariant |waits| == i && forall k :: 0 <= k < i ==> waits[k] > 0
    {
      TraceSnoc(r.active, s, i, before);
      var wait := PollOnce(r, calls[i]);
      waits := waits + [wait];
    }
  }

  lemma TraceSnoc(active: seq<bool>, s: State, n: nat, before: seq<Event>)
    ensures before + Trace(active, s, n + 1) == before + Trace(active, s, n) + Acts(active, After(active, s, n))
    ensures After(active, s, n + 1) == Next(active, After(active, s, n))
  {
    TraceAppend(active, s, n, 1);
    Unfold(active, After(active, s, n), 1);
  }

  /** So polling from the start, for any number of cycles, is that many cycles on the bus. */
  method PollCycles(r: Reader, calls: seq<Call>, cycles: nat) returns (waits: seq<int>)
    requires r.Valid() && r.busActive && r.sensors >= 1 && r.step != 1
    requires |calls| == cycles * CycleCalls(r.active)
    requires forall k :: 0 <= k < |calls| ==> |calls[k].starts| == |calls[k].results| == VSENSOR_COUNT
    modifies r, r.readings
    ensures r.bus == old(r.bus) + Repeat(Cycle(r.active), cycles)
  {
    EveryCycle(r.active, r.Counters(), cycles);
    waits := Poll(r, calls);
  }
}
