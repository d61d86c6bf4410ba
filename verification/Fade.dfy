/** The fade effect of src/effects_fade.c: a state machine with latched modes, and the closed
    form it computes on a clock that does not go back. Times are in microseconds. */
module Fade {
  import opened Division

  datatype Context = Context(mode: nat, lastState: nat, start: int)

  /** The lengths of the two fades, in_l and out_l. */
  datatype Lengths = Lengths(fadeIn: nat, fadeOut: nat)

  const FRESH := Context(0, 0, 0)

  /** effect_fade as a function of the context: the new context and the output. */
  function Step(c: Context, l: Lengths, t: int, pwm: nat, pwr: nat): (Context, nat)
    requires c.start <= t || c.lastState != pwr
  {
    var next := c.(lastState := pwr);
    var d := t - c.start;
    if c.lastState != pwr then
      if pwr != 0 then (Context(1, pwr, t), 0) else (Context(3, pwr, t), pwm)
    else match c.mode
      case 1 => if d < l.fadeIn then (next, Scaled(pwm, d, l.fadeIn)) else (next.(mode := 2), pwm)
      case 2 => (next, pwm)
      case 3 => if d < l.fadeOut then (next, pwm - Scaled(pwm, d, l.fadeOut)) else (next.(mode := 4), 0)
      case _ => (next, 0)
  }

  class FadeContext {
    const lengths: Lengths
    var mode: nat
    var lastState: nat
    var start: int

    function Value(): Context
      reads this
    {
      Context(mode, lastState, start)
    }

    constructor (lengths: Lengths)
      ensures Value() == FRESH && this.lengths == lengths
    {
      this.lengths := lengths;
      mode, lastState, start := 0, 0, 0;
    }

    /** effect_fade on a uint8_t brightness. */
    method Effect(t: int, pwm: nat, pwr: nat) returns (ret: nat)
      requires pwm <= 255 && start <= t
      modifies this
      ensures (Value(), ret) == Step(old(Value()), lengths, t, pwm, pwr)
      ensures ret <= 255
    {
      ret := 0;
      if lastState != pwr {
        start := t;
        if pwr != 0 {
          mode := 1;
          ret := 0;
        } else {
          mode := 3;
          ret := pwm;
        }
      } else {
        var d := t - start;
        if mode == 1 {
          if d < lengths.fadeIn {
            ret := Interpolate(pwm, d, lengths.fadeIn);
          } else {
            mode := 2;
            ret := pwm;
          }
        } else if mode == 2 {
          ret := pwm;
        } else if mode == 3 {
          if d < lengths.fadeOut {
            var faded := Interpolate(pwm, d, lengths.fadeOut);
            ret := pwm - faded;
          } else {
            mode := 4;
            ret := 0;
          }
        } else if mode == 4 {
          ret := 0;
        }
      }
      lastState := pwr;
    }
  }

  // ---- runs of calls at one brightness ----

  datatype Call = Call(t: int, on: bool)

  function Power(on: bool): nat {
    if on then 1 else 0
  }

  ghost predicate GoodClock(calls: seq<Call>) {
    && (calls != [] ==> calls[0].t >= 0)
    && forall i, j :: 0 <= i <= j < |calls| ==> calls[i].t <= calls[j].t
  }

  /** The context before call i, and with it its output. */
  ghost function Before(calls: seq<Call>, l: Lengths, pwm: nat, i: nat): (c: Context)
    requires i <= |calls| && GoodClock(calls)
    ensures i < |calls| ==> c.start <= calls[i].t
  {
    if i == 0 then FRESH
    else
      assert calls[i - 1].t <= calls[if i < |calls| then i else i - 1].t;
      Step(Before(calls, l, pwm, i - 1), l, calls[i - 1].t, pwm, Power(calls[i - 1].on)).0
  }

  ghost function Output(calls: seq<Call>, l: Lengths, pwm: nat, i: nat): nat
    requires i < |calls| && GoodClock(calls)
  {
    Step(Before(calls, l, pwm, i), l, calls[i].t, pwm, Power(calls[i].on)).1
  }

  // ---- the closed form ----

  /** The call that last switched the power, counting call i; none if it never was on. */
  function LastSwitch(calls: seq<Call>, i: nat): (j: int)
    requires i < |calls|
    ensures -1 <= j <= i && (j == -1 ==> !calls[i].on) && (j >= 0 ==> calls[j].on == calls[i].on)
  {
    var before := i > 0 && calls[i - 1].on;
    if calls[i].on != before then i
    else if i == 0 then -1
    else LastSwitch(calls, i - 1)
  }

  /** What a power state shows d after it was switched to. */
  function Shape(on: bool, d: nat, l: Lengths, pwm: nat): nat {
    if on then if d < l.fadeIn then Scaled(pwm, d, l.fadeIn) else pwm
    else if d < l.fadeOut then pwm - Scaled(pwm, d, l.fadeOut)
    else 0
  }

  /** The output, told from the power and the time since the last switch alone. The switching
      call itself shows the start of the fade, even of one of length zero. */
  ghost function Closed(calls: seq<Call>, l: Lengths, pwm: nat, i: nat): nat
    requires i < |calls| && GoodClock(calls)
  {
    var j := LastSwitch(calls, i);
    if j == -1 then 0 else Since(calls, l, pwm, j, i)
  }

  ghost function Since(calls: seq<Call>, l: Lengths, pwm: nat, j: nat, i: nat): nat
    requires j <= i < |calls| && GoodClock(calls)
  {
    if j == i then if calls[i].on then 0 else pwm
    else Shape(calls[i].on, calls[i].t - calls[j].t, l, pwm)
  }

  /** What the context keeps: the last power and switch, and modes that only latch a fade that
      is over. */
  ghost predicate Tracks(c: Context, calls: seq<Call>, l: Lengths, i: nat)
    requires i < |calls|
  {
    var j := LastSwitch(calls, i);
    && c.lastState == Power(calls[i].on)
    && if j == -1 then c == FRESH
       else
         && c.start == calls[j].t
         && if calls[i].on then c.mode == 1 || (c.mode == 2 && calls[i].t - c.start >= l.fadeIn)
            else c.mode == 3 || (c.mode == 4 && calls[i].t - c.start >= l.fadeOut)
  }

  lemma {:induction false} ContextTracks(calls: seq<Call>, l: Lengths, pwm: nat, i: nat)
    requires i < |calls| && GoodClock(calls) && pwm <= 255
    ensures Tracks(Before(calls, l, pwm, i + 1), calls, l, i)
    ensures Output(calls, l, pwm, i) == Closed(calls, l, pwm, i)
  {
    if i > 0 {
      ContextTracks(calls, l, pwm, i - 1);
    }
  }

  // ---- what follows for every run ----

  lemma StaysInRange(calls: seq<Call>, l: Lengths, pwm: nat, i: nat)
    requires i < |calls| && GoodClock(calls) && pwm <= 255
    ensures Output(calls, l, pwm, i) <= pwm
  {
    ContextTracks(calls, l, pwm, i);
  }

  lemma ShapeMonotone(on: bool, d: nat, d': nat, l: Lengths, pwm: nat)
    requires d <= d'
    ensures if on then Shape(on, d, l, pwm) <= Shape(on, d', l, pwm) else Shape(on, d, l, pwm) >= Shape(on, d', l, pwm)
    ensures Shape(on, d, l, pwm) <= pwm
  {
    var len := if on then l.fadeIn else l.fadeOut;
    if d' < len {
      ScaledMonotone(pwm, d, d', len);
    }
  }

  /** Between switches the output only rises while on and only falls while off. */
  lemma MonotoneBetweenSwitches(calls: seq<Call>, l: Lengths, pwm: nat, i: nat, k: nat)
    requires i <= k < |calls| && GoodClock(calls) && pwm <= 255
    requires LastSwitch(calls, i) == LastSwitch(calls, k)
    ensures if calls[k].on then Output(calls, l, pwm, i) <= Output(calls, l, pwm, k)
            else Output(calls, l, pwm, i) >= Output(calls, l, pwm, k)
  {
    ContextTracks(calls, l, pwm, i);
    ContextTracks(calls, l, pwm, k);
    ClosedMonotone(calls, l, pwm, i, k);
  }

  lemma ClosedMonotone(calls: seq<Call>, l: Lengths, pwm: nat, i: nat, k: nat)
    requires i <= k < |calls| && GoodClock(calls)
    requires LastSwitch(calls, i) == LastSwitch(calls, k)
    ensures if calls[k].on then Closed(calls, l, pwm, i) <= Closed(calls, l, pwm, k)
            else Closed(calls, l, pwm, i) >= Closed(calls, l, pwm, k)
  {
    var j := LastSwitch(calls, k);
    if 0 <= j {
      SinceMonotone(calls, l, pwm, j, i, k);
    }
  }

  lemma SinceMonotone(calls: seq<Call>, l: Lengths, pwm: nat, j: nat, i: nat, k: nat)
    requires j <= i <= k < |calls| && GoodClock(calls) && calls[i].on == calls[k].on
    ensures if calls[k].on then Since(calls, l, pwm, j, i) <= Since(calls, l, pwm, j, k)
            else Since(calls, l, pwm, j, i) >= Since(calls, l, pwm, j, k)
  {
    var from, to := calls[i].t - calls[j].t, calls[k].t - calls[j].t;
    ShapeMonotone(calls[k].on, from, to, l, pwm);
    ShapeMonotone(calls[k].on, to, to, l, pwm);
  }

  /** A fade is over from the first later call at or after its length on: the output is then
      exactly the brightness, or 0. */
  lemma SettlesExactly(calls: seq<Call>, l: Lengths, pwm: nat, i: nat)
    requires i < |calls| && GoodClock(calls) && pwm <= 255
    requires 0 <= LastSwitch(calls, i) < i
    requires calls[i].t - calls[LastSwitch(calls, i)].t >= if calls[i].on then l.fadeIn else l.fadeOut
    ensures Output(calls, l, pwm, i) == if calls[i].on then pwm else 0
  {
    ContextTracks(calls, l, pwm, i);
  }

  /** The power was switched by call j and stayed so up to call i. */
  ghost predicate HeldSince(calls: seq<Call>, j: nat, i: nat)
    requires j <= i < |calls|
  {
    && (j == 0 ==> calls[0].on)
    && (j > 0 ==> calls[j].on != calls[j - 1].on)
    && forall k :: j <= k <= i ==> calls[k].on == calls[j].on
  }

  lemma {:induction false} LastSwitchIs(calls: seq<Call>, j: nat, i: nat)
    requires j <= i < |calls| && HeldSince(calls, j, i)
    ensures LastSwitch(calls, i) == j
    decreases i
  {
    if j < i {
      LastSwitchIs(calls, j, i - 1);
    }
  }

  lemma {:induction false} NeverSwitched(calls: seq<Call>, i: nat)
    requires i < |calls| && forall k :: 0 <= k <= i ==> !calls[k].on
    ensures LastSwitch(calls, i) == -1
  {
    if i > 0 {
      NeverSwitched(calls, i - 1);
    }
  }

  /** A fade since call j at call i, the ramps as the straight line between 0 and the brightness. */
  ghost predicate Fades(calls: seq<Call>, l: Lengths, pwm: nat, j: nat, i: nat, output: nat)
    requires j <= i < |calls|
  {
    var d := calls[i].t - calls[j].t;
    if j == i then output == if calls[i].on then 0 else pwm
    else if calls[i].on then
      if d < l.fadeIn then output * l.fadeIn <= pwm * d < (output + 1) * l.fadeIn else output == pwm
    else
      if d < l.fadeOut then output <= pwm && (pwm - output) * l.fadeOut <= pwm * d < (pwm - output + 1) * l.fadeOut
      else output == 0
  }

  lemma ClosedFades(calls: seq<Call>, l: Lengths, pwm: nat, j: nat, i: nat)
    requires j <= i < |calls| && GoodClock(calls) && HeldSince(calls, j, i)
    ensures Fades(calls, l, pwm, j, i, Closed(calls, l, pwm, i))
  {
    LastSwitchIs(calls, j, i);
    var d := calls[i].t - calls[j].t;
    var len := if calls[i].on then l.fadeIn else l.fadeOut;
    if j < i && d < len {
      RampIsLinear(pwm, d, len);
    }
  }

  /** Any run of calls on a fresh context outputs what the closed form says: the line of the fade
      that the last switch began, and nothing before the first. */
  method Run(c: FadeContext, calls: seq<Call>, pwm: nat) returns (outputs: seq<nat>)
    requires c.Value() == FRESH && GoodClock(calls) && pwm <= 255
    modifies c
    ensures |outputs| == |calls|
    ensures forall i :: 0 <= i < |calls| ==> outputs[i] == Closed(calls, c.lengths, pwm, i)
    ensures c.Value() == Before(calls, c.lengths, pwm, |calls|)
    ensures forall j, i | 0 <= j <= i < |calls| && HeldSince(calls, j, i) :: Fades(calls, c.lengths, pwm, j, i, outputs[i])
    ensures forall i | 0 <= i < |calls| && (forall k :: 0 <= k <= i ==> !calls[k].on) :: outputs[i] == 0
  {
    outputs := RunCalls(c, calls, pwm);
    forall j, i | 0 <= j <= i < |calls| && HeldSince(calls, j, i)
      ensures Fades(calls, c.lengths, pwm, j, i, outputs[i])
    {
      ClosedFades(calls, c.lengths, pwm, j, i);
    }
    forall i | 0 <= i < |calls| && (forall k :: 0 <= k <= i ==> !calls[k].on)
      ensures outputs[i] == 0
    {
      NeverSwitched(calls, i);
    }
  }

  method RunCalls(c: FadeContext, calls: seq<Call>, pwm: nat) returns (outputs: seq<nat>)
    requires c.Value() == FRESH && GoodClock(calls) && pwm <= 255
    modifies c
    ensures |outputs| == |calls|
    ensures forall i :: 0 <= i < |calls| ==> outputs[i] == Closed(calls, c.lengths, pwm, i)
    ensures c.Value() == Before(calls, c.lengths, pwm, |calls|)
  {
    outputs := [];
    for i := 0 to |calls|
      invariant |outputs| == i && c.Value() == Before(calls, c.lengths, pwm, i)
      invariant forall k :: 0 <= k < i ==> outputs[k] == Closed(calls, c.lengths, pwm, k)
    {
      ContextTracks(calls, c.lengths, pwm, i);
      var ret := c.Effect(calls[i].t, pwm, Power(calls[i].on));
      outputs := outputs + [ret];
    }
  }
}
