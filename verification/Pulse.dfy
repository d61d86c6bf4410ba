/** The pulse effect of src/effects_pulse.c. Phase lengths are whole microseconds. */
module Pulse {
  import opened Division

  const ARG_COUNT := 4

  /** The phase ends: each length added to the end before it. */
  function Ends(args: seq<nat>): (ends: seq<nat>)
    ensures |ends| == |args|
  {
    if args == [] then []
    else
      var before := Ends(args[..|args| - 1]);
      before + [args[|args| - 1] + if before == [] then 0 else before[|before| - 1]]
  }

  lemma {:induction false} EndAfterEnd(args: seq<nat>, k: nat)
    requires k < |args|
    ensures Ends(args)[k] == args[k] + if k == 0 then 0 else Ends(args)[k - 1]
  {
    if k < |args| - 1 {
      EndAfterEnd(args[..|args| - 1], k);
    }
  }

  lemma EndsAreSums(args: seq<nat>)
    requires |args| == ARG_COUNT
    ensures var ends := Ends(args);
            && ends[0] == args[0] && ends[1] == args[0] + args[1]
            && ends[2] == args[0] + args[1] + args[2] && ends[3] == args[0] + args[1] + args[2] + args[3]
  {
    EndAfterEnd(args, 0);
    EndAfterEnd(args, 1);
    EndAfterEnd(args, 2);
    EndAfterEnd(args, 3);
  }

  /** The last loop of effect_pulse_parse_args. */
  method PhaseEnds(args: seq<nat>) returns (ends: array<nat>)
    requires |args| == ARG_COUNT
    ensures ends.Length == ARG_COUNT && ends[..] == Ends(args)
    ensures ends[0] == args[0] && ends[1] == args[0] + args[1]
    ensures ends[2] == args[0] + args[1] + args[2] && ends[3] == args[0] + args[1] + args[2] + args[3]
  {
    ends := FillEnds(args);
    EndsAreSums(args);
  }

  method FillEnds(args: seq<nat>) returns (ends: array<nat>)
    requires |args| == ARG_COUNT
    ensures ends.Length == ARG_COUNT && ends[..] == Ends(args)
  {
    ends := new nat[ARG_COUNT](_ => 0);
    for i := 0 to ARG_COUNT
      invariant ends[..i] == Ends(args[..i])
    {
      assert args[..i + 1][..i] == args[..i];
      ghost var before := ends[..i];
      ends[i] := args[i];
      if i > 0 {
        assert ends[i - 1] == before[i - 1];
        ends[i] := ends[i] + ends[i - 1];
      }
      assert ends[..i + 1] == before + [ends[i]];
    }
    assert args[..ARG_COUNT] == args;
  }

  /** What effect_pulse shows at time t of its period. */
  function Phase(ends: seq<nat>, t: nat, pwm: nat): (r: nat)
    requires |ends| == ARG_COUNT
    ensures r <= pwm
  {
    if t < ends[0] then Scaled(pwm, t, ends[0])
    else if t < ends[1] then pwm
    else if t < ends[2] then pwm - Scaled(pwm, t - ends[1], ends[2] - ends[1])
    else 0
  }

  function Output(ends: seq<nat>, t: nat, pwm: nat, on: bool): (r: nat)
    requires |ends| == ARG_COUNT && (on ==> ends[3] > 0)
    ensures r <= pwm
  {
    if on then Phase(ends, t % ends[3], pwm) else 0
  }

  lemma PhaseIsLinear(ends: seq<nat>, t: nat, pwm: nat)
    requires |ends| == ARG_COUNT
    ensures t < ends[0] ==> Phase(ends, t, pwm) * ends[0] <= pwm * t < (Phase(ends, t, pwm) + 1) * ends[0]
    ensures ends[0] <= t && ends[1] <= t < ends[2] ==>
              var down := pwm - Phase(ends, t, pwm);
              down * (ends[2] - ends[1]) <= pwm * (t - ends[1]) < (down + 1) * (ends[2] - ends[1])
  {
    if t < ends[0] {
      RampIsLinear(pwm, t, ends[0]);
    } else if ends[1] <= t < ends[2] {
      RampIsLinear(pwm, t - ends[1], ends[2] - ends[1]);
    }
  }

  /** How a call ends: with a level, or with a division by zero. */
  datatype Outcome = Level(level: nat) | Undefined

  /** effect_pulse. A period of zero is divided by, which is not defined. */
  method EffectPulse(ends: array<nat>, now: nat, pwm: nat, on: bool) returns (o: Outcome)
    requires ends.Length == ARG_COUNT
    ensures o == if on && ends[3] == 0 then Undefined else Level(Output(ends[..], now, pwm, on))
    // in other words: up the straight line to the brightness, there, down the line, and off
    ensures !on ==> o == Level(0)
    ensures o.Level? && on ==>
              var t := now % ends[3];
              if t < ends[0] then o.level * ends[0] <= pwm * t < (o.level + 1) * ends[0]
              else if t < ends[1] then o.level == pwm
              else if t < ends[2] then
                && o.level <= pwm
                && (pwm - o.level) * (ends[2] - ends[1]) <= pwm * (t - ends[1]) < (pwm - o.level + 1) * (ends[2] - ends[1])
              else o.level == 0
  {
    var ret := 0;
    if on {
      if ends[3] == 0 {
        return Undefined;
      }
      var t := now % ends[3];
      PhaseIsLinear(ends[..], t, pwm);
      if t < ends[0] {
        ret := Interpolate(pwm, t, ends[0]);
      } else if t < ends[1] {
        ret := pwm;
      } else if t < ends[2] {
        var faded := Interpolate(pwm, t - ends[1], ends[2] - ends[1]);
        ret := pwm - faded;
      }
    }
    o := Level(ret);
  }

  /** Phase ends never go back, and the period is positive exactly when some phase is. */
  lemma EndsOrdered(args: seq<nat>)
    ensures forall i, j :: 0 <= i <= j < |args| ==> Ends(args)[i] <= Ends(args)[j]
    ensures args != [] ==> (Ends(args)[|args| - 1] > 0 <==> exists i :: 0 <= i < |args| && args[i] > 0)
  {
    EndsAscend(args);
    PeriodPositive(args);
  }

  lemma {:induction false} EndsAscend(args: seq<nat>)
    ensures forall i, j :: 0 <= i <= j < |args| ==> Ends(args)[i] <= Ends(args)[j]
  {
    if args != [] {
      EndsAscend(args[..|args| - 1]);
    }
  }

  lemma {:induction false} PeriodPositive(args: seq<nat>)
    ensures args != [] ==> (Ends(args)[|args| - 1] > 0 <==> exists i :: 0 <= i < |args| && args[i] > 0)
  {
    if args != [] {
      var init := args[..|args| - 1];
      PeriodPositive(init);
      if i :| 0 <= i < |init| && init[i] > 0 {
        assert args[i] > 0;
      }
      if i :| 0 <= i < |args| && args[i] > 0 {
        assert i == |init| || init[i] > 0;
      }
    }
  }

  /** The powered output repeats with the period. */
  lemma Periodic(ends: seq<nat>, t: nat, k: nat, pwm: nat)
    requires |ends| == ARG_COUNT && ends[3] > 0
    ensures Output(ends, t + k * ends[3], pwm, true) == Output(ends, t, pwm, true)
  {
    SameRemainder(t, k, ends[3]);
  }

  lemma SameRemainder(t: nat, k: nat, c: nat)
    requires c > 0
    ensures (t + k * c) % c == t % c
  {
    var q, r := t / c, t % c;
    assert t == c * q + r;
    assert t + k * c == c * (q + k) + r;
    QuotientUnique(t + k * c, c, q + k, r);
  }

  /** Within a period the output rises to the brightness, holds it, falls to 0 and stays. */
  lemma RisesThenFalls(ends: seq<nat>, s: nat, t: nat, pwm: nat)
    requires |ends| == ARG_COUNT && ends[0] <= ends[1] <= ends[2] <= ends[3] && s <= t
    ensures t < ends[1] ==> Phase(ends, s, pwm) <= Phase(ends, t, pwm)
    ensures s >= ends[0] ==> Phase(ends, s, pwm) >= Phase(ends, t, pwm)
    ensures ends[0] <= t < ends[1] ==> Phase(ends, t, pwm) == pwm
    ensures ends[2] <= t ==> Phase(ends, t, pwm) == 0
  {
    if t < ends[0] {
      ScaledMonotone(pwm, s, t, ends[0]);
    }
    if ends[1] <= s && t < ends[2] {
      ScaledMonotone(pwm, s - ends[1], t - ends[1], ends[2] - ends[1]);
    }
  }

  /** Ramps of one length mirror each other: at the same offset the two add up to the brightness. */
  lemma RampsMirror(ends: seq<nat>, x: nat, pwm: nat)
    requires |ends| == ARG_COUNT && ends[0] <= ends[1] && ends[2] == ends[1] + ends[0] && x < ends[0]
    ensures Phase(ends, x, pwm) + Phase(ends, ends[1] + x, pwm) == pwm
  {
  }
}
