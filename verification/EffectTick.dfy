/** The effect tick of core 1 (src/brickpico.c) and the lightness table it drives (src/pwm.c):
    a level is written to the hardware only when an effect's value changes. */
module EffectTick {
  import opened Lightness

  /** The level of a lightness value, cut at 100. */
  function Level(map100: seq<nat>, lightness: nat): nat
    requires |map100| == LIGHTNESS_MAX + 1
  {
    map100[if lightness > LIGHTNESS_MAX then LIGHTNESS_MAX else lightness]
  }

  class Outputs {
    const pwm: array<nat>        // the cache of core1_main: the value last written, 0 at first
    const hardware: array<nat>   // the level each output shows
    const map100: seq<nat>       // pwm_lightness_map

    ghost predicate Valid() {
      pwm != hardware && pwm.Length == hardware.Length && |map100| == LIGHTNESS_MAX + 1
    }

    /** The start of core1_main; the hardware shows what setup left there. */
    constructor (hardware: array<nat>, map100: seq<nat>)
      requires |map100| == LIGHTNESS_MAX + 1
      ensures Valid() && this.hardware == hardware && this.map100 == map100 && fresh(pwm)
      ensures forall i :: 0 <= i < pwm.Length ==> pwm[i] == 0
    {
      this.hardware := hardware;
      this.map100 := map100;
      pwm := new nat[hardware.Length](_ => 0);
    }

    /** set_pwm_lightness. */
    method SetPwmLightness(out: nat, lightness: nat)
      requires Valid() && out < hardware.Length
      modifies hardware
      ensures hardware[..] == old(hardware[..])[out := Level(map100, lightness)]
      ensures hardware[out] == if lightness <= 100 then map100[lightness] else map100[100]
    {
      hardware[out] := map100[if lightness > LIGHTNESS_MAX then LIGHTNESS_MAX else lightness];
    }

    /** One tick, given what light_effect returned for each output. */
    method Tick(values: seq<nat>)
      requires Valid() && |values| == pwm.Length
      modifies pwm, hardware
      ensures pwm[..] == values
      ensures forall i :: 0 <= i < pwm.Length ==>
                hardware[i] == if values[i] != old(pwm[i]) then Level(map100, values[i]) else old(hardware[i])
    {
      for i := 0 to pwm.Length
        invariant forall k :: 0 <= k < pwm.Length ==> pwm[k] == if k < i then values[k] else old(pwm[k])
        invariant forall k :: 0 <= k < pwm.Length ==>
                    hardware[k] == if k < i && values[k] != old(pwm[k]) then Level(map100, values[k]) else old(hardware[k])
      {
        var new' := values[i];
        if new' != pwm[i] {
          SetPwmLightness(i, new');
          pwm[i] := new';
        }
      }
    }
  }

  /** Some tick has given output i a value other than the cache's initial 0. */
  ghost predicate Written(ticks: seq<seq<nat>>, i: nat) {
    exists k :: 0 <= k < |ticks| && i < |ticks[k]| && ticks[k][i] != 0
  }

  /** Any run of ticks. From an output's first write on, its level is that of the last value.
      Before it, the value is 0 and the level is still what setup left. */
  method Run(o: Outputs, ticks: seq<seq<nat>>)
    requires o.Valid() && ticks != []
    requires forall i :: 0 <= i < o.pwm.Length ==> o.pwm[i] == 0
    requires forall k :: 0 <= k < |ticks| ==> |ticks[k]| == o.pwm.Length
    modifies o.pwm, o.hardware
    ensures forall i :: 0 <= i < o.pwm.Length ==>
              var last := ticks[|ticks| - 1][i];
              && (Written(ticks, i) ==> o.hardware[i] == Level(o.map100, last))
              && (!Written(ticks, i) ==> last == 0 && o.hardware[i] == old(o.hardware[i]))
              // so the level is right exactly when the output was written, or already showed 0
              && (o.hardware[i] == Level(o.map100, last) <==> Written(ticks, i) || old(o.hardware[i]) == Level(o.map100, 0))
  {
    for k := 0 to |ticks|
      invariant forall i :: 0 <= i < o.pwm.Length ==> o.pwm[i] == if k == 0 then 0 else ticks[k - 1][i]
      invariant forall i :: 0 <= i < o.pwm.Length ==>
                  if Written(ticks[..k], i) then o.hardware[i] == Level(o.map100, o.pwm[i])
                  else o.pwm[i] == 0 && o.hardware[i] == old(o.hardware[i])
    {
      ghost var before := o.pwm[..];
      o.Tick(ticks[k]);
      forall i | 0 <= i < o.pwm.Length
        ensures Written(ticks[..k + 1], i) <==> Written(ticks[..k], i) || ticks[k][i] != 0
      {
        OneMoreTick(ticks, k, i);
      }
    }
    assert ticks[..|ticks|] == ticks;
  }

  lemma OneMoreTick(ticks: seq<seq<nat>>, k: nat, i: nat)
    requires k < |ticks| && i < |ticks[k]|
    ensures Written(ticks[..k + 1], i) <==> Written(ticks[..k], i) || ticks[k][i] != 0
  {
    assert ticks[..k + 1] == ticks[..k] + [ticks[k]];
    if Written(ticks[..k], i) {
      var j :| 0 <= j < k && i < |ticks[..k][j]| && ticks[..k][j][i] != 0;
      assert ticks[..k + 1][j] == ticks[..k][j];
    }
    if ticks[k][i] != 0 {
      assert ticks[..k + 1][k] == ticks[k];
    }
  }

  /** The level of a lightness in the table that calculate_pwm_lightness makes for `wrap`. */
  function TableLevel(wrap: nat, lightness: nat): int {
    TableEntry(wrap, if lightness > LIGHTNESS_MAX then LIGHTNESS_MAX else lightness)
  }

  /** Set-up and any run of ticks: every output written so far shows the CIE level of its last
      value. */
  method SetupAndRun(hardware: array<nat>, wrap: nat, ticks: seq<seq<nat>>)
    requires wrap < 0x1_0000 && ticks != [] && forall k :: 0 <= k < |ticks| ==> |ticks[k]| == hardware.Length
    modifies hardware
    ensures forall i :: 0 <= i < hardware.Length ==>
              if Written(ticks, i) then hardware[i] == TableLevel(wrap, ticks[|ticks| - 1][i])
              else ticks[|ticks| - 1][i] == 0 && hardware[i] == old(hardware[i])
    // the largest level whose share of the wrap value is not above the CIE luminance of that value
    ensures forall i :: 0 <= i < hardware.Length && Written(ticks, i) ==>
              var l := if ticks[|ticks| - 1][i] > 100 then 100 else ticks[|ticks| - 1][i];
              hardware[i] as real * 100.0 <= wrap as real * CieInverse(l as real, 100.0) < (hardware[i] + 1) as real * 100.0
  {
    var table := CalculatePwmLightness(wrap);
    var o := new Outputs(hardware, table[..]);
    Run(o, ticks);
  }
}
