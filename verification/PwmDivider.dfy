/** The choice of PWM clock divider and counter top in setup_pwm_outputs of src/pwm.c. */
module PwmDivider {

  const PWM_TOP_MAX := 0x1_0000

  /** The frequency the configuration ends up asking for. */
  function Clamped(pwmFreq: nat): (f: nat) {
    if pwmFreq < 10 then 10 else if pwmFreq > 100000 then 100000 else pwmFreq
  }

  /** The subtraction of uint32_t. */
  function Minus32(a: nat, b: nat): nat {
    (a - b) % 0x1_0000_0000
  }

  /** A phase-correct counter of top + 1 counts, fed every div clocks, passes twice over its
      counts in one period: the period is the longest that is no slower than f. */
  ghost predicate LongestPeriod(sysClock: nat, div: nat, f: nat, top: nat) {
    div * (2 * f) * (top + 1) <= sysClock < div * (2 * f) * (top + 2)
  }

  /** The counts of half a period, with the code's three divisions in their order. */
  function Counts(sysClock: nat, div: nat, f: nat): nat
    requires div > 0 && f > 0
  {
    sysClock / div / f / 2
  }

  /** setup_pwm_outputs, from the clock and the configured frequency to the two registers. */
  method ChooseDivider(sysClock: nat, pwmFreq: nat) returns (clkDiv: nat, top: nat)
    requires sysClock < 0x1_0000_0000 && pwmFreq < 0x1_0000_0000
    // both fit their registers exactly for these clocks
    ensures clkDiv >= 1
    ensures clkDiv <= 255 && top < PWM_TOP_MAX <==> FitsRegisters(sysClock, Clamped(pwmFreq))
    ensures sysClock >= 2 * Clamped(pwmFreq) ==> Proper(sysClock, Clamped(pwmFreq), clkDiv, top)
    // in other words: the longest period that is no slower than the frequency, cut to 10 and 100000 Hz
    ensures 10 <= pwmFreq <= 100000 && sysClock >= 2 * pwmFreq ==>
              clkDiv * (2 * pwmFreq) * (top + 1) <= sysClock < clkDiv * (2 * pwmFreq) * (top + 2)
    ensures pwmFreq < 10 && sysClock >= 20 ==> clkDiv * 20 * (top + 1) <= sysClock < clkDiv * 20 * (top + 2)
    ensures pwmFreq > 100000 && sysClock >= 200000 ==>
              clkDiv * 200000 * (top + 1) <= sysClock < clkDiv * 200000 * (top + 2)
  {
    var f := pwmFreq;
    if pwmFreq < 10 {
      f := 10;
    } else if pwmFreq > 100000 {
      f := 100000;
    }
    clkDiv := 1;
    top := Minus32(Counts(sysClock, clkDiv, f), 1);
    if top >= PWM_TOP_MAX {
      clkDiv := top / PWM_TOP_MAX + 1;
      top := Minus32(Counts(sysClock, clkDiv, f), 1);
    }
    assert f == Clamped(pwmFreq);
    Chosen(sysClock, f, clkDiv, top);
  }

  /** Not so slow that not one count is left, nor so fast that 255 is too small a divider. */
  ghost predicate FitsRegisters(sysClock: nat, f: nat) {
    2 * f <= sysClock < 2 * f * (255 * PWM_TOP_MAX + 1)
  }

  ghost predicate Proper(sysClock: nat, f: nat, div: nat, top: nat) {
    && top < PWM_TOP_MAX
    && LongestPeriod(sysClock, div, f, top)
    // a divider is used exactly when the counter alone cannot reach the period, ...
    && (div > 1 <==> sysClock >= 2 * f * (PWM_TOP_MAX + 1))
    // ... then at least half of the counter's range is kept, ...
    && (div > 1 ==> top + 1 >= PWM_TOP_MAX / 2)
    // ... and with one divider less the counter would still be full or over
    && (div > 1 ==> sysClock >= (div - 1) * (2 * f) * PWM_TOP_MAX)
  }

  /** Every frequency that can be configured fits, from 200 kHz to 334 MHz. */
  lemma UsualClocksFit(sysClock: nat, pwmFreq: nat)
    requires 200_000 <= sysClock <= 334_000_000
    ensures FitsRegisters(sysClock, Clamped(pwmFreq))
  {
    Scale(255 * PWM_TOP_MAX + 1, 20, 2 * Clamped(pwmFreq));
  }

  lemma Chosen(s: nat, f: nat, d: nat, top: nat)
    requires s < 0x1_0000_0000 && 10 <= f <= 100_000
    requires var top1 := Minus32(Counts(s, 1, f), 1);
             d == if top1 >= PWM_TOP_MAX then top1 / PWM_TOP_MAX + 1 else 1
    requires top == Minus32(Counts(s, d, f), 1)
    ensures d <= 255 && top < PWM_TOP_MAX <==> FitsRegisters(s, f)
    ensures s >= 2 * f ==> Proper(s, f, d, top)
  {
    FirstTry(s, f);
    RoundedUp(Counts(s, 1, f), d);
    if d > 1 && Counts(s, 1, f) > 0 {
      SecondTry(s, f, d);
    }
  }

  /** The divider chosen for n counts: n / PWM_TOP_MAX, rounded up, and far too big for none. */
  lemma RoundedUp(n: nat, d: nat)
    requires n < 0x1_0000_0000
    requires d == if Minus32(n, 1) >= PWM_TOP_MAX then Minus32(n, 1) / PWM_TOP_MAX + 1 else 1
    ensures n == 0 ==> d > 255
    ensures 0 < n <= PWM_TOP_MAX ==> d == 1
    ensures n > PWM_TOP_MAX ==> d >= 2 && PWM_TOP_MAX * (d - 1) < n <= PWM_TOP_MAX * d && (d <= 255 <==> n <= 255 * PWM_TOP_MAX)
  {
  }

  lemma FirstTry(s: nat, f: nat)
    requires s < 0x1_0000_0000 && f > 0
    ensures Counts(s, 1, f) <= s
    ensures Counts(s, 1, f) > 0 <==> s >= 2 * f
    ensures 0 < Counts(s, 1, f) <= 255 * PWM_TOP_MAX <==> FitsRegisters(s, f)
    ensures 0 < Counts(s, 1, f) <= PWM_TOP_MAX ==> Proper(s, f, 1, Counts(s, 1, f) - 1)
  {
    var n := Counts(s, 1, f);
    ThreeFloors(s, 1, f);
    Scale(n, 1, 2 * f);
    MoreThan(s, 2 * f, n, 0);
    MoreThan(s, 2 * f, n, PWM_TOP_MAX);
    MoreThan(s, 2 * f, n, 255 * PWM_TOP_MAX);
  }

  lemma SecondTry(s: nat, f: nat, d: nat)
    requires f > 0 && d >= 2 && PWM_TOP_MAX * (d - 1) < Counts(s, 1, f) <= PWM_TOP_MAX * d
    ensures 0 < Counts(s, d, f) <= PWM_TOP_MAX && Proper(s, f, d, Counts(s, d, f) - 1)
  {
    var n, c := Counts(s, 1, f), Counts(s, d, f);
    ThreeFloors(s, 1, f);
    ThreeFloors(s, d, f);
    CountsPerDivider(s, 2 * f, n, d, c);
    OneLess(s, 2 * f, n, d);
    MoreThan(s, 2 * f, n, PWM_TOP_MAX);
  }

  /** Three divisions that round down, in any order, round down once. */
  lemma ThreeFloors(s: nat, d: nat, f: nat)
    requires d > 0 && f > 0
    ensures var c := Counts(s, d, f); d * (2 * f) * c <= s < d * (2 * f) * (c + 1)
  {
    var a := s / d;
    var b := a / f;
    Floor(s, d);
    Floor(a, f);
    ComposeThree(s, d, a, f, b, b / 2);
  }

  lemma ComposeThree(s: nat, d: nat, a: nat, f: nat, b: nat, c: nat)
    requires d * a <= s < d * (a + 1) && f * b <= a < f * (b + 1) && 2 * c <= b < 2 * (c + 1)
    ensures d * (2 * f) * c <= s < d * (2 * f) * (c + 1)
  {
    Compose(s, d, a, f, b);
    Compose(s, d * f, b, 2, c);
    assert d * f * 2 == d * (2 * f);
  }

  lemma Floor(s: nat, d: nat)
    requires d > 0
    ensures d * (s / d) <= s < d * (s / d + 1)
  {
    assert s == d * (s / d) + s % d;
  }

  lemma Compose(s: nat, d: nat, a: nat, e: nat, b: nat)
    requires d * a <= s < d * (a + 1) && e * b <= a < e * (b + 1)
    ensures d * e * b <= s < d * e * (b + 1)
  {
    Scale(d, e * b, a);
    Scale(d, a + 1, e * (b + 1));
    assert d * (e * b) == d * e * b;
    assert d * (e * (b + 1)) == d * e * (b + 1);
  }

  lemma Scale(k: nat, a: int, b: int)
    requires a <= b
    ensures k * a <= k * b
  {
  }

  lemma Cancel(k: nat, a: int, b: int)
    requires k * a < k * b
    ensures a < b
  {
    if a >= b {
      Scale(k, b, a);
    }
  }

  /** The rounded-up divider brings the counts into the upper half of the counter. */
  lemma CountsPerDivider(s: nat, p: nat, n: nat, d: nat, c: nat)
    requires p > 0 && d >= 2 && PWM_TOP_MAX * (d - 1) < n <= PWM_TOP_MAX * d
    requires p * n <= s < p * (n + 1)
    requires d * p * c <= s < d * p * (c + 1)
    ensures PWM_TOP_MAX / 2 <= c <= PWM_TOP_MAX
  {
    assert d * p * c == p * (d * c);
    assert d * p * (c + 1) == p * (d * (c + 1));
    Cancel(p, d * c, n + 1);
    Cancel(p, n, d * (c + 1));
    Cancel(d, c, PWM_TOP_MAX + 1);
    assert d * (PWM_TOP_MAX / 2) <= PWM_TOP_MAX * (d - 1);
    Cancel(d, PWM_TOP_MAX / 2, c + 1);
  }

  lemma OneLess(s: nat, p: nat, n: nat, d: nat)
    requires p * n <= s && d >= 1 && PWM_TOP_MAX * (d - 1) < n
    ensures s >= (d - 1) * p * PWM_TOP_MAX
  {
    Scale(p, PWM_TOP_MAX * (d - 1), n);
    assert p * (PWM_TOP_MAX * (d - 1)) == (d - 1) * p * PWM_TOP_MAX;
  }

  lemma MoreThan(s: nat, p: nat, n: nat, k: nat)
    requires p > 0 && p * n <= s < p * (n + 1)
    ensures n > k <==> s >= p * (k + 1)
  {
    if n > k {
      Scale(p, k + 1, n);
    } else {
      Scale(p, n + 1, k + 1);
    }
  }
}
