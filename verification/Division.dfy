/** Integer division and the interpolation pwm * d / len that the light effects share. */
module Division {

  /** Integer division as counting, so that the solver meets no quotient of variables. */
  function Quotient(a: nat, c: nat): nat
    requires c > 0
  {
    if a < c then 0 else 1 + Quotient(a - c, c)
  }

  lemma {:induction false} QuotientIsDivision(a: nat, c: nat)
    requires c > 0
    ensures Quotient(a, c) == a / c
  {
    if a < c {
      QuotientUnique(a, c, 0, a);
    } else {
      QuotientIsDivision(a - c, c);
      var q, r := (a - c) / c, (a - c) % c;
      assert a - c == c * q + r;
      assert a == c * (q + 1) + r;
      QuotientUnique(a, c, q + 1, r);
    }
  }

  lemma QuotientUnique(a: nat, c: nat, q: nat, r: nat)
    requires c > 0 && a == c * q + r && r < c
    ensures a / c == q
  {
    var q', r' := a / c, a % c;
    assert a == c * q' + r';
    assert c * (q' - q) == c * q' - c * q;
    ProductAtLeast(c, q' - q);
  }

  lemma RemainderUnique(a: nat, c: nat, q: nat, r: nat)
    requires c > 0 && a == c * q + r && r < c
    ensures a % c == r
  {
    QuotientUnique(a, c, q, r);
  }

  lemma ProductAtLeast(c: int, k: int)
    requires c > 0
    ensures k >= 1 ==> c * k >= c
    ensures k <= -1 ==> c * k <= -c
  {
    assert c * k == c + c * (k - 1) == -c + c * (k + 1);
  }

  lemma {:induction false} QuotientMonotone(a: nat, b: nat, c: nat)
    requires a <= b && c > 0
    ensures Quotient(a, c) <= Quotient(b, c)
  {
    if a >= c {
      QuotientMonotone(a - c, b - c, c);
    }
  }

  lemma {:induction false} QuotientOfMultiple(q: nat, c: nat)
    requires c > 0
    ensures Quotient(q * c, c) == q
  {
    if q > 0 {
      assert q * c == (q - 1) * c + c;
      QuotientOfMultiple(q - 1, c);
    }
  }

  /** pwm * d / len, for d below len. */
  function Scaled(pwm: nat, d: nat, len: nat): (r: nat)
    requires d < len
    ensures r <= pwm
  {
    ScaledBelow(pwm, d, len);
    Quotient(pwm * d, len)
  }

  lemma ScaledBelow(pwm: nat, d: nat, len: nat)
    requires d < len
    ensures Quotient(pwm * d, len) <= pwm
  {
    ProductMonotone(pwm, d, len);
    QuotientMonotone(pwm * d, pwm * len, len);
    QuotientOfMultiple(pwm, len);
  }

  lemma ProductMonotone(p: nat, d: nat, d': nat)
    requires d <= d'
    ensures p * d <= p * d'
  {
  }

  lemma ScaledMonotone(pwm: nat, d: nat, d': nat, len: nat)
    requires d <= d' < len
    ensures Scaled(pwm, d, len) <= Scaled(pwm, d', len)
  {
    ProductMonotone(pwm, d, d');
    QuotientMonotone(pwm * d, pwm * d', len);
  }

  lemma {:induction false} QuotientFloor(a: nat, c: nat)
    requires c > 0
    ensures Quotient(a, c) * c <= a < (Quotient(a, c) + 1) * c
  {
    if a < c {
    } else {
      QuotientFloor(a - c, c);
      assert Quotient(a, c) * c == Quotient(a - c, c) * c + c;
      assert (Quotient(a, c) + 1) * c == (Quotient(a - c, c) + 1) * c + c;
    }
  }

  /** The ramp is the straight line from 0 to pwm over len, rounded down. */
  lemma RampIsLinear(pwm: nat, d: nat, len: nat)
    requires d < len
    ensures Scaled(pwm, d, len) * len <= pwm * d < (Scaled(pwm, d, len) + 1) * len
  {
    QuotientFloor(pwm * d, len);
  }

  /** The interpolation as the code computes it. */
  method Interpolate(pwm: nat, d: nat, len: nat) returns (r: nat)
    requires d < len
    ensures r == Scaled(pwm, d, len)
  {
    QuotientIsDivision(pwm * d, len);
    r := pwm * d / len;
  }
}
