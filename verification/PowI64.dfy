/** Power by squaring on int64_t: pow_i64 of src/util.c. */
module PowI64 {
  import Division

  const INT64_MAX := 0x7fff_ffff_ffff_ffff
  const INT64_MIN: int := -0x8000_0000_0000_0000
  const SQRT_INT64_MAX := 3037000499

  predicate Fits(v: int) {
    INT64_MIN <= v <= INT64_MAX
  }

  function Pow(x: int, y: nat): int {
    if y == 0 then 1 else x * Pow(x, y - 1)
  }

  /** How a call ends: with a value, through the overflow check (which returns 0), or with a
      product that a signed 64-bit multiplication does not define. */
  datatype Outcome = Value(v: int) | OverflowExit | Undefined

  lemma {:induction false} PowOfSquare(x: int, k: nat)
    ensures Pow(x, 2 * k) == Pow(x * x, k) && Pow(x, 2 * k + 1) == x * Pow(x * x, k)
  {
    if k > 0 {
      PowOfSquare(x, k - 1);
      var p := Pow(x * x, k - 1);
      assert Pow(x, 2 * k - 1) == x * p;
      assert Pow(x, 2 * k) == x * (x * p);
      assert x * (x * p) == (x * x) * p;
    }
  }

  lemma {:induction false} PowAtLeast(x: int, k: nat)
    requires x >= 1
    ensures Pow(x, k) >= 1 && (k >= 1 ==> Pow(x, k) >= x)
  {
    if k > 0 {
      PowAtLeast(x, k - 1);
      ProductGrows(x, Pow(x, k - 1));
    }
  }

  /** A factor of at least one keeps the sign and does not make a product smaller. */
  lemma ProductGrows(r: int, m: int)
    requires m >= 1
    ensures r >= 0 ==> r * m >= r
    ensures r <= 0 ==> r * m <= r
  {
    assert r * m == r + r * (m - 1);
  }

  lemma SquareAtLeastOne(x: int)
    requires x != 0
    ensures x * x >= 1
  {
    if x > 0 {
      ProductGrows(x, x);
    } else {
      ProductGrows(-x, -x);
      assert x * x == (-x) * (-x);
    }
  }

  /** The limit of the overflow check is exact. */
  lemma SquareFits(x: int)
    ensures Fits(x * x) <==> -SQRT_INT64_MAX <= x <= SQRT_INT64_MAX
  {
    var s: int := SQRT_INT64_MAX;
    if x > s {
      assert x * x == (s + 1) * (s + 1) + (x - s - 1) * (x + s + 1);
      NotNegative(x - s - 1, x + s + 1);
    } else if x < -s {
      assert x * x == (s + 1) * (s + 1) + (-x - s - 1) * (-x + s + 1);
      NotNegative(-x - s - 1, -x + s + 1);
    } else {
      assert x * x == s * s - (s - x) * (s + x);
      NotNegative(s - x, s + x);
      assert x * x >= 0;
    }
  }

  lemma NotNegative(a: int, b: int)
    requires a >= 0 && b >= 0
    ensures a * b >= 0
  {
  }

  /** A factor that does not fit leaves no product that fits. */
  lemma FactorMustFit(r: int, m: int)
    requires m >= 1 && !Fits(r)
    ensures !Fits(r * m)
  {
    ProductGrows(r, m);
  }

  /** Nor does a square that does not fit, times anything but zero. */
  lemma SquareMustFit(r: int, x: int, k: nat)
    requires r != 0 && k >= 1 && !Fits(x * x)
    ensures !Fits(r * Pow(x * x, k))
  {
    SquareFits(x);
    var s: int := SQRT_INT64_MAX;
    assert x * x > INT64_MAX + 1 by {
      if x > s {
        assert x * x == (s + 1) * (s + 1) + (x - s - 1) * (x + s + 1);
        NotNegative(x - s - 1, x + s + 1);
      } else {
        assert x * x == (s + 1) * (s + 1) + (-x - s - 1) * (-x + s + 1);
        NotNegative(-x - s - 1, -x + s + 1);
      }
    }
    PowAtLeast(x * x, k);
    var p := Pow(x * x, k);
    if r > 0 {
      ProductGrows(p, r);
      assert r * p == p * r;
    } else {
      ProductGrows(-p, -r);
      assert r * p == -(p * -r) == (-p) * -r;
    }
  }

  /** Taking in one bit of the exponent y, for a square x. */
  lemma OneBit(res: int, x: int, y: nat)
    requires x >= 1 && res != 0
    ensures res * Pow(x, y) == (if y % 2 == 1 then res * x else res) * Pow(x * x, y / 2)
    ensures res * x != 0
    ensures y % 2 == 1 && !Fits(res * x) ==> !Fits(res * Pow(x, y))
  {
    PowOfSquare(x, y / 2);
    SquareAtLeastOne(x);
    PowAtLeast(x * x, y / 2);
    ProductGrows(res, x);
    if y % 2 == 1 {
      OddBit(res, x, Pow(x * x, y / 2), Pow(x, y));
    }
  }

  lemma OddBit(res: int, x: int, rest: int, power: int)
    requires rest >= 1 && power == x * rest
    ensures res * power == (res * x) * rest
    ensures !Fits(res * x) ==> !Fits(res * power)
  {
    assert res * (x * rest) == (res * x) * rest;
    if !Fits(res * x) {
      FactorMustFit(res * x, rest);
    }
  }

  // ---- the loop, and exactly how it ends ----

  /** The loop of pow_i64 from base x, with y bits of exponent left and result res so far. */
  function Loop(x: int, y: nat, res: int): Outcome
    decreases y
  {
    if y == 0 then Value(res)
    else if x > SQRT_INT64_MAX then OverflowExit
    else if !Fits(x * x) then Undefined
    else if y % 2 == 1 && !Fits(res * (x * x)) then Undefined
    else Loop(x * x, y / 2, if y % 2 == 1 then res * (x * x) else res)
  }

  predicate Growing(x: int) {
    (2 <= x || x <= -2) && -SQRT_INT64_MAX <= x
  }

  /** How often x can be squared before the overflow check stops it. */
  function Squarings(x: int): (k: nat)
    requires Growing(x)
    decreases if x < 0 then SQRT_INT64_MAX + 1 else SQRT_INT64_MAX - x
  {
    if x > SQRT_INT64_MAX then 0
    else
      SquareGrows(x);
      1 + Squarings(x * x)
  }

  lemma SquareGrows(x: int)
    requires Growing(x)
    ensures Growing(x * x) && x * x > x
  {
    if x < 0 {
      assert x * x == (-x) * (-x);
      ProductGrows(-x, -x);
      assert (-x) * (-x) == (-x) + (-x) * (-x - 1);
      ProductGrows(-x - 1, -x);
    } else {
      assert x * x == x + x * (x - 1);
      ProductGrows(x - 1, x);
    }
  }

  /** That is the least k for which x to the power 2^k is beyond the check's limit. */
  lemma {:induction false} SquaringsLeast(x: int, j: nat)
    requires Growing(x)
    ensures j < Squarings(x) ==> Pow(x, Pow2(j)) <= SQRT_INT64_MAX
    ensures j == Squarings(x) ==> Pow(x, Pow2(j)) > SQRT_INT64_MAX
    decreases j
  {
    if j == 0 {
      assert Pow(x, 1) == x * Pow(x, 0);
    } else if j <= Squarings(x) {
      SquareGrows(x);
      SquaringsLeast(x * x, j - 1);
      PowOfSquare(x, Pow2(j - 1));
    }
  }

  function Pow2(k: nat): (p: nat)
    ensures p >= 1
  {
    PowAtLeast(2, k);
    Pow(2, k)
  }

  /** Halving an exponent and its remainder. */
  lemma Halved(y: nat, p: nat)
    requires p >= 1
    ensures y >= 2 * p <==> y / 2 >= p
    ensures y % (2 * p) % 2 == y % 2 && y % (2 * p) / 2 == y / 2 % p
  {
    var q, r := y / 2 / p, y / 2 % p;
    var b := y % 2;
    assert y / 2 == p * q + r;
    assert y == 2 * p * q + (2 * r + b);
    Division.RemainderUnique(y, 2 * p, q, 2 * r + b);
  }

  /** The loop goes round until the check stops it, with as many bits of the exponent taken in
      as that leaves room for, unless a product does not fit before. */
  lemma {:induction false} LoopExactly(x: int, y: nat, res: int)
    requires Growing(x) && res != 0 && Fits(res)
    ensures var p := Pow2(Squarings(x));
            Loop(x, y, res) == Ending(y < p, res * Pow(x * x, if y < p then y else y % p))
    decreases y
  {
    var k := Squarings(x);
    var p := Pow2(k);
    if y == 0 {
      assert res * Pow(x * x, 0) == res;
    } else if x > SQRT_INT64_MAX {
      assert y % p == 0;
      assert res * Pow(x * x, 0) == res;
    } else {
      SquareFits(x);
      SquareGrows(x);
      Halved(y, Pow2(k - 1));
      var left := if y < p then y else y % p;
      OneBit(res, x * x, left);
      if y % 2 == 0 {
        LoopExactly(x * x, y / 2, res);
      } else if Fits(res * (x * x)) {
        LoopExactly(x * x, y / 2, res * (x * x));
      }
    }
  }

  /** What a power that fits, or one that does not, makes of a call that reaches its end, or
      that the check stops. */
  function Ending(reached: bool, power: int): Outcome {
    if !Fits(power) then Undefined else if reached then Value(power) else OverflowExit
  }

  /** How every call ends. */
  function Outcome64(x: int, y: nat): Outcome {
    if -1 <= x <= 1 || y == 0 then Value(Pow(x, y))
    else if x < -SQRT_INT64_MAX then if y == 1 then Value(x) else Undefined
    else
      var p := 2 * Pow2(Squarings(x));
      Ending(y < p, Pow(x, if y < p then y else y % p))
  }

  lemma FromTheLoop(x: int, y: nat)
    requires Fits(x) && x != 0 && x != 1 && y > 0
    ensures Outcome64(x, y) == Loop(x, y / 2, if y % 2 == 1 then x else 1)
  {
    var res := if y % 2 == 1 then x else 1;
    if x == -1 {
      MinusOne(y);
    } else if x < -SQRT_INT64_MAX {
      SquareFits(x);
    } else {
      var p := Pow2(Squarings(x));
      var left := if y < 2 * p then y else y % (2 * p);
      Halved(y, p);
      LoopExactly(x, y / 2, res);
      PowOfSquare(x, left / 2);
      assert left == 2 * (left / 2) + y % 2;
    }
  }

  lemma MinusOne(y: nat)
    ensures var sign := if y % 2 == 1 then -1 else 1;
            Pow(-1, y) == sign && (y > 0 ==> Loop(-1, y / 2, sign) == Value(sign))
  {
    PowOfSquare(-1, y / 2);
    PowOfOne(y / 2);
    LoopOfOne(y / 4, if y % 2 == 1 then -1 else 1);
    assert y / 2 / 2 == y / 4;
  }

  lemma {:induction false} LoopOfOne(y: nat, res: int)
    requires Fits(res)
    ensures Loop(1, y, res) == Value(res)
    decreases y
  {
    if y > 0 {
      LoopOfOne(y / 2, res);
    }
  }

  /** Overflows that the check does not see: a large negative base, whose square is computed,
      and a product of powers that fit. */
  lemma UndefinedProducts()
    ensures Outcome64(-0x1_0000_0000, 2) == Undefined
    ensures Outcome64(3, 40) == Undefined
  {
    FromTheLoop(3, 40);
    LoopTwice(3, 20, 1);
    LoopTwice(81, 5, 1);
  }

  /** One that it does see. */
  lemma StoppedByTheCheck()
    ensures Outcome64(2, 64) == OverflowExit
  {
    FromTheLoop(2, 64);
    LoopTwice(2, 32, 1);
    LoopTwice(16, 8, 1);
  }

  /** Two rounds of the loop that find the next-but-one bit of the exponent clear. */
  lemma LoopTwice(x: int, y: nat, res: int)
    requires y >= 4 && 0 <= x <= 256 && res == 1 && y / 2 % 2 == 0
    ensures Loop(x, y, res) == Loop(x * x * (x * x), y / 4, if y % 2 == 1 then x * x else 1)
  {
    NotNegative(x, x);
    ProductUpTo(x, 256);
    ProductUpTo(x * x, 65536);
    assert y / 2 / 2 == y / 4;
    LoopOnce(x, y, res);
    LoopOnce(x * x, y / 2, if y % 2 == 1 then x * x else 1);
  }

  lemma ProductUpTo(x: int, m: int)
    requires 0 <= x <= m
    ensures 0 <= x * x <= m * m
  {
    NotNegative(m - x, x);
    NotNegative(m - x, m);
    NotNegative(x, x);
    assert m * m == x * x + (m - x) * x + (m - x) * m;
  }

  lemma LoopOnce(x: int, y: nat, res: int)
    requires y > 0 && x <= SQRT_INT64_MAX && Fits(x * x)
    requires y % 2 == 1 ==> Fits(res * (x * x))
    ensures Loop(x, y, res) == Loop(x * x, y / 2, if y % 2 == 1 then res * (x * x) else res)
  {
  }

  /** pow_i64. It returns the power exactly when the power fits; otherwise it takes the
      overflow exit or computes a product that is not defined, and Outcome64 says which. */
  method Compute(x0: int, y0: nat) returns (o: Outcome)
    requires Fits(x0) && y0 <= 255
    ensures o == Outcome64(x0, y0)
    ensures Fits(Pow(x0, y0)) <==> o == Value(Pow(x0, y0))
    ensures !Fits(Pow(x0, y0)) <==> o == OverflowExit || o == Undefined
  {
    if x0 == 1 || y0 == 0 {
      PowOfOne(y0);
      return Value(1);
    }
    if x0 == 0 {
      return Value(0);
    }
    FromTheLoop(x0, y0);
    var x, y := x0, y0;
    var res := if y % 2 == 1 then x else 1;
    PowOfSquare(x, y / 2);
    y := y / 2;
    while y > 0
      invariant x != 0 && res != 0 && Fits(res)
      invariant Pow(x0, y0) == res * Pow(x * x, y)
      invariant Loop(x, y, res) == Outcome64(x0, y0)
      decreases y
    {
      SquareFits(x);
      if x > SQRT_INT64_MAX {
        SquareMustFit(res, x, y);
        return OverflowExit;
      }
      if !Fits(x * x) {
        SquareMustFit(res, x, y);
        return Undefined;
      }
      SquareAtLeastOne(x);
      x := x * x;
      OneBit(res, x, y);
      if y % 2 == 1 {
        if !Fits(res * x) {
          return Undefined;
        }
        res := res * x;
      }
      y := y / 2;
    }
    return Value(res);
  }

  lemma {:induction false} PowOfOne(y: nat)
    ensures Pow(1, y) == 1
  {
    if y > 0 {
      PowOfOne(y - 1);
    }
  }
}
