/** The CIE 1931 lightness curve of src/lightness.c and its inverse, over the reals. The cube
    root of the code is passed in, as the c with c * c * c == y / yWhite. */
module Lightness {

  /** cie_1931_lightness. */
  function CieLightness(y: real, yWhite: real, c: real): real
    requires yWhite > 0.0 && c * c * c == y / yWhite
  {
    var x := y / yWhite;
    if x < 0.0 then 0.0
    else if x <= 0.008856 then 903.3 * x
    else if x <= 1.0 then 116.0 * c - 16.0
    else 100.0
  }

  /** cie_1931_lightness_inverse. */
  function CieInverse(l: real, yWhite: real): real
    requires yWhite > 0.0
  {
    if l < 0.0 then 0.0
    else if l <= 7.9996248 then l / 903.3 * yWhite
    else if l <= 100.0 then Cube((l + 16.0) / 116.0) * yWhite
    else yWhite
  }

  function Cube(x: real): real {
    x * x * x
  }

  lemma ScalingMonotone(a: real, b: real, m: real)
    requires a <= b && m >= 0.0
    ensures a * m <= b * m
  {
  }

  lemma SquareMonotone(a: real, b: real)
    requires 0.0 <= a <= b
    ensures 0.0 <= a * a <= b * b
  {
    ScalingMonotone(a, b, a);
    ScalingMonotone(a, b, b);
  }

  lemma CubeMonotone(a: real, b: real)
    requires 0.0 <= a <= b
    ensures Cube(a) <= Cube(b) && Cube(a) >= 0.0
  {
    SquareMonotone(a, b);
    ScalingMonotone(a * a, b * b, a);
    ScalingMonotone(a, b, b * b);
  }

  lemma CubeStrict(a: real, b: real)
    requires 0.0 <= a < b
    ensures Cube(a) < Cube(b)
  {
    SquareMonotone(a, b);
    ScalingMonotone(a * a, b * b, a);
    ProductPositive(b, b);
    ProductPositive(b - a, b * b);
  }

  lemma ProductPositive(a: real, b: real)
    requires a > 0.0 && b > 0.0
    ensures a * b > 0.0
  {
  }

  lemma CubeOfNegative(c: real)
    requires c < 0.0
    ensures Cube(c) < 0.0
  {
    assert c * c > 0.0;
  }

  /** Cube roots are unique. */
  lemma CubeRootUnique(c: real, r: real)
    requires r >= 0.0 && Cube(c) == Cube(r)
    ensures c == r
  {
    CubeMonotone(0.0, r);
    if c < 0.0 {
      CubeOfNegative(c);
    } else if c < r {
      CubeStrict(c, r);
    } else if r < c {
      CubeStrict(r, c);
    }
  }

  /** On 0 to 100 lightness undoes its inverse exactly, on both sides of the branch point. */
  lemma LightnessUndoesInverse(l: real, yWhite: real, c: real)
    requires 0.0 <= l <= 100.0 && yWhite > 0.0
    requires c * c * c == CieInverse(l, yWhite) / yWhite
    ensures CieLightness(CieInverse(l, yWhite), yWhite, c) == l
  {
    if l <= 7.9996248 {
      assert CieInverse(l, yWhite) / yWhite == l / 903.3;
    } else {
      var r := (l + 16.0) / 116.0;
      assert CieInverse(l, yWhite) / yWhite == Cube(r);
      CubeRootUnique(c, r);
      CubeMonotone(0.20689331, r);
      CubeMonotone(r, 1.0);
      assert Cube(0.20689331) > 0.008856;
    }
  }

  /** In the gap the linear branch, where the inverse takes that lightness, is below the cube. */
  lemma InTheGap(c: real)
    requires c >= 0.0 && Cube(c) > 0.008856 && 116.0 * c - 16.0 <= 7.9996248
    ensures 0.0 <= (116.0 * c - 16.0) / 903.3 < Cube(c)
  {
    if c < 0.2068 {
      BelowTheBranch(c);
    }
  }

  lemma BelowTheBranch(c: real)
    requires 0.0 <= c < 0.2068
    ensures Cube(c) < 0.008856
  {
    CubeMonotone(c, 0.2068);
    assert Cube(0.2068) < 0.008856;
  }

  /** The root of a ratio between 0 and 1 is between 0 and 1. */
  lemma RootInUnit(c: real)
    requires 0.0 <= Cube(c) <= 1.0
    ensures 0.0 <= c <= 1.0
  {
    if c < 0.0 {
      CubeOfNegative(c);
    } else if c > 1.0 {
      CubeStrict(1.0, c);
    }
  }

  lemma RatioScales(y: real, w: real)
    requires w > 0.0
    ensures y / w * w == y
    ensures 0.0 <= y <= w ==> 0.0 <= y / w <= 1.0
  {
    if 0.0 <= y <= w {
      assert y / w >= 0.0;
      assert y / w <= w / w;
    }
  }

  /** The cube piece gets to the lightness of the branch point, 7.9996248, only here. */
  const GAP_ROOT := 23.9996248 / 116.0

  lemma CompareWithGap(c: real)
    requires c >= 0.0
    ensures 116.0 * c - 16.0 > 7.9996248 <==> Cube(c) > Cube(GAP_ROOT)
    ensures 116.0 * c - 16.0 < 7.9996248 <==> Cube(c) < Cube(GAP_ROOT)
  {
    if c < GAP_ROOT {
      CubeStrict(c, GAP_ROOT);
    } else if c > GAP_ROOT {
      CubeStrict(GAP_ROOT, c);
    }
  }

  /** The two functions branch at one point, but there the curve steps down: the cube piece
      starts below the end of the linear piece. Exactly between the branch point and the ratio
      Cube(GAP_ROOT) a brighter luminance has a smaller lightness. */
  lemma LightnessDropsExactly(y: real, yWhite: real, c: real, c0: real)
    requires yWhite > 0.0 && y / yWhite > 0.008856 && c * c * c == y / yWhite
    requires c0 * c0 * c0 == 0.008856 * yWhite / yWhite
    ensures CieLightness(0.008856 * yWhite, yWhite, c0) == 7.9996248
    ensures CieLightness(y, yWhite, c) < 7.9996248 <==> y / yWhite < Cube(GAP_ROOT)
  {
    if c < 0.0 {
      CubeOfNegative(c);
    }
    CompareWithGap(c);
    assert 0.008856 * yWhite / yWhite == 0.008856;
    assert Cube(GAP_ROOT) < 1.0;
  }

  /** So the other way round a luminance comes back exactly outside that gap. */
  lemma InverseUndoesLightnessExactly(y: real, yWhite: real, c: real)
    requires yWhite > 0.0 && 0.0 <= y <= yWhite && c * c * c == y / yWhite
    ensures CieInverse(CieLightness(y, yWhite, c), yWhite) == y
            <==> y / yWhite <= 0.008856 || y / yWhite > Cube(GAP_ROOT)
  {
    var x := y / yWhite;
    RatioScales(y, yWhite);
    RootInUnit(c);
    CompareWithGap(c);
    var l := CieLightness(y, yWhite, c);
    if x <= 0.008856 {
      assert l / 903.3 == x;
    } else if l > 7.9996248 {
      assert (l + 16.0) / 116.0 == c;
    } else {
      InTheGap(c);
      ProductPositive(x - l / 903.3, yWhite);
      assert (x - l / 903.3) * yWhite == y - l / 903.3 * yWhite;
    }
  }

  /** A luminance in the gap, which does not come back. */
  lemma GapIsNotEmpty()
    ensures var c := 0.2068933; var y := Cube(c);
            CieInverse(CieLightness(y, 1.0, c), 1.0) < y
  {
    var c := 0.2068933;
    assert Cube(c) > 0.008856;
    InTheGap(c);
  }

  // ---- the level table of src/pwm.c ----

  /** The inverse for a white of luminance 1. */
  function UnitInverse(l: real): real {
    if l < 0.0 then 0.0
    else if l <= 7.9996248 then l / 903.3
    else if l <= 100.0 then Cube((l + 16.0) / 116.0)
    else 1.0
  }

  lemma InverseScales(l: real, yWhite: real)
    requires yWhite > 0.0
    ensures CieInverse(l, yWhite) == UnitInverse(l) * yWhite
  {
  }

  lemma CubeBranch(l: real)
    requires 7.9996248 < l <= 100.0
    ensures 0.008856 <= Cube((l + 16.0) / 116.0) <= 1.0
  {
    var r := (l + 16.0) / 116.0;
    CubeMonotone(0.20689331, r);
    CubeMonotone(r, 1.0);
    assert Cube(0.20689331) > 0.008856;
    assert Cube(1.0) == 1.0;
  }

  lemma UnitMonotone(l: real, l': real)
    requires l <= l'
    ensures 0.0 <= UnitInverse(l) <= UnitInverse(l') <= 1.0
  {
    if 7.9996248 < l <= 100.0 {
      CubeBranch(l);
    }
    if 7.9996248 < l' <= 100.0 {
      CubeBranch(l');
    }
    if 7.9996248 < l && l' <= 100.0 {
      CubeMonotone((l + 16.0) / 116.0, (l' + 16.0) / 116.0);
    }
  }

  /** The inverse never goes down and stays between black and white. */
  lemma InverseMonotone(l: real, l': real, yWhite: real)
    requires yWhite > 0.0 && l <= l'
    ensures 0.0 <= CieInverse(l, yWhite) <= CieInverse(l', yWhite) <= yWhite
  {
    UnitMonotone(l, l');
    InverseScales(l, yWhite);
    InverseScales(l', yWhite);
    UnitScales(UnitInverse(l), UnitInverse(l'), yWhite, CieInverse(l, yWhite), CieInverse(l', yWhite));
  }

  lemma UnitScales(u: real, u': real, yWhite: real, y: real, y': real)
    requires 0.0 <= u <= u' <= 1.0 && yWhite > 0.0 && y == u * yWhite && y' == u' * yWhite
    ensures 0.0 <= y <= y' <= yWhite
  {
    assert y >= 0.0;
    assert y' - y == (u' - u) * yWhite >= 0.0;
    assert yWhite - y' == (1.0 - u') * yWhite >= 0.0;
  }

  const LIGHTNESS_MAX := 100

  /** Entry i of pwm_lightness_map, with the CIE mapping. */
  function TableEntry(wrap: nat, i: nat): int {
    PwmLevel(wrap as real, CieInverse(i as real, LIGHTNESS_MAX as real))
  }

  /** The level of a luminance of 0 to 100, truncated like the assignment to a uint16_t. */
  function PwmLevel(wrap: real, luminance: real): int {
    (wrap * luminance / (LIGHTNESS_MAX as real)).Floor
  }

  /** calculate_pwm_lightness, with the CIE mapping. */
  method CalculatePwmLightness(wrap: nat) returns (map100: array<nat>)
    requires wrap < 0x1_0000
    ensures map100.Length == LIGHTNESS_MAX + 1
    ensures forall i :: 0 <= i <= LIGHTNESS_MAX ==> map100[i] == TableEntry(wrap, i)
    // the largest level whose share of the wrap value is not above the CIE luminance of i percent
    ensures forall i :: 0 <= i <= LIGHTNESS_MAX ==>
              map100[i] as real * 100.0 <= wrap as real * CieInverse(i as real, 100.0) < (map100[i] + 1) as real * 100.0
    // in whole numbers: up to 7 percent the luminance is i / 903.3, then the cube of (i + 16) / 116
    ensures forall i :: 0 <= i <= 7 ==> map100[i] * 9033 <= wrap * (10 * i) < (map100[i] + 1) * 9033
    ensures forall i :: 8 <= i <= LIGHTNESS_MAX ==>
              map100[i] * (116 * 116 * 116) <= wrap * ((i + 16) * (i + 16) * (i + 16)) < (map100[i] + 1) * (116 * 116 * 116)
    // levels that a uint16_t holds, from 0 to the wrap value, never going down
    ensures map100[0] == 0 && map100[LIGHTNESS_MAX] == wrap
    ensures forall i, j :: 0 <= i <= j <= LIGHTNESS_MAX ==> 0 <= map100[i] <= map100[j] <= wrap
  {
    map100 := new nat[LIGHTNESS_MAX + 1](_ => 0);
    for i := 0 to LIGHTNESS_MAX + 1
      invariant forall k :: 0 <= k < i ==> map100[k] == TableEntry(wrap, k)
    {
      var luminance := CieInverse(i as real, LIGHTNESS_MAX as real);
      TableMonotone(wrap, i, i);
      map100[i] := PwmLevel(wrap as real, luminance);
    }
    TableEnds(wrap);
    TableIsCie(wrap, map100[..]);
    forall i, j | 0 <= i <= j <= LIGHTNESS_MAX
      ensures 0 <= map100[i] <= map100[j] <= wrap
    {
      TableMonotone(wrap, i, j);
    }
  }

  lemma TableIsCie(wrap: nat, m: seq<nat>)
    requires |m| == LIGHTNESS_MAX + 1 && forall i :: 0 <= i <= LIGHTNESS_MAX ==> m[i] == TableEntry(wrap, i)
    ensures forall i :: 0 <= i <= LIGHTNESS_MAX ==>
              m[i] as real * 100.0 <= wrap as real * CieInverse(i as real, 100.0) < (m[i] + 1) as real * 100.0
    ensures forall i :: 0 <= i <= 7 ==> m[i] * 9033 <= wrap * (10 * i) < (m[i] + 1) * 9033
    ensures forall i :: 8 <= i <= LIGHTNESS_MAX ==>
              m[i] * (116 * 116 * 116) <= wrap * ((i + 16) * (i + 16) * (i + 16)) < (m[i] + 1) * (116 * 116 * 116)
  {
    forall i | 0 <= i <= LIGHTNESS_MAX
      ensures Largest(wrap, i, m[i])
      ensures i <= 7 ==> m[i] * 9033 <= wrap * (10 * i) < (m[i] + 1) * 9033
      ensures i >= 8 ==> m[i] * (116 * 116 * 116) <= wrap * ((i + 16) * (i + 16) * (i + 16)) < (m[i] + 1) * (116 * 116 * 116)
    {
      EntryIsLargest(wrap, i);
      InWholeNumbers(wrap, i, m[i]);
    }
  }

  /** `level` is the largest level whose share of the wrap value is not above the luminance. */
  ghost predicate Largest(wrap: nat, i: nat, level: int) {
    level as real * 100.0 <= wrap as real * CieInverse(i as real, 100.0) < (level + 1) as real * 100.0
  }

  lemma EntryIsLargest(wrap: nat, i: nat)
    ensures Largest(wrap, i, TableEntry(wrap, i))
  {
    FloorOfHundredth(wrap as real * CieInverse(i as real, 100.0));
  }

  lemma FloorOfHundredth(p: real)
    ensures (p / 100.0).Floor as real * 100.0 <= p < ((p / 100.0).Floor + 1) as real * 100.0
  {
  }

  /** The same without reals. */
  lemma InWholeNumbers(wrap: nat, i: nat, level: int)
    requires i <= LIGHTNESS_MAX && Largest(wrap, i, level)
    ensures i <= 7 ==> level * 9033 <= wrap * (10 * i) < (level + 1) * 9033
    ensures i >= 8 ==> level * (116 * 116 * 116) <= wrap * ((i + 16) * (i + 16) * (i + 16)) < (level + 1) * (116 * 116 * 116)
  {
    if i <= 7 {
      LinearInWhole(wrap, i);
    } else {
      CubeInWhole(wrap, i);
    }
  }

  lemma LinearInWhole(wrap: nat, i: nat)
    requires i <= 7
    ensures wrap as real * CieInverse(i as real, 100.0) * 9033.0 == (wrap * (10 * i)) as real * 100.0
  {
    var w := wrap as real;
    assert CieInverse(i as real, 100.0) * 9033.0 == i as real * 1000.0;
    assert w * CieInverse(i as real, 100.0) * 9033.0 == w * (CieInverse(i as real, 100.0) * 9033.0);
    assert (wrap * (10 * i)) as real == w * (10.0 * i as real);
  }

  lemma CubeInWhole(wrap: nat, i: nat)
    requires 8 <= i <= LIGHTNESS_MAX
    ensures wrap as real * CieInverse(i as real, 100.0) * 1560896.0 == (wrap * ((i + 16) * (i + 16) * (i + 16))) as real * 100.0
  {
    var w, n := wrap as real, i as real + 16.0;
    CubeOfQuotient(n);
    assert CieInverse(i as real, 100.0) * 1560896.0 == Cube(n) * 100.0;
    assert w * CieInverse(i as real, 100.0) * 1560896.0 == w * (CieInverse(i as real, 100.0) * 1560896.0);
    CubeAsReal(i + 16);
    ProductAsReal(wrap, (i + 16) * (i + 16) * (i + 16));
  }

  lemma CubeOfQuotient(n: real)
    ensures Cube(n / 116.0) * 1560896.0 == Cube(n)
  {
    var q := n / 116.0;
    assert n == 116.0 * q;
  }

  lemma ProductAsReal(a: int, b: int)
    ensures (a * b) as real == a as real * b as real
  {
  }

  lemma CubeAsReal(n: int)
    ensures (n * n * n) as real == Cube(n as real)
  {
    ProductAsReal(n, n);
    ProductAsReal(n * n, n);
  }

  /** So of all levels those up to entry i, and no others, are not brighter than i percent. The gap
      is in no integer's way. */
  lemma NotBrighterExactly(wrap: nat, i: nat, level: nat, l: nat, c: real)
    requires i <= LIGHTNESS_MAX && Largest(wrap, i, level)
    requires 0 < wrap && l <= wrap && c * c * c == l as real / wrap as real
    ensures CieLightness(l as real, wrap as real, c) <= i as real <==> l <= level
  {
    var x := l as real / wrap as real;
    ShareIsBelow(wrap, i, level, l);
    RatioScales(l as real, wrap as real);
    RootInUnit(c);
    LightnessOrder(x, c, i);
  }

  lemma ShareIsBelow(wrap: nat, i: nat, level: nat, l: nat)
    requires 0 < wrap && Largest(wrap, i, level)
    ensures l as real / wrap as real <= UnitInverse(i as real) <==> l <= level
  {
    var w, u := wrap as real, UnitInverse(i as real);
    InverseScales(i as real, 100.0);
    HundredfoldProduct(w, u);
    RatioOrder(l as real, w, u);
  }

  lemma HundredfoldProduct(w: real, u: real)
    ensures w * (u * 100.0) == w * u * 100.0
  {
  }

  lemma RatioOrder(l: real, w: real, u: real)
    requires w > 0.0
    ensures l / w <= u <==> l <= w * u
  {
    var x := l / w;
    assert x * w == l;
    ProductOrder(x, u, w, x * w, w * u);
  }

  lemma ProductOrder(x: real, u: real, w: real, p: real, q: real)
    requires w > 0.0 && p == x * w && q == w * u
    ensures x <= u <==> p <= q
  {
    if x <= u {
      ScalingMonotone(x, u, w);
    } else {
      ProductPositive(x - u, w);
      assert (x - u) * w == p - q;
    }
  }

  lemma LightnessOrder(x: real, c: real, i: nat)
    requires 0.0 <= x <= 1.0 && 0.0 <= c && c * c * c == x && i <= LIGHTNESS_MAX
    ensures CieLightness(x, 1.0, c) <= i as real <==> x <= UnitInverse(i as real)
  {
    var r := (i as real + 16.0) / 116.0;
    if i >= 8 {
      CubeMonotone(0.20689331, r);
      assert Cube(0.20689331) > 0.008856;
      if c < r {
        CubeStrict(c, r);
      } else if r < c {
        CubeStrict(r, c);
      }
    } else if x > 0.008856 {
      if c < 0.2068 {
        BelowTheBranch(c);
      }
    }
  }

  /** Lightness is between 0 and 100 whatever is measured: 0 below black, 100 from white on. */
  lemma LightnessInRange(y: real, yWhite: real, c: real)
    requires yWhite > 0.0 && c * c * c == y / yWhite
    ensures 0.0 <= CieLightness(y, yWhite, c) <= 100.0
    ensures y <= 0.0 ==> CieLightness(y, yWhite, c) == 0.0
    ensures y >= yWhite ==> CieLightness(y, yWhite, c) == 100.0
  {
    var x := y / yWhite;
    assert x * yWhite == y;
    if x < 0.0 {
    } else if x > 1.0 {
    } else {
      RootInUnit(c);
      if x > 0.008856 && c < 0.2068 {
        BelowTheBranch(c);
      }
      if x == 1.0 {
        CubeRootUnique(c, 1.0);
      }
    }
  }

  lemma TableMonotone(wrap: nat, i: nat, j: nat)
    requires i <= j
    ensures 0 <= TableEntry(wrap, i) <= TableEntry(wrap, j) <= wrap
  {
    InverseMonotone(i as real, j as real, LIGHTNESS_MAX as real);
    LevelMonotone(wrap as real, CieInverse(i as real, LIGHTNESS_MAX as real), CieInverse(j as real, LIGHTNESS_MAX as real));
  }

  lemma LevelMonotone(w: real, a: real, b: real)
    requires w >= 0.0 && 0.0 <= a <= b <= 100.0
    ensures 0 <= PwmLevel(w, a) <= PwmLevel(w, b) <= w.Floor
  {
    ScalingMonotone(0.0, a, w);
    ScalingMonotone(a, b, w);
    ScalingMonotone(b, 100.0, w);
    HundredthMonotone(w * a, w * b, w);
  }

  lemma HundredthMonotone(p: real, q: real, w: real)
    requires 0.0 <= p <= q <= 100.0 * w
    ensures 0.0 <= p / 100.0 <= q / 100.0 <= w
  {
  }

  lemma TableEnds(wrap: nat)
    ensures TableEntry(wrap, 0) == 0 && TableEntry(wrap, LIGHTNESS_MAX) == wrap
  {
    var w := wrap as real;
    CieEnds();
    assert w * 0.0 / 100.0 == 0.0;
    assert w * 100.0 / 100.0 == w;
  }

  lemma CieEnds()
    ensures CieInverse(0 as real, LIGHTNESS_MAX as real) == 0.0
    ensures CieInverse(LIGHTNESS_MAX as real, LIGHTNESS_MAX as real) == 100.0
  {
    assert Cube((100.0 + 16.0) / 116.0) == 1.0;
  }
}
