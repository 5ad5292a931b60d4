/** CVSS v3.1 base scores (app/codescan/cvss.py), over the reals. */
module Cvss {

  // ------------------------------------------------------------------- rounding up

  /** Python's `round` to an integer: to the nearest one, halves to the even one. */
  function Round(x: real): int {
    var below := x.Floor;
    var rest := x - below as real;
    if rest < 0.5 || (rest == 0.5 && below % 2 == 0) then below else below + 1
  }

  function Scaled(value: real): int {
    Round(value * 100000.0)
  }

  function Roundup(value: real): real {
    var n := Scaled(value);
    if n % 10000 == 0 then n as real / 100000.0 else (n / 10000 + 1) as real / 10.0
  }

  function Tenth(k: int): real {
    k as real / 10.0
  }

  /** The number of tenths in a rounded value. */
  function Tenths(value: real): int {
    var n := Scaled(value);
    if n % 10000 == 0 then n / 10000 else n / 10000 + 1
  }

  lemma RoundOfInteger(n: int)
    ensures Round(n as real) == n
  {
  }

  /** Rounding gives a nearest integer, and of two the even one. */
  lemma RoundIsNearest(x: real)
    ensures -0.5 <= x - Round(x) as real <= 0.5
    ensures x - Round(x) as real == 0.5 || x - Round(x) as real == -0.5 ==> Round(x) % 2 == 0
  {
  }

  lemma RoundMonotone(x: real, y: real)
    requires x <= y
    ensures Round(x) <= Round(y)
  {
    assert x.Floor <= y.Floor;
  }

  /** The value as it is when rounded to five decimals. */
  function FiveDecimals(value: real): real {
    Scaled(value) as real / 100000.0
  }

  /** `Roundup` is the least number of tenths that is not below the value rounded to five decimals. */
  lemma RoundupIsLeast(value: real)
    ensures Roundup(value) == Tenth(Tenths(value))
    ensures forall k :: Tenth(k) >= FiveDecimals(value) <==> k >= Tenths(value)
  {
    var n := Scaled(value);
    if n % 10000 == 0 {
      assert n == n / 10000 * 10000;
      assert n as real == (n / 10000) as real * 10000.0;
    }
    forall k ensures Tenth(k) >= FiveDecimals(value) <==> k >= Tenths(value) {
      TenthsAgainst(k, n);
    }
  }

  lemma TenthsAgainst(k: int, n: int)
    ensures Tenth(k) >= n as real / 100000.0 <==> k * 10000 >= n
    ensures k * 10000 >= n <==> k >= if n % 10000 == 0 then n / 10000 else n / 10000 + 1
  {
    assert (k * 10000) as real == k as real * 10000.0;
    assert n == n / 10000 * 10000 + n % 10000;
  }

  lemma RoundupMonotone(x: real, y: real)
    requires x <= y
    ensures Roundup(x) <= Roundup(y)
  {
    assert x * 100000.0 <= y * 100000.0;
    RoundMonotone(x * 100000.0, y * 100000.0);
    RoundupIsLeast(x);
    RoundupIsLeast(y);
    TenthsAgainst(Tenths(y), Scaled(y));
    TenthsAgainst(Tenths(y), Scaled(x));
  }

  /** A value is kept by `Roundup` exactly when it is a number of tenths. */
  lemma KeepsTenthsExactly(value: real)
    ensures Roundup(value) == value <==> exists k :: value == Tenth(k)
  {
    RoundupIsLeast(value);
    if k :| value == Tenth(k) {
      assert value * 100000.0 == (k * 10000) as real;
      RoundOfInteger(k * 10000);
      assert Scaled(value) == k * 10000;
    }
  }

  lemma RoundupIsIdempotent(value: real)
    ensures Roundup(Roundup(value)) == Roundup(value)
  {
    RoundupIsLeast(value);
    KeepsTenthsExactly(Roundup(value));
  }

  // -------------------------------------------------------------------- the base score

  datatype Weights = Weights(av: real, ac: real, pr: real, ui: real, c: real, i: real, a: real)

  function Pow(x: real, n: nat): real {
    if n == 0 then 1.0 else x * Pow(x, n - 1)
  }

  function Iss(w: Weights): real {
    1.0 - (1.0 - w.c) * (1.0 - w.i) * (1.0 - w.a)
  }

  function ChangedImpact(iss: real): real {
    7.52 * (iss - 0.029) - 3.25 * Pow(iss - 0.02, 15)
  }

  function Impact(changed: bool, iss: real): real {
    if changed then ChangedImpact(iss) else 6.42 * iss
  }

  function Exploitability(w: Weights): real {
    8.22 * w.av * w.ac * w.pr * w.ui
  }

  function AtMostTen(x: real): real {
    if x < 10.0 then x else 10.0
  }

  function Score(changed: bool, impact: real, exploitability: real): real {
    if impact <= 0.0 then 0.0
    else if changed then Roundup(AtMostTen(1.08 * (impact + exploitability)))
    else Roundup(AtMostTen(impact + exploitability))
  }

  function BaseScore(changed: bool, w: Weights): real {
    Score(changed, Impact(changed, Iss(w)), Exploitability(w))
  }

  /** Weights between 0 and 1, as all of those in the tables are. */
  predicate InRange(w: Weights) {
    && 0.0 <= w.av <= 1.0 && 0.0 <= w.ac <= 1.0 && 0.0 <= w.pr <= 1.0 && 0.0 <= w.ui <= 1.0
    && 0.0 <= w.c <= 1.0 && 0.0 <= w.i <= 1.0 && 0.0 <= w.a <= 1.0
  }

  predicate NoLess(w: Weights, v: Weights) {
    && v.av <= w.av && v.ac <= w.ac && v.pr <= w.pr && v.ui <= w.ui && v.c <= w.c && v.i <= w.i && v.a <= w.a
  }

  lemma ProductMonotone(a: real, b: real, c: real, d: real)
    requires 0.0 <= a <= c && 0.0 <= b <= d
    ensures 0.0 <= a * b <= c * d
  {
    assert a * b <= c * b;
    assert c * b <= c * d;
  }

  lemma IssMonotone(v: Weights, w: Weights)
    requires InRange(v) && InRange(w) && NoLess(w, v)
    ensures 0.0 <= Iss(v) <= Iss(w) <= 1.0
  {
    ProductMonotone(1.0 - w.c, 1.0 - w.i, 1.0 - v.c, 1.0 - v.i);
    ProductMonotone((1.0 - w.c) * (1.0 - w.i), 1.0 - w.a, (1.0 - v.c) * (1.0 - v.i), 1.0 - v.a);
    ProductMonotone(1.0 - v.c, 1.0 - v.i, 1.0, 1.0);
    ProductMonotone((1.0 - v.c) * (1.0 - v.i), 1.0 - v.a, 1.0, 1.0);
  }

  lemma ExploitabilityMonotone(v: Weights, w: Weights)
    requires InRange(v) && InRange(w) && NoLess(w, v)
    ensures 0.0 <= Exploitability(v) <= Exploitability(w)
  {
    ProductMonotone(8.22, v.av, 8.22, w.av);
    ProductMonotone(8.22 * v.av, v.ac, 8.22 * w.av, w.ac);
    ProductMonotone(8.22 * v.av * v.ac, v.pr, 8.22 * w.av * w.ac, w.pr);
    ProductMonotone(8.22 * v.av * v.ac * v.pr, v.ui, 8.22 * w.av * w.ac * w.pr, w.ui);
  }

  lemma RoundupOfBounds()
    ensures Roundup(0.0) == 0.0 && Roundup(10.0) == 10.0
  {
    assert 0.0 == Tenth(0) && 10.0 == Tenth(100);
    KeepsTenthsExactly(0.0);
    KeepsTenthsExactly(10.0);
  }

  /** Every base score is a number of tenths from 0 to 10. */
  lemma ScoreInTenths(changed: bool, w: Weights)
    requires InRange(w)
    ensures 0.0 <= BaseScore(changed, w) <= 10.0
    ensures exists k :: 0 <= k <= 100 && BaseScore(changed, w) == Tenth(k)
  {
    ExploitabilityMonotone(w, w);
    var impact := Impact(changed, Iss(w));
    if impact <= 0.0 {
      assert BaseScore(changed, w) == Tenth(0);
    } else {
      var raw := impact + Exploitability(w);
      var value := AtMostTen(if changed then 1.08 * raw else raw);
      RoundupOfBounds();
      RoundupMonotone(0.0, value);
      RoundupMonotone(value, 10.0);
      RoundupIsLeast(value);
      assert BaseScore(changed, w) == Tenth(Tenths(value));
    }
  }

  lemma ScoreMonotone(changed: bool, impact: real, exploitability: real, impact': real, exploitability': real)
    requires impact <= impact' && 0.0 <= exploitability <= exploitability'
    ensures Score(changed, impact, exploitability) <= Score(changed, impact', exploitability')
  {
    RoundupOfBounds();
    if impact' > 0.0 {
      var x, x' := impact + exploitability, impact' + exploitability';
      if impact <= 0.0 {
        RoundupMonotone(0.0, AtMostTen(if changed then 1.08 * x' else x'));
      } else if changed {
        RoundupMonotone(AtMostTen(1.08 * x), AtMostTen(1.08 * x'));
      } else {
        RoundupMonotone(AtMostTen(x), AtMostTen(x'));
      }
    }
  }

  /** While the scope is unchanged, no weight can be raised without raising or keeping the score. */
  lemma UnchangedScopeIsMonotone(v: Weights, w: Weights)
    requires InRange(v) && InRange(w) && NoLess(w, v)
    ensures BaseScore(false, v) <= BaseScore(false, w)
  {
    IssMonotone(v, w);
    ExploitabilityMonotone(v, w);
    ScoreMonotone(false, 6.42 * Iss(v), Exploitability(v), 6.42 * Iss(w), Exploitability(w));
  }

  // -------------------------------------------------------------------- changed scope

  lemma {:induction false} PowMonotone(x: real, y: real, n: nat)
    requires 0.0 <= x <= y
    ensures 0.0 <= Pow(x, n) <= Pow(y, n)
  {
    if n > 0 {
      PowMonotone(x, y, n - 1);
      ProductMonotone(x, Pow(x, n - 1), y, Pow(y, n - 1));
    }
  }

  lemma SlopeStep(x: real, y: real, n: real, below: real, p: real, q: real)
    requires 0.0 <= x <= y && 0.0 <= q <= p && p == y * below && p - q <= n * below * (y - x)
    ensures y * p - x * q <= (n + 1.0) * p * (y - x)
  {
    var d := y - x;
    assert y * (p - q) <= y * (n * below * d);
    assert y * (n * below * d) == n * p * d;
    assert q * d <= p * d;
    assert y * p - x * q == y * (p - q) + q * d;
    assert (n + 1.0) * p * d == n * p * d + p * d;
  }

  /** A power grows no faster than its slope at the upper end. */
  lemma {:induction false} PowSlope(x: real, y: real, n: nat)
    requires 0.0 <= x <= y
    ensures Pow(y, n + 1) - Pow(x, n + 1) <= (n + 1) as real * Pow(y, n) * (y - x)
  {
    if n == 0 {
      assert Pow(y, 0) == 1.0 && Pow(x, 0) == 1.0;
    } else {
      PowSlope(x, y, n - 1);
      PowMonotone(x, y, n);
      SlopeStep(x, y, n as real, Pow(y, n - 1), Pow(y, n), Pow(x, n));
      assert (n + 1) as real == n as real + 1.0;
    }
  }

  lemma {:induction false} PowOfNegative(x: real, n: nat)
    ensures Pow(-x, 2 * n + 1) == -Pow(x, 2 * n + 1)
  {
    if n == 0 {
      assert Pow(-x, 1) == -x && Pow(x, 1) == x;
    } else {
      PowOfNegative(x, n - 1);
      assert Pow(-x, 2 * n + 1) == -x * (-x * Pow(-x, 2 * n - 1));
      assert Pow(x, 2 * n + 1) == x * (x * Pow(x, 2 * n - 1));
    }
  }

  /** The same slope serves between `-y` and `y`. */
  lemma SlopeOnBothSides(x: real, y: real, top: real)
    requires -top <= x <= y <= top
    ensures Pow(y, 15) - Pow(x, 15) <= 15.0 * Pow(top, 14) * (y - x)
  {
    if 0.0 <= x {
      SlopeBelow(x, y, top);
    } else if 0.0 <= y {
      PowOfNegative(-x, 7);
      SlopeBelow(0.0, y, top);
      SlopeBelow(0.0, -x, top);
      assert Pow(0.0, 15) == 0.0;
      assert 15.0 * Pow(top, 14) * (y - x) == 15.0 * Pow(top, 14) * (y - 0.0) + 15.0 * Pow(top, 14) * (-x - 0.0);
    } else {
      PowOfNegative(-x, 7);
      PowOfNegative(-y, 7);
      SlopeBelow(-y, -x, top);
    }
  }

  lemma SlopeBelow(x: real, y: real, top: real)
    requires 0.0 <= x <= y <= top
    ensures Pow(y, 15) - Pow(x, 15) <= 15.0 * Pow(top, 14) * (y - x)
  {
    PowSlope(x, y, 14);
    PowMonotone(y, top, 14);
    ProductMonotone(Pow(y, 14), y - x, Pow(top, 14), y - x);
  }

  /** The slope of the power term at a sub-score is at most that of the linear term. */
  predicate Gentle(iss: real) {
    48.75 * Pow(iss - 0.02, 14) <= 7.52
  }

  lemma ImpactGap(x: real, z: real)
    ensures ChangedImpact(z) - ChangedImpact(x) == 7.52 * (z - x) - 3.25 * (Pow(z - 0.02, 15) - Pow(x - 0.02, 15))
  {
  }

  /** A gap of at most, or at least, this slope times `d`, against the linear term. */
  lemma GapAgainstLinear(d: real, gap: real, slope: real)
    requires d >= 0.0
    ensures gap <= 15.0 * slope * d && 48.75 * slope <= 7.52 ==> 3.25 * gap <= 7.52 * d
    ensures gap >= 15.0 * slope * d && 48.75 * slope > 7.52 && d > 0.0 ==> 3.25 * gap > 7.52 * d
  {
    assert 3.25 * (15.0 * slope * d) == 48.75 * slope * d;
    if 48.75 * slope <= 7.52 {
      assert 48.75 * slope * d <= 7.52 * d;
    } else if d > 0.0 {
      assert 48.75 * slope * d > 7.52 * d;
    }
  }

  lemma GentleMeansMonotone(x: real, z: real, y: real)
    requires 0.04 <= y && 0.0 <= x <= z <= y && Gentle(y)
    ensures ChangedImpact(x) <= ChangedImpact(z)
  {
    SlopeOnBothSides(x - 0.02, z - 0.02, y - 0.02);
    GapAgainstLinear(z - x, Pow(z - 0.02, 15) - Pow(x - 0.02, 15), Pow(y - 0.02, 14));
    ImpactGap(x, z);
  }

  lemma SlopeStepBelow(x: real, y: real, n: real, q: real, p: real, below: real)
    requires 0.0 <= x <= y && 0.0 <= q <= p && q == x * below && p - q >= n * below * (y - x) && n >= 0.0
    ensures y * p - x * q >= (n + 1.0) * q * (y - x)
  {
    var d := y - x;
    assert x * (p - q) >= x * (n * below * d);
    assert x * (n * below * d) == n * q * d;
    assert p * d >= q * d;
    assert y * p - x * q == x * (p - q) + p * d;
    assert (n + 1.0) * q * d == n * q * d + q * d;
  }

  /** A power grows no slower than its slope at the lower end. */
  lemma {:induction false} PowSlopeBelow(x: real, y: real, n: nat)
    requires 0.0 <= x <= y
    ensures Pow(y, n + 1) - Pow(x, n + 1) >= (n + 1) as real * Pow(x, n) * (y - x)
  {
    if n == 0 {
      assert Pow(y, 0) == 1.0 && Pow(x, 0) == 1.0;
    } else {
      PowSlopeBelow(x, y, n - 1);
      PowMonotone(x, y, n);
      SlopeStepBelow(x, y, n as real, Pow(x, n), Pow(y, n), Pow(x, n - 1));
      assert (n + 1) as real == n as real + 1.0;
    }
  }

  /** A point a little below `t` where the slope is still too steep. */
  lemma SteepJustBelow(t: real) returns (u: real)
    requires t > 0.0 && 48.75 * Pow(t, 14) > 7.52
    ensures 0.0 <= u < t && 48.75 * Pow(u, 14) > 7.52
  {
    var excess, slope := 48.75 * Pow(t, 14) - 7.52, 682.5 * Pow(t, 13);
    PowMonotone(0.0, t, 13);
    assert Pow(t, 14) == t * Pow(t, 13);
    assert slope > 0.0 && excess < slope * t;
    var d := excess / (2.0 * slope);
    assert d * slope == excess / 2.0;
    assert d < t by {
      if d >= t {
        ProductMonotone(t, slope, d, slope);
      }
    }
    u := t - d;
    PowSlope(u, t, 13);
    assert 48.75 * (14.0 * Pow(t, 13) * d) == slope * d;
  }

  lemma SteepGap(u: real, t: real)
    requires 0.0 <= u < t && 48.75 * Pow(u, 14) > 7.52
    ensures 3.25 * (Pow(t, 15) - Pow(u, 15)) > 7.52 * (t - u)
  {
    PowSlopeBelow(u, t, 14);
    GapAgainstLinear(t - u, Pow(t, 15) - Pow(u, 15), Pow(u, 14));
  }

  lemma SteepMeansFalling(y: real) returns (x: real)
    requires 0.04 <= y && !Gentle(y)
    ensures 0.0 <= x < y && ChangedImpact(x) > ChangedImpact(y)
  {
    var u := SteepJustBelow(y - 0.02);
    SteepGap(u, y - 0.02);
    x := u + 0.02;
    assert x - 0.02 == u;
    ImpactGap(x, y);
  }

  /** With changed scope the impact grows with the sub-score, from 0 up to `y`, exactly when it is
    gentle at `y`. */
  lemma ChangedImpactMonotoneExactly(y: real)
    requires 0.04 <= y
    ensures Gentle(y) <==>
      forall x, z :: 0.0 <= x <= z <= y ==> ChangedImpact(x) <= ChangedImpact(z)
  {
    if Gentle(y) {
      forall x, z | 0.0 <= x <= z <= y ensures ChangedImpact(x) <= ChangedImpact(z) {
        GentleMeansMonotone(x, z, y);
      }
    } else {
      var x := SteepMeansFalling(y);
    }
  }

  /** So it grows up to 0.89; the only sub-score beyond it that vectors have is 0.914816. */
  lemma ChangedImpactMonotone(x: real, y: real)
    requires 0.0 <= x <= y <= 0.89
    ensures ChangedImpact(x) <= ChangedImpact(y)
  {
    assert Pow(0.87, 14) <= 0.15;
    GentleMeansMonotone(x, y, 0.89);
  }

  lemma ScoreBetween(impact: real, exploitability: real, tenths: int)
    requires impact > 0.0 && 10000 * tenths < Scaled(1.08 * (impact + exploitability)) <= 10000 * (tenths + 1)
    requires 1.08 * (impact + exploitability) < 10.0
    ensures Score(true, impact, exploitability) == Tenth(tenths + 1)
  {
    RoundupIsLeast(1.08 * (impact + exploitability));
  }

  /** Off the tables the score is not monotone: here raising one weight, from 0.48, which no vector
    has, lowers the score. */
  lemma ChangedScopeIsNotMonotone()
    ensures var v := Weights(0.2, 0.44, 0.68, 0.85, 0.56, 0.56, 0.48);
      BaseScore(true, v) == Tenth(71) && BaseScore(true, v.(a := 0.56)) == Tenth(70)
  {
    var v := Weights(0.2, 0.44, 0.68, 0.85, 0.56, 0.56, 0.48);
    ScoreAt(v, 0.899328, 70);
    ScoreAt(v.(a := 0.56), 0.914816, 69);
  }

  lemma ScoreAt(w: Weights, iss: real, tenths: int)
    requires (iss == 0.899328 && tenths == 70) || (iss == 0.914816 && tenths == 69)
    requires Iss(w) == iss && Exploitability(w) == 0.41810208
    ensures BaseScore(true, w) == Tenth(tenths + 1)
  {
    ImpactsOfExample(iss);
    ScoreBetween(ChangedImpact(iss), 0.41810208, tenths);
  }

  lemma ImpactsOfExample(iss: real)
    ensures iss == 0.899328 ==> 6.067 < ChangedImpact(iss) < 6.1
    ensures iss == 0.914816 ==> 6.0 < ChangedImpact(iss) < 6.058
  {
    PowersOfExample();
  }

  lemma PowersOfExample()
    ensures 0.14 <= Pow(0.879328, 15) <= 0.147 && 0.186 <= Pow(0.894816, 15) <= 0.19
  {
    assert Pow(0.879328, 15) >= 0.14;
    assert Pow(0.894816, 15) <= 0.19;
    assert Pow(0.879328, 15) <= 0.147;
    assert Pow(0.894816, 15) >= 0.186;
  }

  // ---------------------------------------------------------------------- the vectors

  datatype Level = No | Low | High

  datatype AttackVector = Network | Adjacent | Local | Physical

  datatype Vector = Vector(
    av: AttackVector, acHigh: bool, pr: Level, uiRequired: bool, changed: bool, c: Level, i: Level, a: Level)

  function AvWeight(av: AttackVector): real {
    match av
    case Network => 0.85
    case Adjacent => 0.62
    case Local => 0.55
    case Physical => 0.2
  }

  function PrWeight(pr: Level, changed: bool): real {
    match pr
    case No => 0.85
    case Low => if changed then 0.68 else 0.62
    case High => if changed then 0.5 else 0.27
  }

  function CiaWeight(level: Level): real {
    match level
    case No => 0.0
    case Low => 0.22
    case High => 0.56
  }

  function WeightsOf(v: Vector): Weights {
    Weights(AvWeight(v.av), if v.acHigh then 0.44 else 0.77, PrWeight(v.pr, v.changed),
            if v.uiRequired then 0.62 else 0.85, CiaWeight(v.c), CiaWeight(v.i), CiaWeight(v.a))
  }

  /** `calculate_base_score` of a parsed vector. */
  function CalculateBaseScore(v: Vector): real {
    BaseScore(v.changed, WeightsOf(v))
  }

  predicate AllHigh(v: Vector) {
    v.c.High? && v.i.High? && v.a.High?
  }

  lemma OthersStayBelow(v: Vector)
    ensures AllHigh(v) ==> Iss(WeightsOf(v)) == 0.914816
    ensures !AllHigh(v) ==> Iss(WeightsOf(v)) <= 0.848992
  {
    var w := WeightsOf(v);
    if !AllHigh(v) {
      var top := if !v.c.High? then w.(c := 0.22, i := 0.56, a := 0.56)
        else if !v.i.High? then w.(c := 0.56, i := 0.22, a := 0.56)
        else w.(c := 0.56, i := 0.56, a := 0.22);
      IssMonotone(w, top);
      assert Iss(top) == 0.848992;
    }
  }

  /** Among the vectors of one scope, no metric can be made worse without raising or keeping the
    score, whether the scope is changed or not. */
  lemma ScoresOfVectorsAreMonotone(v: Vector, w: Vector)
    requires v.changed == w.changed && NoLess(WeightsOf(w), WeightsOf(v))
    ensures 0.0 <= CalculateBaseScore(v) <= CalculateBaseScore(w) <= 10.0
  {
    var x, y := WeightsOf(v), WeightsOf(w);
    ScoreInTenths(v.changed, x);
    ScoreInTenths(w.changed, y);
    if v.changed {
      IssMonotone(x, y);
      ExploitabilityMonotone(x, y);
      ImpactOfVectors(v, w);
      ScoreMonotone(true, ChangedImpact(Iss(x)), Exploitability(x), ChangedImpact(Iss(y)), Exploitability(y));
    } else {
      UnchangedScopeIsMonotone(x, y);
    }
  }

  lemma PowersOfSubScores()
    ensures Pow(0.828992, 15) >= 0.05 && Pow(0.894816, 15) <= 0.19
  {
    assert Pow(0.828992, 15) >= 0.05;
    assert Pow(0.894816, 15) <= 0.19;
  }

  lemma ImpactOfVectors(v: Vector, w: Vector)
    requires 0.0 <= Iss(WeightsOf(v)) <= Iss(WeightsOf(w))
    ensures ChangedImpact(Iss(WeightsOf(v))) <= ChangedImpact(Iss(WeightsOf(w)))
  {
    OthersStayBelow(v);
    OthersStayBelow(w);
    if !AllHigh(w) {
      if !AllHigh(v) {
        ChangedImpactMonotone(Iss(WeightsOf(v)), Iss(WeightsOf(w)));
      }
    } else if !AllHigh(v) {
      ChangedImpactMonotone(Iss(WeightsOf(v)), 0.848992);
      PowersOfSubScores();
    }
  }

  // ------------------------------------------------------ metrics and published scores

  /** How bad a value of a metric is, in the order of the specification. */
  function Reach(av: AttackVector): nat {
    match av
    case Physical => 0
    case Local => 1
    case Adjacent => 2
    case Network => 3
  }

  function Degree(level: Level): nat {
    match level
    case No => 0
    case Low => 1
    case High => 2
  }

  /** `w` is at least as bad as `v` in every metric: it reaches at least as far, needs no more luck,
    privileges or help, and harms no less. */
  predicate AsBad(w: Vector, v: Vector) {
    && Reach(v.av) <= Reach(w.av) && (w.acHigh ==> v.acHigh) && Degree(w.pr) <= Degree(v.pr)
    && (w.uiRequired ==> v.uiRequired)
    && Degree(v.c) <= Degree(w.c) && Degree(v.i) <= Degree(w.i) && Degree(v.a) <= Degree(w.a)
  }

  /** Of two vectors of one scope, one that is at least as bad in every metric scores no less. */
  lemma WorseMetricsScoreNoLess(v: Vector, w: Vector)
    requires v.changed == w.changed && AsBad(w, v)
    ensures CalculateBaseScore(v) <= CalculateBaseScore(w)
  {
    ScoresOfVectorsAreMonotone(v, w);
  }

  lemma UnchangedScoreIs(v: Vector, iss: real, exploitability: real, tenths: int)
    requires !v.changed && Iss(WeightsOf(v)) == iss > 0.0 && Exploitability(WeightsOf(v)) == exploitability
    requires 6.42 * iss + exploitability < 10.0
    requires 10000 * (tenths - 1) < Scaled(6.42 * iss + exploitability) <= 10000 * tenths
    ensures CalculateBaseScore(v) == Tenth(tenths)
  {
    RoundupIsLeast(6.42 * iss + exploitability);
  }

  lemma ChangedScoreIs(v: Vector, iss: real, exploitability: real, tenths: int)
    requires v.changed && Iss(WeightsOf(v)) == iss && Exploitability(WeightsOf(v)) == exploitability
    requires ChangedImpact(iss) > 0.0 && 1.08 * (ChangedImpact(iss) + exploitability) < 10.0
    requires 10000 * (tenths - 1) < Scaled(1.08 * (ChangedImpact(iss) + exploitability)) <= 10000 * tenths
    ensures CalculateBaseScore(v) == Tenth(tenths)
  {
    RoundupIsLeast(1.08 * (ChangedImpact(iss) + exploitability));
  }

  /** Scores of some vectors under the specification. */
  lemma PublishedScore1()
    ensures CalculateBaseScore(Vector(Network, false, No, false, false, High, High, High)) == 9.8
  {
    UnchangedScoreIs(Vector(Network, false, No, false, false, High, High, High), 0.914816, 3.887042775, 98);
  }

  lemma PublishedScore2()
    ensures CalculateBaseScore(Vector(Local, false, Low, false, false, High, High, High)) == 7.8
  {
    UnchangedScoreIs(Vector(Local, false, Low, false, false, High, High, High), 0.914816, 1.83457659, 78);
  }

  lemma PublishedScore3()
    ensures CalculateBaseScore(Vector(Network, true, No, false, false, No, No, High)) == 5.9
  {
    UnchangedScoreIs(Vector(Network, true, No, false, false, No, No, High), 0.56, 2.2211673, 59);
  }

  lemma PublishedScore4()
    ensures CalculateBaseScore(Vector(Adjacent, false, High, true, false, High, Low, No)) == 4.9
  {
    UnchangedScoreIs(Vector(Adjacent, false, High, true, false, High, Low, No), 0.6568, 0.6569157672, 49);
  }

  lemma PublishedScore5()
    ensures CalculateBaseScore(Vector(Physical, true, Low, true, false, High, No, No)) == 3.9
  {
    UnchangedScoreIs(Vector(Physical, true, Low, true, false, High, No, No), 0.56, 0.278059584, 39);
  }

  lemma PublishedScore6()
    ensures CalculateBaseScore(Vector(Network, true, High, true, false, No, High, Low)) == 4.8
  {
    UnchangedScoreIs(Vector(Network, true, High, true, false, No, High, Low), 0.6568, 0.514634472, 48);
  }

  lemma HighestScore()
    ensures CalculateBaseScore(Vector(Network, false, No, false, true, High, High, High)) == 10.0
  {
    PowersOfSubScores();
    RoundupOfBounds();
    ImpactIs(0.914816, 0.894816, Pow(0.894816, 15));
    TenIfMore(Vector(Network, false, No, false, true, High, High, High), 0.914816, 3.887042775);
  }

  lemma TenIfMore(v: Vector, iss: real, exploitability: real)
    requires v.changed && Iss(WeightsOf(v)) == iss && Exploitability(WeightsOf(v)) == exploitability
    requires ChangedImpact(iss) > 0.0 && 1.08 * (ChangedImpact(iss) + exploitability) >= 10.0
    ensures CalculateBaseScore(v) == 10.0
  {
    RoundupOfBounds();
  }

  /** Without impact on confidentiality, integrity and availability there is no score. */
  lemma NoImpactNoScore(v: Vector)
    requires v.c == No && v.i == No && v.a == No
    ensures CalculateBaseScore(v) == 0.0
  {
    assert Iss(WeightsOf(v)) == 0.0;
    PowerOfNoImpact();
    ImpactIs(0.0, -0.02, Pow(-0.02, 15));
  }

  lemma SmallPower()
    ensures Pow(0.02, 15) <= 0.001
  {
    assert Pow(0.02, 15) <= 0.001;
  }

  lemma PowerOfNoImpact()
    ensures Pow(-0.02, 15) >= -0.001
  {
    SmallPower();
    PowOfNegative(0.02, 7);
  }

  lemma PublishedScore7()
    ensures CalculateBaseScore(Vector(Network, false, No, true, true, Low, Low, No)) == 6.1
  {
    PowerBetween1();
    ImpactIs(0.3916, 0.3716, Pow(0.3716, 15));
    ChangedScoreIs(Vector(Network, false, No, true, true, Low, Low, No), 0.3916, 2.83525473, 61);
  }

  lemma PowerBetween1()
    ensures 0.0 <= Pow(0.3716, 15) <= 0.000001
  {
    assert 0.0 <= Pow(0.3716, 15);
    assert Pow(0.3716, 15) <= 0.000001;
  }

  lemma PublishedScore8()
    ensures CalculateBaseScore(Vector(Network, false, Low, false, true, High, High, No)) == 9.6
  {
    PowerBetween2();
    ImpactIs(0.8064, 0.7864, Pow(0.7864, 15));
    ChangedScoreIs(Vector(Network, false, Low, false, true, High, High, No), 0.8064, 3.10963422, 96);
  }

  lemma PowerBetween2()
    ensures 0.0272 <= Pow(0.7864, 15) <= 0.02721
  {
    assert 0.0272 <= Pow(0.7864, 15);
    assert Pow(0.7864, 15) <= 0.02721;
  }

  lemma PublishedScore9()
    ensures CalculateBaseScore(Vector(Physical, false, High, false, true, Low, No, No)) == 2.2
  {
    PowerBetween3();
    ImpactIs(0.22, 0.2, Pow(0.2, 15));
    ChangedScoreIs(Vector(Physical, false, High, false, true, Low, No, No), 0.22, 0.537999, 22);
  }

  lemma PowerBetween3()
    ensures 0.0 <= Pow(0.2, 15) <= 0.000001
  {
    assert 0.0 <= Pow(0.2, 15);
    assert Pow(0.2, 15) <= 0.000001;
  }

  lemma ImpactIs(iss: real, u: real, power: real)
    requires u == iss - 0.02 && power == Pow(u, 15)
    ensures ChangedImpact(iss) == 7.52 * (iss - 0.029) - 3.25 * power
  {
  }
}
