/**
 * The impurity measures `gini` and `classError`, over a label-count table and
 * the size of the group it counts. Scores are exact reals: the model does not
 * reproduce double rounding.
 */
module Impurity {
  import opened Data
  import opened Counting

  /** The sum over the table of (count / size)^2, accumulated as in `gini`'s loop. */
  function SquaredRatioSum(t: FreqTable, size: nat): real
    requires size > 0 || t == []
  {
    if t == [] then 0.0
    else
      var ratio := t[0].count as real / size as real;
      ratio * ratio + SquaredRatioSum(t[1..], size)
  }

  /**
   * `gini`: one minus the sum of the squared label proportions. For a group of
   * observed labels it lies in [0, 1) and is 0 exactly when the group has a
   * single label.
   */
  function Gini(t: FreqTable, size: nat): (g: real)
    requires size > 0 || t == []
    ensures IsDistribution(t, size) ==> 0.0 <= g < 1.0 && (g == 0.0 <==> |t| == 1)
  {
    assert IsDistribution(t, size) ==> 0.0 < SquaredRatioSum(t, size) <= 1.0 && (SquaredRatioSum(t, size) == 1.0 <==> |t| == 1) by {
      if IsDistribution(t, size) {
        SquaredRatioSumBounds(t, size);
      }
    }
    1.0 - SquaredRatioSum(t, size)
  }

  /** The running maximum of `classError`'s loop, started from `maxSoFar`. */
  function MaxRatio(t: FreqTable, size: nat, maxSoFar: real): (r: real)
    requires size > 0 || t == []
    ensures r >= maxSoFar
    ensures forall j :: 0 <= j < |t| ==> t[j].count as real / size as real <= r
    ensures r == maxSoFar || exists j :: 0 <= j < |t| && r == t[j].count as real / size as real
  {
    if t == [] then maxSoFar
    else
      var ratio := t[0].count as real / size as real;
      MaxRatio(t[1..], size, if ratio > maxSoFar then ratio else maxSoFar)
  }

  /**
   * `classError`: one minus the largest label proportion. The running maximum
   * starts at `Double.MIN_VALUE`, the smallest positive double, as in the source.
   */
  function ClassError(t: FreqTable, size: nat): (e: real)
    requires size > 0 || t == []
    ensures IsDistribution(t, size) ==> 0.0 <= e < 1.0 && (e == 0.0 <==> |t| == 1)
  {
    assert IsDistribution(t, size) ==> var m := MaxRatio(t, size, DoubleMinValue); 0.0 < m <= 1.0 && (m == 1.0 <==> |t| == 1) by {
      if IsDistribution(t, size) {
        MaxRatioBounds(t, size, DoubleMinValue);
      }
    }
    1.0 - MaxRatio(t, size, DoubleMinValue)
  }

  /** A table of observed labels whose counts add up to `size`: what the callers pass. */
  ghost predicate IsDistribution(t: FreqTable, size: nat)
  {
    t != [] && PositiveCounts(t) && CountSum(t) == size
  }

  /** The sum of the squared counts. */
  function SumSquares(t: FreqTable): nat
  {
    if t == [] then 0 else t[0].count * t[0].count + SumSquares(t[1..])
  }

  /** The sum of squares of positive counts is at most the square of their sum, with equality only for one count. */
  lemma {:induction false} SumSquaresBound(t: FreqTable)
    requires PositiveCounts(t)
    ensures SumSquares(t) <= CountSum(t) * CountSum(t)
    ensures |t| >= 2 ==> SumSquares(t) < CountSum(t) * CountSum(t)
    ensures t != [] ==> SumSquares(t) > 0
  {
    if t != [] {
      var c, rest := t[0].count, t[1..];
      assert PositiveCounts(rest);
      SumSquaresBound(rest);
      var s := CountSum(rest);
      assert c >= 1;
      assert (c + s) * (c + s) == c * c + 2 * c * s + s * s;
      assert c * c >= 1;
      if rest != [] {
        assert rest[0].count >= 1;
        assert s >= 1 by { CountBound(rest, 0); }
        assert c * s >= 1;
      }
    }
  }

  /** Each count is at most the total, and strictly less when another label is present. */
  lemma {:induction false} CountBound(t: FreqTable, j: nat)
    requires PositiveCounts(t) && j < |t|
    ensures t[j].count <= CountSum(t)
    ensures |t| >= 2 ==> t[j].count < CountSum(t)
  {
    assert PositiveCounts(t[1..]);
    if j == 0 {
      if |t| >= 2 {
        CountBound(t[1..], 0);
      }
    } else {
      CountBound(t[1..], j - 1);
    }
  }

  lemma FractionProduct(a: real, b: real, m: real, n: real)
    requires m > 0.0 && n > 0.0
    ensures (a / m) * (b / n) == (a * b) / (m * n)
  {
  }

  lemma AddFractions(a: real, b: real, d: real)
    requires d > 0.0
    ensures a / d + b / d == (a + b) / d
  {
  }

  lemma {:induction false} SquaredRatioSumScaled(t: FreqTable, size: nat)
    requires size > 0
    ensures SquaredRatioSum(t, size) == SumSquares(t) as real / (size * size) as real
  {
    if t != [] {
      SquaredRatioSumScaled(t[1..], size);
      var n := size as real;
      var c := t[0].count as real;
      assert (size * size) as real == n * n;
      assert (t[0].count * t[0].count) as real == c * c;
      FractionProduct(c, c, n, n);
      AddFractions(c * c, SumSquares(t[1..]) as real, n * n);
    }
  }

  lemma DivBounds(a: real, b: real)
    requires 0.0 < a <= b
    ensures 0.0 < a / b <= 1.0
    ensures a < b ==> a / b < 1.0
  {
  }

  /** The sum of the squared proportions is in (0, 1], and is 1 exactly when the group has a single label. */
  lemma SquaredRatioSumBounds(t: FreqTable, size: nat)
    requires IsDistribution(t, size)
    ensures 0.0 < SquaredRatioSum(t, size) <= 1.0
    ensures SquaredRatioSum(t, size) == 1.0 <==> |t| == 1
  {
    CountBound(t, 0);
    SumSquaresBound(t);
    SquaredRatioSumScaled(t, size);
    var n2 := (size * size) as real;
    var ss := SumSquares(t) as real;
    assert 0.0 < ss <= n2;
    DivBounds(ss, n2);
    if |t| == 1 {
      assert SumSquares(t) == size * size;
    } else {
      assert ss < n2;
    }
  }

  lemma DivSelf(a: real)
    requires a > 0.0
    ensures a / a == 1.0
  {
  }

  /** Each label proportion is in (0, 1], and below 1 when another label is present. */
  lemma RatioBounds(t: FreqTable, size: nat, j: nat)
    requires IsDistribution(t, size) && j < |t|
    ensures 0.0 < t[j].count as real / size as real <= 1.0
    ensures |t| >= 2 ==> t[j].count as real / size as real < 1.0
  {
    CountBound(t, j);
    DivBounds(t[j].count as real, size as real);
  }

  /** A running maximum started at or below `bound`, over proportions at or below `bound`, stays at or below it. */
  lemma {:induction false} MaxRatioAtMost(t: FreqTable, size: nat, maxSoFar: real, bound: real)
    requires size > 0 && maxSoFar <= bound
    requires forall j :: 0 <= j < |t| ==> t[j].count as real / size as real <= bound
    ensures MaxRatio(t, size, maxSoFar) <= bound
    ensures maxSoFar < bound && (forall j :: 0 <= j < |t| ==> t[j].count as real / size as real < bound)
      ==> MaxRatio(t, size, maxSoFar) < bound
  {
    if t != [] {
      var ratio := t[0].count as real / size as real;
      var next := if ratio > maxSoFar then ratio else maxSoFar;
      assert forall j :: 0 <= j < |t[1..]| ==> t[1..][j] == t[j + 1];
      MaxRatioAtMost(t[1..], size, next, bound);
    }
  }

  /**
   * Started from any value in (0, 1), the largest proportion is in (0, 1], and
   * is 1 exactly when the group has a single label.
   */
  lemma MaxRatioBounds(t: FreqTable, size: nat, start: real)
    requires IsDistribution(t, size) && 0.0 < start < 1.0
    ensures var m := MaxRatio(t, size, start); 0.0 < m <= 1.0 && (m == 1.0 <==> |t| == 1)
  {
    forall j | 0 <= j < |t|
      ensures 0.0 < t[j].count as real / size as real <= 1.0
      ensures |t| >= 2 ==> t[j].count as real / size as real < 1.0
    {
      RatioBounds(t, size, j);
    }
    var m := MaxRatio(t, size, start);
    MaxRatioAtMost(t, size, start, 1.0);
    assert 0.0 < t[0].count as real / size as real <= m <= 1.0;
    if |t| == 1 {
      assert t[0].count == size by { CountBound(t, 0); }
      DivSelf(size as real);
      assert t[0].count as real / size as real == 1.0;
    } else {
      assert m < 1.0;
    }
  }

  /**
   * The sum over the table of `(k * count - s)^2`: `k` times the squared
   * distances of the counts from the mean `s / k`, scaled to stay in integers.
   */
  function Deviation(t: FreqTable, k: int, s: int): int
  {
    if t == [] then 0
    else
      var d := k * t[0].count - s;
      d * d + Deviation(t[1..], k, s)
  }

  lemma ExpandStep(k: int, s: int, c: int, q: int, r: int, m: int)
    ensures (k * c - s) * (k * c - s) + (k * k * q - 2 * k * s * r + m * s * s)
      == k * k * (c * c + q) - 2 * k * s * (c + r) + (m + 1) * s * s
  {
  }

  /** Expanding the squares of `Deviation` in terms of the sum of squares and the total. */
  lemma {:induction false} DeviationExpand(t: FreqTable, k: int, s: int)
    ensures Deviation(t, k, s) == k * k * SumSquares(t) - 2 * k * s * CountSum(t) + |t| * s * s
  {
    if t != [] {
      var rest := t[1..];
      DeviationExpand(rest, k, s);
      ExpandStep(k, s, t[0].count, SumSquares(rest), CountSum(rest), |rest|);
    }
  }

  /** `Deviation` is never negative, and is 0 exactly when every `k * count` equals `s`. */
  lemma {:induction false} DeviationZero(t: FreqTable, k: int, s: int)
    ensures Deviation(t, k, s) >= 0
    ensures Deviation(t, k, s) == 0 <==> forall j :: 0 <= j < |t| ==> k * t[j].count == s
  {
    if t != [] {
      var rest := t[1..];
      DeviationZero(rest, k, s);
      var d := k * t[0].count - s;
      assert forall j :: 1 <= j < |t| ==> t[j] == rest[j - 1];
      if d != 0 {
        assert d * d > 0;
      }
    }
  }

  lemma ScaledSign(k: int, x: int, y: int)
    requires k > 0 && y == k * x
    ensures y >= 0 <==> x >= 0
    ensures y == 0 <==> x == 0
  {
    if x > 0 {
      assert k * x > 0;
    } else if x < 0 {
      assert k * (-x) > 0;
    }
  }

  lemma BalanceStep(k: int, s: int, q: int)
    ensures k * k * q - 2 * k * s * s + k * s * s == k * (k * q - s * s)
  {
  }

  /**
   * `k` counts with total `s` have a sum of squares of at least `s^2 / k`,
   * with equality exactly when every count is `s / k`.
   */
  lemma Balance(t: FreqTable)
    requires t != []
    ensures |t| * SumSquares(t) >= CountSum(t) * CountSum(t)
    ensures |t| * SumSquares(t) == CountSum(t) * CountSum(t)
      <==> forall j :: 0 <= j < |t| ==> |t| * t[j].count == CountSum(t)
  {
    var k, s, q := |t|, CountSum(t), SumSquares(t);
    DeviationExpand(t, k, s);
    DeviationZero(t, k, s);
    BalanceStep(k, s, q);
    ScaledSign(k, k * q - s * s, Deviation(t, k, s));
  }

  /**
   * The integer comparison `k * q` against `n2`, read over the reals as
   * `1 - q/n2` against `1 - 1/k`; `balanced` is the case of equality.
   */
  lemma ScoreCompare(k: nat, q: nat, n2: nat, balanced: bool)
    requires k > 0 && n2 > 0
    requires k * q >= n2 && (k * q == n2 <==> balanced)
    ensures 1.0 - q as real / n2 as real <= 1.0 - 1.0 / k as real
    ensures 1.0 - q as real / n2 as real == 1.0 - 1.0 / k as real <==> balanced
  {
    var kr, qr, nr := k as real, q as real, n2 as real;
    assert (k * q) as real == kr * qr;
    assert qr / nr - 1.0 / kr == (kr * qr - nr) / (kr * nr);
  }

  /**
   * Gini impurity over `k` labels is at most `1 - 1/k`, and reaches it exactly
   * when the labels share the group equally, each with `size / k` records.
   */
  lemma GiniAtMost(t: FreqTable, size: nat)
    requires IsDistribution(t, size)
    ensures Gini(t, size) <= 1.0 - 1.0 / |t| as real
    ensures Gini(t, size) == 1.0 - 1.0 / |t| as real
      <==> forall j :: 0 <= j < |t| ==> |t| * t[j].count == size
  {
    CountBound(t, 0);
    Balance(t);
    SquaredRatioSumScaled(t, size);
    ScoreCompare(|t|, SumSquares(t), size * size, forall j :: 0 <= j < |t| ==> |t| * t[j].count == size);
  }

  /** The reference values of the source's own check: counts 16 and 6 over a size of 20. */
  lemma ReferenceValues()
    ensures Gini([LabelCount("0", 16), LabelCount("1", 6)], 20) == 0.27
    ensures ClassError([LabelCount("0", 16), LabelCount("1", 6)], 20) == 0.2
  {
    var t := [LabelCount("0", 16), LabelCount("1", 6)];
    assert t[1..] == [LabelCount("1", 6)];
    assert t[1..][1..] == [];
  }
}
