/**
 * The single-experiment runner: request validation, the row-count guard,
 * the informational backtest on the test split, the evaluation metrics,
 * the uncertainty adjustment and the forward prediction's 95% interval.
 *
 * The trained network is a parameter `model: seq<real> -> real` mapping a
 * standardized feature vector to a predicted 12-month return.
 */
module Experiment {
  import opened Numeric
  import opened Features
  import opened Frames
  import opened Shared
  import opened Backtest

  // -------------------------------------------------------- run_backtest

  /** `price.pct_change()` over the test frame: missing on its first row. */
  function DailyReturns(price: seq<real>): (r: seq<Option<real>>)
    ensures |r| == |price|
  {
    seq(|price|, t requires 0 <= t < |price| => ReturnAt(price[..t + 1]))
  }

  /** On positive prices the daily return is missing on the first row only. */
  lemma DailyReturnsValue(price: seq<real>, t: nat)
    requires AllPositive(price) && t < |price|
    ensures DailyReturns(price)[t] == if t == 0 then None else Some(price[t] / price[t - 1] - 1.0)
  {
    var h := price[..t + 1];
    if t > 0 {
      assert Last(h) == price[t] && h[|h| - 2] == price[t - 1];
      assert price[t - 1] > 0.0;
    }
  }

  /** The four numbers `run_backtest` reports; a missing value is a NaN. */
  datatype BacktestSummary = BacktestSummary(
    sharpe: real, maxDrawdown: Option<real>, cagr: real, totalReturn: Option<real>)

  /** The all-zero summary for fewer than two equity points. */
  const NoSummary: BacktestSummary := BacktestSummary(0.0, Some(0.0), 0.0, Some(0.0))

  /**
   * `run_backtest`: the strategy of `backtest` driven by the test rows' own
   * daily returns, then the metrics of the defined net returns and equity
   * points.
   */
  function BacktestSummaryOf(pred: seq<real>, price: seq<real>, sqrt: real -> real,
                             pow: (real, real) -> real): BacktestSummary
    requires |pred| == |price|
  {
    var s := Simulated(pred, DailyReturns(price));
    var rets := DropMissing(s.net);
    var equity := DropMissing(s.equity);
    if |equity| < 2 then NoSummary
    else
      var m := Performance(rets, equity, sqrt, pow);
      BacktestSummary(m.sharpe, m.maxDrawdown, m.cagr, m.totalReturn)
  }

  /** `run_backtest`: the strategy columns and the running peak filled in by loops. */
  method RunBacktest(pred: seq<real>, price: seq<real>, sqrt: real -> real,
                     pow: (real, real) -> real) returns (m: BacktestSummary)
    requires |pred| == |price|
    ensures m == BacktestSummaryOf(pred, price, sqrt, pow)
  {
    var s := RunStrategy(pred, DailyReturns(price));
    var rets := DropMissing(s.net);
    var equity := DropMissing(s.equity);
    if |equity| < 2 {
      return NoSummary;
    }
    var perf := Performance(rets, equity, sqrt, pow);
    var maxDd := MaxDrawdown(equity);
    m := BacktestSummary(perf.sharpe, maxDd, perf.cagr, perf.totalReturn);
  }

  /**
   * On positive prices the first row's net return and equity are missing and
   * every later row's are defined, so `dropna` removes exactly the first row.
   */
  lemma BacktestDropsFirstRow(pred: seq<real>, price: seq<real>)
    requires |pred| == |price| > 0 && AllPositive(price)
    ensures var s := Simulated(pred, DailyReturns(price));
      s.net[0].None? && s.equity[0].None? &&
      AllSome(s.net[1..]) && AllSome(s.equity[1..]) &&
      DropMissing(s.net) == Values(s.net[1..]) &&
      DropMissing(s.equity) == Values(s.equity[1..])
  {
    var ret := DailyReturns(price);
    var s := Simulated(pred, ret);
    forall t | 0 <= t < |price| ensures s.net[t].Some? <==> t > 0 {
      DailyReturnsValue(price, t);
      NetReturnValue(pred, ret, t);
    }
    assert forall t :: 0 <= t < |price| ==> (s.equity[t].Some? <==> t > 0);
    assert AllSome(s.net[1..]) && AllSome(s.equity[1..]) by {
      assert forall i :: 0 <= i < |price| - 1 ==> s.net[1..][i] == s.net[i + 1] && s.equity[1..][i] == s.equity[i + 1];
    }
    DropMissingAfterFirst(s.net);
    DropMissingAfterFirst(s.equity);
  }

  /** Fewer than three test rows leave fewer than two equity points: every metric is 0. */
  lemma ShortBacktestIsFlat(pred: seq<real>, price: seq<real>, sqrt: real -> real, pow: (real, real) -> real)
    requires |pred| == |price| && AllPositive(price) && |price| < 3
    ensures BacktestSummaryOf(pred, price, sqrt, pow) == NoSummary
  {
    if |price| > 0 {
      BacktestDropsFirstRow(pred, price);
    }
  }

  /** A curve whose first row is missing starts at the second row's growth factor and ends at the whole growth. */
  lemma EquityFromSecondRow(net: seq<Option<real>>)
    requires |net| >= 2 && net[0].None? && AllSome(net[1..])
    ensures AllSome(CumProd(net)[1..])
    ensures var e := Values(CumProd(net)[1..]); e[0] == Factor(net[1]) && e[|e| - 1] == Growth(net)
  {
    var n := |net|;
    var e := CumProd(net);
    forall i | 0 <= i < n - 1 ensures e[1..][i].Some? {
      assert net[1..][i] == net[i + 1];
    }
    assert Growth(net[..1]) == 1.0 by {
      GrowthStep(net, 0);
      assert net[..0] == [];
    }
    GrowthStep(net, 1);
    assert e[1] == Some(Growth(net[..2]));
    assert net[..n] == net;
    assert e[n - 1] == Some(Growth(net));
  }

  /**
   * With three test rows or more the total return is measured from the first
   * defined equity point, the close of the second row: it compounds the net
   * returns of rows 2 onwards and leaves out row 1's.
   */
  lemma BacktestTotalReturnFromFirstPoint(pred: seq<real>, price: seq<real>, sqrt: real -> real,
                                          pow: (real, real) -> real)
    requires |pred| == |price| >= 3 && AllPositive(price)
    ensures var s := Simulated(pred, DailyReturns(price));
      BacktestSummaryOf(pred, price, sqrt, pow).totalReturn == MinusOne(Quot(Growth(s.net), Factor(s.net[1])))
  {
    var s := Simulated(pred, DailyReturns(price));
    BacktestDropsFirstRow(pred, price);
    EquityFromSecondRow(s.net);
  }

  // -------------------------------------------------------- test metrics

  function Residuals(y: seq<real>, p: seq<real>): (e: seq<real>)
    requires |y| == |p|
    ensures |e| == |y| && forall i :: 0 <= i < |y| ==> e[i] == y[i] - p[i]
  {
    seq(|y|, i requires 0 <= i < |y| => y[i] - p[i])
  }

  /** `np.sum((y - y.mean()) ** 2)`; for no rows numpy gives NaN, which fails `> 0` just as 0 does. */
  function TotalSquares(y: seq<real>): real
  {
    if |y| == 0 then 0.0 else SumSquaredDeviations(y)
  }

  /** R²: `1 - ss_res / ss_tot`, or 0 when the targets do not vary. */
  function R2(y: seq<real>, p: seq<real>): real
    requires |y| == |p|
  {
    var ssTot := TotalSquares(y);
    if ssTot > 0.0 then 1.0 - Sum(Squares(Residuals(y, p))) / ssTot else 0.0
  }

  datatype TestScores = TestScores(r2: real, mse: Option<real>)

  /** `compute_test_metrics`; the MSE of no rows is NaN. */
  function TestMetrics(y: seq<real>, p: seq<real>): TestScores
    requires |y| == |p|
  {
    TestScores(R2(y, p), Mean(Squares(Residuals(y, p))))
  }

  /** The targets vary exactly when the total sum of squares is positive. */
  lemma TotalSquaresPositiveIff(y: seq<real>)
    ensures TotalSquares(y) >= 0.0
    ensures TotalSquares(y) > 0.0 <==> exists i :: 0 <= i < |y| && y[i] != y[0]
  {
    if |y| > 0 {
      VarianceZeroIffConstant(y);
    }
  }

  /**
   * The MSE is defined on a non-empty test set and never negative; R² is at
   * most 1, is 0 for constant targets, and on varying targets is 1 exactly
   * when every prediction is exact.
   */
  lemma TestMetricsBounds(y: seq<real>, p: seq<real>)
    requires |y| == |p|
    ensures var m := TestMetrics(y, p);
      (m.mse.Some? <==> |y| > 0) &&
      (m.mse.Some? ==> m.mse.value >= 0.0) &&
      m.r2 <= 1.0 &&
      ((forall i :: 0 <= i < |y| ==> y[i] == y[0]) ==> m.r2 == 0.0) &&
      ((exists i :: 0 <= i < |y| && y[i] != y[0]) ==> (m.r2 == 1.0 <==> y == p))
  {
    var e := Residuals(y, p);
    var sq := Squares(e);
    forall i | 0 <= i < |sq| ensures sq[i] >= 0.0 {
      SquareNonNegative(e[i], sq[i]);
    }
    if |y| > 0 {
      MeanNonNegative(sq);
    }
    TotalSquaresPositiveIff(y);
    SumSquaresNonNegative(e);
    SumSquaresZeroIff(e);
    var ssTot := TotalSquares(y);
    if ssTot > 0.0 {
      var ssRes := Sum(sq);
      assert ssRes / ssTot >= 0.0;
      ZeroQuotient(ssRes, ssTot);
      if y == p {
        assert forall i :: 0 <= i < |e| ==> e[i] == 0.0;
      }
      if ssRes == 0.0 {
        assert forall i :: 0 <= i < |y| ==> y[i] == p[i] by {
          assert forall i :: 0 <= i < |e| ==> e[i] == 0.0;
        }
      }
    }
  }

  // -------------------------------------------------- prediction metrics

  /** `(y_true > 0) == (y_pred > 0)` row by row. */
  function SignAgreement(y: seq<real>, p: seq<real>): (a: seq<bool>)
    requires |y| == |p|
    ensures |a| == |y| && forall i :: 0 <= i < |y| ==> (a[i] <==> (y[i] > 0.0 <==> p[i] > 0.0))
  {
    seq(|y|, i requires 0 <= i < |y| => (y[i] > 0.0) == (p[i] > 0.0))
  }

  /** The mean of a boolean array: the fraction of `true` entries, NaN when empty. */
  function Fraction(bs: seq<bool>): (r: Option<real>)
    ensures r.Some? <==> |bs| > 0
  {
    if |bs| == 0 then None else Some(Count(bs) as real / |bs| as real)
  }

  function AbsErrors(y: seq<real>, p: seq<real>): (e: seq<real>)
    requires |y| == |p|
    ensures |e| == |y| && forall i :: 0 <= i < |y| ==> e[i] == Abs(y[i] - p[i])
  {
    seq(|y|, i requires 0 <= i < |y| => Abs(y[i] - p[i]))
  }

  datatype PredictionScores = PredictionScores(
    directionAccuracy: Option<real>, mae: Option<real>, calibrationRatio: real)

  /** `pred_std / true_std`, or 0 when the targets do not vary. */
  function CalibrationRatio(y: seq<real>, p: seq<real>, sqrt: real -> real): real
    requires |y| == |p|
  {
    var trueStd := Std(y, sqrt);
    if trueStd.Some? && trueStd.value > 0.0 then Std(p, sqrt).value / trueStd.value else 0.0
  }

  /** `compute_prediction_metrics`. */
  function PredictionMetrics(y: seq<real>, p: seq<real>, sqrt: real -> real): PredictionScores
    requires |y| == |p|
  {
    PredictionScores(Fraction(SignAgreement(y, p)), Mean(AbsErrors(y, p)), CalibrationRatio(y, p, sqrt))
  }

  lemma QuotientAtMostOne(c: real, n: real)
    requires 0.0 <= c <= n && n > 0.0
    ensures 0.0 <= c / n <= 1.0 && (c / n == 1.0 <==> c == n)
  {
    var q := c / n;
    assert q * n == c;
    if q > 1.0 {
      ProductPositive(q - 1.0, n, (q - 1.0) * n);
    }
    if q < 0.0 {
      ProductPositive(-q, n, -q * n);
    }
  }

  /** A fraction of agreeing rows lies in [0, 1]; it is 1 exactly when all rows agree and 0 when none do. */
  lemma FractionBounds(bs: seq<bool>)
    requires |bs| > 0
    ensures var f := Fraction(bs).value;
      0.0 <= f <= 1.0 &&
      (f == 1.0 <==> forall i :: 0 <= i < |bs| ==> bs[i]) &&
      (f == 0.0 <==> forall i :: 0 <= i < |bs| ==> !bs[i])
  {
    var n := |bs| as real;
    var c := Count(bs) as real;
    CountExtremes(bs);
    QuotientAtMostOne(c, n);
    ZeroQuotient(c, n);
  }

  /** Population std of `xs` is zero exactly when `xs` is constant. */
  lemma StdZeroIff(xs: seq<real>, sqrt: real -> real)
    requires IsSqrt(sqrt) && |xs| > 0
    ensures Std(xs, sqrt).value >= 0.0
    ensures Std(xs, sqrt).value == 0.0 <==> forall i :: 0 <= i < |xs| ==> xs[i] == xs[0]
  {
    VarianceZeroIffConstant(xs);
    var ssd := SumSquaredDeviations(xs);
    var n := |xs| as real;
    assert ssd / n >= 0.0;
    ZeroQuotient(ssd, n);
    SqrtZeroIff(sqrt, ssd / n);
  }

  /** On a non-empty test set the direction accuracy is in [0, 1], and 1 exactly when every predicted sign matches. */
  lemma DirectionAccuracyBounds(y: seq<real>, p: seq<real>, sqrt: real -> real)
    requires |y| == |p| > 0
    ensures var a := PredictionMetrics(y, p, sqrt).directionAccuracy;
      a.Some? && 0.0 <= a.value <= 1.0 &&
      (a.value == 1.0 <==> forall i :: 0 <= i < |y| ==> (y[i] > 0.0 <==> p[i] > 0.0)) &&
      (a.value == 0.0 <==> forall i :: 0 <= i < |y| ==> (y[i] > 0.0 <==> p[i] <= 0.0))
  {
    FractionBounds(SignAgreement(y, p));
  }

  /** On a non-empty test set the MAE is non-negative, and 0 exactly when every prediction is exact. */
  lemma MaeBounds(y: seq<real>, p: seq<real>, sqrt: real -> real)
    requires |y| == |p| > 0
    ensures var m := PredictionMetrics(y, p, sqrt).mae;
      m.Some? && m.value >= 0.0 && (m.value == 0.0 <==> y == p)
  {
    var e := AbsErrors(y, p);
    MeanNonNegative(e);
    MeanZeroIff(e);
    if forall i :: 0 <= i < |e| ==> e[i] == 0.0 {
      assert forall i :: 0 <= i < |y| ==> y[i] == p[i];
    }
  }

  /**
   * The calibration ratio is non-negative, 0 for constant targets, and for
   * varying targets 0 exactly when the predictions are constant.
   */
  lemma CalibrationRatioBounds(y: seq<real>, p: seq<real>, sqrt: real -> real)
    requires IsSqrt(sqrt) && |y| == |p| > 0
    ensures var c := PredictionMetrics(y, p, sqrt).calibrationRatio;
      c >= 0.0 &&
      ((forall i :: 0 <= i < |y| ==> y[i] == y[0]) ==> c == 0.0) &&
      ((exists i :: 0 <= i < |y| && y[i] != y[0]) ==> (c == 0.0 <==> forall i :: 0 <= i < |p| ==> p[i] == p[0]))
  {
    var ts := Std(y, sqrt).value;
    var ps := Std(p, sqrt).value;
    assert ts >= 0.0 && (ts == 0.0 <==> forall i :: 0 <= i < |y| ==> y[i] == y[0]) by {
      StdZeroIff(y, sqrt);
    }
    assert ps >= 0.0 && (ps == 0.0 <==> forall i :: 0 <= i < |p| ==> p[i] == p[0]) by {
      StdZeroIff(p, sqrt);
    }
    if ts > 0.0 {
      ZeroQuotient(ps, ts);
      assert ps / ts >= 0.0;
    }
  }

  // ---------------------------------------------- non-overlapping windows

  /** Python's `range(start, n, h)` for a positive step. */
  function Range(start: nat, n: nat, h: Window): (r: seq<nat>)
    ensures forall i :: 0 <= i < |r| ==> start <= r[i] < n
    decreases if start < n then n - start else 0
  {
    if start >= n then [] else [start] + Range(start + h, n, h)
  }

  lemma MulStep(i: int, h: int)
    ensures (i - 1) * h + h == i * h && (i + 1) * h == i * h + h
  {
  }

  lemma MulMonotone(a: int, b: int, h: nat)
    requires a <= b
    ensures a * h <= b * h
  {
    assert b * h - a * h == (b - a) * h;
  }

  /** The sampled rows are `start, start + h, ...`, and their count is the ceiling of `(n - start) / h`. */
  lemma {:induction false} RangeContents(start: nat, n: nat, h: Window)
    ensures var r := Range(start, n, h);
      (forall i :: 0 <= i < |r| ==> r[i] == start + i * h) &&
      (start < n ==> (|r| - 1) * h < n - start <= |r| * h) &&
      (start >= n ==> |r| == 0)
    decreases if start < n then n - start else 0
  {
    if start < n {
      RangeContents(start + h, n, h);
      var r := Range(start, n, h);
      var r' := Range(start + h, n, h);
      assert |r| == |r'| + 1;
      forall i | 0 < i < |r| ensures r[i] == start + i * h {
        assert r[i] == r'[i - 1] == start + h + (i - 1) * h;
        MulStep(i, h);
      }
      MulStep(|r'|, h);
    }
  }

  lemma MultipleDivMod(k: nat, h: Window)
    ensures (k * h) / h == k && (k * h) % h == 0
  {
    var q := (k * h) / h;
    var m := (k * h) % h;
    assert (k - q) * h == m;
    ZeroMultiplier(k - q, h);
  }

  lemma ZeroMultiplier(x: int, h: Window)
    requires 0 <= x * h < h
    ensures x == 0
  {
  }

  /**
   * `range(0, n, h)` holds exactly the multiples of `h` below `n`, in
   * increasing order, and their count is `ceil(n / h)`.
   */
  lemma SampleIndices(n: nat, h: Window)
    ensures var r := Range(0, n, h);
      (forall i :: 0 <= i < |r| ==> r[i] == i * h) &&
      (forall t: nat :: t in r <==> t < n && t % h == 0) &&
      (n > 0 ==> (|r| - 1) * h < n <= |r| * h)
  {
    var r := Range(0, n, h);
    RangeContents(0, n, h);
    forall t: nat | t in r ensures t < n && t % h == 0 {
      var i :| 0 <= i < |r| && r[i] == t;
      MultipleDivMod(i, h);
    }
    forall t: nat | t < n && t % h == 0 ensures t in r {
      SampleIndicesCover(n, h, t);
    }
  }

  /** Every multiple of `h` below `n` is sampled. */
  lemma SampleIndicesCover(n: nat, h: Window, t: nat)
    requires t < n && t % h == 0
    ensures t in Range(0, n, h)
  {
    var r := Range(0, n, h);
    RangeContents(0, n, h);
    var k := t / h;
    DivExact(t, h);
    assert k < |r| by {
      if k >= |r| {
        MulMonotone(|r|, k, h);
      }
    }
    assert r[k] == t;
  }

  lemma DivExact(t: nat, h: Window)
    requires t % h == 0
    ensures (t / h) * h == t
  {
  }

  datatype NonOverlapScores = NonOverlapScores(r2: real, directionAccuracy: real, samples: nat)

  /** `compute_non_overlapping_metrics`: R² and direction accuracy on every `h`-th row, zeros below two samples. */
  function NonOverlappingMetrics(y: seq<real>, p: seq<real>, h: Window): NonOverlapScores
    requires |y| == |p|
  {
    var idx := Range(0, |y|, h);
    if |idx| < 2 then NonOverlapScores(0.0, 0.0, |idx|)
    else
      var yn := Select(y, idx);
      var pn := Select(p, idx);
      NonOverlapScores(R2(yn, pn), Fraction(SignAgreement(yn, pn)).value, |idx|)
  }

  /**
   * There are two samples or more exactly when the test set is longer than
   * the horizon; below that both scores are 0, above it the accuracy lies in
   * [0, 1] and R² is at most 1.  One year of test rows at a one-year horizon
   * is a single sample.
   */
  lemma NonOverlappingGuard(y: seq<real>, p: seq<real>, h: Window)
    requires |y| == |p|
    ensures var m := NonOverlappingMetrics(y, p, h);
      m.samples == |Range(0, |y|, h)| &&
      (m.samples >= 2 <==> |y| > h) &&
      (m.samples < 2 ==> m.r2 == 0.0 && m.directionAccuracy == 0.0) &&
      (m.samples >= 2 ==> 0.0 <= m.directionAccuracy <= 1.0 && m.r2 <= 1.0) &&
      (0 < |y| <= h ==> m.samples == 1)
  {
    var idx := Range(0, |y|, h);
    if 0 < |y| {
      assert idx == [0] + Range(h, |y|, h);
    }
    if |idx| >= 2 {
      var yn := Select(y, idx);
      var pn := Select(p, idx);
      FractionBounds(SignAgreement(yn, pn));
      TestMetricsBounds(yn, pn);
    }
  }

  /** The scores read only the sampled rows: rows between multiples of `h` never change them. */
  lemma NonOverlappingReadsOnlySamples(y: seq<real>, p: seq<real>, y': seq<real>, p': seq<real>, h: Window)
    requires |y| == |p| == |y'| == |p'|
    requires forall t :: 0 <= t < |y| && t % h == 0 ==> y[t] == y'[t] && p[t] == p'[t]
    ensures NonOverlappingMetrics(y, p, h) == NonOverlappingMetrics(y', p', h)
  {
    var idx := Range(0, |y|, h);
    SampleIndices(|y|, h);
    assert forall i :: 0 <= i < |idx| ==> idx[i] in idx;
    assert Select(y, idx) == Select(y', idx);
    assert Select(p, idx) == Select(p', idx);
  }

  // ------------------------------------------------------- uncertainty

  /** The minimum adjusted std: 12-month returns are never more certain than 10%. */
  const MarketFloor: real := 0.10

  /** `abs((latest - mean) / std)` per feature. */
  function ZScores(x: seq<real>, s: Stats): (z: seq<real>)
    requires |x| == |s.mean| == |s.std| && forall j :: 0 <= j < |s.std| ==> s.std[j] != 0.0
    ensures |z| == |x| && forall j :: 0 <= j < |x| ==> z[j] == Abs((x[j] - s.mean[j]) / s.std[j])
  {
    seq(|x|, j requires 0 <= j < |x| => Abs((x[j] - s.mean[j]) / s.std[j]))
  }

  /** `1 + 0.1 * max(0, max_z - 2)`: at least 1, and 1 exactly when no feature is beyond 2 stds. */
  function ExtrapolationMultiplier(maxZ: real): (m: real)
    ensures m >= 1.0 && (m == 1.0 <==> maxZ <= 2.0)
  {
    1.0 + 0.1 * Max(0.0, maxZ - 2.0)
  }

  datatype Uncertainty = Uncertainty(
    baseStd: Option<real>, adjustedStd: Option<real>, multiplier: real, extrapolating: bool)

  /**
   * `compute_uncertainty_adjusted`: the residual std scaled by the
   * extrapolation multiplier, floored at 10%.  With no residuals the std is
   * NaN, and so is the adjusted std.
   */
  function AdjustedUncertainty(pred: seq<real>, y: seq<real>, latest: seq<real>, s: Stats,
                               sqrt: real -> real): Uncertainty
    requires |pred| == |y|
    requires |latest| == |s.mean| == |s.std| > 0 && forall j :: 0 <= j < |s.std| ==> s.std[j] != 0.0
  {
    UncertaintyFor(Std(Residuals(y, pred), sqrt), latest, s)
  }

  /** The adjustment for a given residual std. */
  function UncertaintyFor(base: Option<real>, latest: seq<real>, s: Stats): Uncertainty
    requires |latest| == |s.mean| == |s.std| > 0 && forall j :: 0 <= j < |s.std| ==> s.std[j] != 0.0
  {
    Adjust(base, SeqMax(ZScores(latest, s)))
  }

  /** The adjustment for a given residual std and largest z-score. */
  function Adjust(base: Option<real>, maxZ: real): Uncertainty
  {
    var mult := ExtrapolationMultiplier(maxZ);
    Uncertainty(base, AdjustedStd(base, mult), mult, maxZ > 2.0)
  }

  /** `max(base_std * mult, MARKET_FLOOR)`; Python's `max` returns the NaN first argument unchanged. */
  function AdjustedStd(base: Option<real>, mult: real): Option<real>
  {
    if base.Some? then Some(Max(base.value * mult, MarketFloor)) else None
  }

  /** The largest z-score exceeds 2 exactly when some feature's does. */
  lemma MaxAboveIff(z: seq<real>, c: real)
    requires |z| > 0
    ensures SeqMax(z) > c <==> exists j :: 0 <= j < |z| && z[j] > c
  {
    if SeqMax(z) > c {
      var j :| 0 <= j < |z| && z[j] == SeqMax(z);
    }
  }

  /**
   * `max(base * mult, floor)` for a non-negative base and a multiplier of at
   * least 1: at least the floor and the scaled base, and one of the two.
   */
  lemma FlooredScale(base: Option<real>, mult: real)
    requires base.Some? ==> base.value >= 0.0
    requires mult >= 1.0
    ensures var adj := AdjustedStd(base, mult);
      (adj.Some? <==> base.Some?) &&
      (base.Some? ==>
        adj.value >= MarketFloor && adj.value >= base.value * mult >= base.value &&
        (adj.value == MarketFloor || adj.value == base.value * mult))
  {
    if base.Some? {
      ProductAtLeast(base.value, mult);
    }
  }

  /**
   * For a defined, non-negative residual std the adjusted std is at least
   * the floor and at least the scaled residual std, and is one of the two;
   * the multiplier exceeds 1 exactly when the point is extrapolating.
   */
  lemma AdjustBounds(base: Option<real>, maxZ: real)
    requires base.Some? ==> base.value >= 0.0
    ensures var u := Adjust(base, maxZ);
      u.baseStd == base && (u.adjustedStd.Some? <==> base.Some?) &&
      (base.Some? ==>
        u.adjustedStd.value >= MarketFloor &&
        u.adjustedStd.value >= base.value * u.multiplier >= base.value &&
        (u.adjustedStd.value == MarketFloor || u.adjustedStd.value == base.value * u.multiplier)) &&
      (u.multiplier > 1.0 <==> u.extrapolating)
  {
    FlooredScale(base, ExtrapolationMultiplier(maxZ));
  }

  /**
   * The point is extrapolating exactly when some feature lies more than 2
   * training stds from the training mean; the multiplier grows with the
   * largest such distance.
   */
  lemma ExtrapolatingIff(base: Option<real>, latest: seq<real>, s: Stats)
    requires |latest| == |s.mean| == |s.std| > 0 && forall j :: 0 <= j < |s.std| ==> s.std[j] != 0.0
    ensures var u := UncertaintyFor(base, latest, s); var z := ZScores(latest, s);
      (u.extrapolating <==> exists j :: 0 <= j < |z| && z[j] > 2.0) &&
      forall j :: 0 <= j < |z| ==> u.multiplier >= ExtrapolationMultiplier(z[j])
  {
    var z := ZScores(latest, s);
    var m := SeqMax(z);
    assert UncertaintyFor(base, latest, s) == Adjust(base, m);
    MaxAboveIff(z, 2.0);
    forall j | 0 <= j < |z| ensures ExtrapolationMultiplier(m) >= ExtrapolationMultiplier(z[j]) {
      MultiplierMonotone(z[j], m);
    }
  }

  /** A larger z-score never earns a smaller multiplier. */
  lemma MultiplierMonotone(a: real, b: real)
    requires a <= b
    ensures ExtrapolationMultiplier(a) <= ExtrapolationMultiplier(b)
  {
  }

  /** The residual std of a non-empty test set is defined and non-negative; with none it is NaN. */
  lemma ResidualStd(pred: seq<real>, y: seq<real>, sqrt: real -> real)
    requires IsSqrt(sqrt) && |pred| == |y|
    ensures var b := Std(Residuals(y, pred), sqrt); (b.Some? <==> |y| > 0) && (b.Some? ==> b.value >= 0.0)
  {
    if |y| > 0 {
      StdZeroIff(Residuals(y, pred), sqrt);
    }
  }

  // ------------------------------------------------ the forward prediction

  datatype Forecast = Forecast(prediction: real, ci95Low: real, ci95High: real)

  /** `prediction -/+ 1.96 * std`: symmetric about the prediction, strict for a positive std. */
  function Interval95(prediction: real, sd: real): (f: Forecast)
    ensures f.prediction == prediction
    ensures f.prediction - f.ci95Low == f.ci95High - f.prediction
    ensures sd > 0.0 ==> f.ci95Low < f.prediction < f.ci95High
    ensures sd == 0.0 ==> f.ci95Low == f.prediction == f.ci95High
  {
    Forecast(prediction, prediction - 1.96 * sd, prediction + 1.96 * sd)
  }

  // ------------------------------------------------------ feature rows

  /** Why an experiment produces no report. */
  datatype ExperimentError =
    | UnknownFeatureIds(ids: seq<string>)
    | InsufficientData(rows: nat)
    | NoValidFeatureRows
    | NoFeatures

  /** The columns of the requested features, in request order. */
  function FeatureNames(ids: seq<string>): (names: seq<ColumnName>)
    ensures |names| == |ids| && forall j :: 0 <= j < |ids| ==> names[j] == Registered(ids[j])
  {
    seq(|ids|, j requires 0 <= j < |ids| => Registered(ids[j]))
  }

  /** Every requested feature is defined at row `t`. */
  predicate FeaturesDefinedAt(p: seq<real>, ids: seq<string>, t: nat, sqrt: real -> real)
    requires (forall id :: id in ids ==> id in Registry) && t < |p|
  {
    forall j :: 0 <= j < |ids| ==> Column(Registry[ids[j]], p, sqrt)[t].Some?
  }

  /** The selected-feature frame of the raw prices. */
  function Selected(p: seq<real>, ids: seq<string>, sqrt: real -> real): (r: Result<Frame, seq<string>>)
    ensures r.Success? ==> WellFormed(r.value) && r.value.price == p && Target !in r.value.cols
    ensures r.Success? ==> forall j :: 0 <= j < |ids| ==> FeatureNames(ids)[j] in r.value.cols
  {
    SelectedFeaturesContents(PriceFrame(p), ids, sqrt);
    SelectedFeatures(PriceFrame(p), ids, sqrt)
  }

  /** A row of the selected frame is complete exactly when every requested feature is defined there. */
  lemma SelectedRowComplete(p: seq<real>, ids: seq<string>, t: nat, sqrt: real -> real)
    requires (forall id :: id in ids ==> id in Registry) && t < |p|
    ensures Selected(p, ids, sqrt).Success?
    ensures RowComplete(Selected(p, ids, sqrt).value, NameSet(FeatureNames(ids)), t) <==> FeaturesDefinedAt(p, ids, t, sqrt)
  {
    SelectedFeaturesContents(PriceFrame(p), ids, sqrt);
    var g := Selected(p, ids, sqrt).value;
    var names := FeatureNames(ids);
    if FeaturesDefinedAt(p, ids, t, sqrt) {
      forall c | c in NameSet(names) ensures g.cols[c][t].Some? {
        var j :| 0 <= j < |names| && names[j] == c;
      }
    }
    if RowComplete(g, NameSet(names), t) {
      forall j | 0 <= j < |ids| ensures Column(Registry[ids[j]], p, sqrt)[t].Some? {
        assert names[j] in NameSet(names);
      }
    }
  }

  /**
   * The training rows of `run_experiment`: the selected features with the
   * forward target, the rows missing any of them dropped; fewer than 100
   * rows is an error.
   */
  function ExperimentRows(p: seq<real>, ids: seq<string>, sqrt: real -> real): (r: Result<Frame, ExperimentError>)
  {
    var sel := Selected(p, ids, sqrt);
    if sel.Failure? then Failure(UnknownFeatureIds(sel.error))
    else
      var g := AddForwardTarget(sel.value, ForwardDays);
      var rows := DropNa(g, NameSet(FeatureNames(ids)) + {Target});
      if |rows.price| < 100 then Failure(InsufficientData(|rows.price|)) else Success(rows)
  }

  /** The guard's errors: unknown ids reported in request order, a short frame reported with its row count. */
  lemma ExperimentRowsErrors(p: seq<real>, ids: seq<string>, sqrt: real -> real)
    ensures var r := ExperimentRows(p, ids, sqrt);
      (r.Failure? && r.error.UnknownFeatureIds? <==> exists id :: id in ids && id !in Registry) &&
      (r.Failure? && r.error.UnknownFeatureIds? ==> r.error.ids == UnknownIds(ids)) &&
      (r.Failure? ==> r.error.UnknownFeatureIds? || (r.error.InsufficientData? && r.error.rows < 100))
  {
    SelectedFeaturesContents(PriceFrame(p), ids, sqrt);
  }

  /**
   * Past the guard at least 100 rows remain, each with every requested
   * feature and the target defined, so `standardize` accepts all three
   * splits.
   */
  lemma ExperimentRowsStandardizable(p: seq<real>, ids: seq<string>, sqrt: real -> real)
    requires ExperimentRows(p, ids, sqrt).Success?
    ensures var g := ExperimentRows(p, ids, sqrt).value;
      |g.price| >= 100 && Standardizable(g, FeatureNames(ids))
  {
    var g := ExperimentRows(p, ids, sqrt).value;
    var names := FeatureNames(ids);
    forall j, t | 0 <= j < |names| && 0 <= t < |g.price| ensures g.cols[names[j]][t].Some? {
      assert RowComplete(g, NameSet(names) + {Target}, t);
      assert names[j] in NameSet(names);
    }
    forall t | 0 <= t < |g.price| ensures g.cols[Target][t].Some? {
      assert RowComplete(g, NameSet(names) + {Target}, t);
    }
  }

  // ------------------------------------------------- compute_prediction

  /** The latest feature row: the values of the last raw row on which every requested feature is defined. */
  function LatestFeatures(p: seq<real>, ids: seq<string>, sqrt: real -> real): (r: Result<seq<real>, ExperimentError>)
    ensures r.Success? ==> |r.value| == |ids|
  {
    var sel := Selected(p, ids, sqrt);
    if sel.Failure? then Failure(UnknownFeatureIds(sel.error))
    else
      var row := LastCompleteRow(sel.value, FeatureNames(ids));
      if row.Failure? then Failure(NoValidFeatureRows) else Success(row.value)
  }

  /** The latest row holds each feature's value at the last row where all of them are defined. */
  lemma LatestFeaturesIsLatest(p: seq<real>, ids: seq<string>, t: nat, sqrt: real -> real)
    requires (forall id :: id in ids ==> id in Registry) && t < |p|
    requires FeaturesDefinedAt(p, ids, t, sqrt)
    requires forall u :: t < u < |p| ==> !FeaturesDefinedAt(p, ids, u, sqrt)
    ensures var r := LatestFeatures(p, ids, sqrt);
      r.Success? && forall j :: 0 <= j < |ids| ==> Some(r.value[j]) == Column(Registry[ids[j]], p, sqrt)[t]
  {
    SelectedFeaturesContents(PriceFrame(p), ids, sqrt);
    var sel := Selected(p, ids, sqrt).value;
    var names := FeatureNames(ids);
    SelectedRowComplete(p, ids, t, sqrt);
    forall u | t < u < |p| ensures !RowComplete(sel, NameSet(names), u) {
      SelectedRowComplete(p, ids, u, sqrt);
    }
    LastCompleteRowIsLatest(sel, names, t);
  }

  /** With known ids the lookup fails exactly when no row has every requested feature defined. */
  lemma LatestFeaturesFails(p: seq<real>, ids: seq<string>, sqrt: real -> real)
    requires forall id :: id in ids ==> id in Registry
    ensures var r := LatestFeatures(p, ids, sqrt);
      (r.Failure? <==> forall t :: 0 <= t < |p| ==> !FeaturesDefinedAt(p, ids, t, sqrt)) &&
      (r.Failure? ==> r.error == NoValidFeatureRows)
  {
    SelectedFeaturesContents(PriceFrame(p), ids, sqrt);
    var sel := Selected(p, ids, sqrt).value;
    var names := FeatureNames(ids);
    LastCompleteRowFails(sel, names);
    forall t | 0 <= t < |p| ensures RowComplete(sel, NameSet(names), t) <==> FeaturesDefinedAt(p, ids, t, sqrt) {
      SelectedRowComplete(p, ids, t, sqrt);
    }
  }

  /** Past the row guard the latest feature row always exists: some training row already has every feature. */
  lemma LatestFeaturesAfterGuard(p: seq<real>, ids: seq<string>, sqrt: real -> real)
    requires ExperimentRows(p, ids, sqrt).Success?
    ensures LatestFeatures(p, ids, sqrt).Success?
  {
    SelectedFeaturesContents(PriceFrame(p), ids, sqrt);
    var sel := Selected(p, ids, sqrt).value;
    var names := FeatureNames(ids);
    var h := AddForwardTarget(sel, ForwardDays);
    DropNaEmptyIff(h, NameSet(names) + {Target});
    var t :| 0 <= t < |h.price| && RowComplete(h, NameSet(names) + {Target}, t);
    assert RowComplete(sel, NameSet(names), t);
    LastCompleteRowFails(sel, names);
  }

  /**
   * `compute_prediction`: the network's output on the latest feature row,
   * standardized with the training statistics, with a 95% interval of
   * half-width 1.96 adjusted stds.
   */
  function ComputePrediction(model: seq<real> -> real, p: seq<real>, ids: seq<string>, s: Stats,
                             adjustedStd: real, sqrt: real -> real): Result<Forecast, ExperimentError>
    requires |s.mean| == |s.std| == |ids| && forall j :: 0 <= j < |s.std| ==> s.std[j] != 0.0
  {
    var latest := LatestFeatures(p, ids, sqrt);
    if latest.Failure? then Failure(latest.error)
    else Success(Interval95(model(StandardizeRow(latest.value, s)), adjustedStd))
  }

  /**
   * The forecast exists exactly when the latest row does; the point
   * prediction is the network's value there, and with the floored std the
   * interval is strict and 3.92 adjusted stds wide.
   */
  lemma ComputePredictionOutcome(model: seq<real> -> real, p: seq<real>, ids: seq<string>, s: Stats,
                                 adjustedStd: real, sqrt: real -> real)
    requires |s.mean| == |s.std| == |ids| && forall j :: 0 <= j < |s.std| ==> s.std[j] != 0.0
    requires adjustedStd >= MarketFloor
    ensures var r := ComputePrediction(model, p, ids, s, adjustedStd, sqrt);
      var latest := LatestFeatures(p, ids, sqrt);
      (r.Success? <==> latest.Success?) &&
      (r.Success? ==>
        r.value.prediction == model(StandardizeRow(latest.value, s)) &&
        r.value.ci95Low < r.value.prediction < r.value.ci95High &&
        r.value.ci95High - r.value.ci95Low == 3.92 * adjustedStd)
  {
  }

  // ----------------------------------------------------- request input

  /** The request fields `main` reads: `featureIds`, falling back to `feature_ids` when absent. */
  datatype Request = Request(featureIds: Option<seq<string>>, featureIdsSnake: Option<seq<string>>)

  function RequestedIds(q: Request): seq<string>
  {
    if q.featureIds.Some? then q.featureIds.value
    else if q.featureIdsSnake.Some? then q.featureIdsSnake.value
    else []
  }

  /** The outcome of `main`'s validation. */
  datatype Validation =
    | Accepted(ids: seq<string>)
    | EmptyRequest
    | UnknownFeatures(invalid: seq<string>, validFeatures: seq<string>)

  function Validate(q: Request): Validation
  {
    var ids := RequestedIds(q);
    if |ids| == 0 then EmptyRequest
    else
      var invalid := UnknownIds(ids);
      if |invalid| > 0 then UnknownFeatures(invalid, AllFeatureIds) else Accepted(ids)
  }

  /**
   * An empty list is rejected, even when only the camel-case field is
   * present and empty; unknown ids are listed, in request order, next to
   * the full catalogue; everything else is accepted unchanged.
   */
  lemma ValidateOutcome(q: Request)
    ensures var v := Validate(q); var ids := RequestedIds(q);
      (v.EmptyRequest? <==> |ids| == 0) &&
      (v.Accepted? <==> |ids| > 0 && forall id :: id in ids ==> id in AllFeatureIds) &&
      (v.Accepted? ==> v.ids == ids) &&
      (v.UnknownFeatures? ==>
        |v.invalid| > 0 && v.validFeatures == AllFeatureIds && v.invalid == UnknownIds(ids) &&
        forall x :: x in v.invalid <==> x in ids && x !in AllFeatureIds)
    ensures q.featureIds == Some([]) ==> Validate(q).EmptyRequest?
  {
    AllFeatureIdsAreRegistryKeys();
    var ids := RequestedIds(q);
    if |UnknownIds(ids)| > 0 {
      assert UnknownIds(ids)[0] in UnknownIds(ids);
    }
  }

  // -------------------------------------------------- run_experiment

  /** The trained network as a function of the standardized training and validation data. */
  type Trainer = (seq<seq<real>>, seq<real>, seq<seq<real>>, seq<real>) -> (seq<real> -> real)

  /** What one experiment reports. */
  datatype Report = Report(
    featureIds: seq<string>,
    backtest: BacktestSummary,
    test: TestScores,
    prediction: PredictionScores,
    nonOverlap: NonOverlapScores,
    uncertainty: Uncertainty,
    forecast: Forecast,
    trainSamples: nat, valSamples: nat, testSamples: nat, totalSamples: nat)

  /** The adjusted std exists exactly when the residual std does. */
  lemma AdjustedStdDefined(base: Option<real>, maxZ: real)
    ensures Adjust(base, maxZ).adjustedStd.Some? <==> base.Some?
  {
  }

  /** The split, its standardized arrays, the trained network and its test predictions. */
  datatype Fitted = Fitted(split: Split, data: Standardized, model: seq<real> -> real, preds: seq<real>)

  /** Split chronologically, standardize with training statistics, train, and predict the test rows. */
  function Fit(df: Frame, names: seq<ColumnName>, train: Trainer, sqrt: real -> real): (r: Fitted)
    requires Standardizable(df, names) && |df.price| >= 2
    ensures r.split == SplitData(df)
    ensures |r.split.train.price| + |r.split.val.price| + |r.split.test.price| == |df.price|
    ensures |r.split.train.price| >= 1 && |r.split.test.price| >= 1
    ensures |df.price| >= 100 ==> |r.split.train.price| >= 70 && |r.split.val.price| >= 15 && |r.split.test.price| >= 15
    ensures |r.preds| == |r.data.xTest| == |r.data.yTest| == |r.split.test.price|
    ensures forall t :: 0 <= t < |r.preds| ==> r.preds[t] == r.model(r.data.xTest[t])
    ensures |r.data.stats.mean| == |r.data.stats.std| == |names|
    ensures forall j :: 0 <= j < |names| ==> r.data.stats.std[j] != 0.0
  {
    SplitStandardizable(df, names);
    SplitNonEmpty(|df.price|);
    var sp := SplitData(df);
    var d := Standardize(sp.train, sp.val, sp.test, names, sqrt);
    var model := train(d.xTrain, d.yTrain, d.xVal, d.yVal);
    Fitted(sp, d, model, seq(|d.xTest|, t requires 0 <= t < |d.xTest| => model(d.xTest[t])))
  }

  /**
   * `run_experiment`: build the training rows, split and standardize them,
   * train, score the test split, and forecast from the latest feature row.
   * The reduction over the latest row's z-scores fails on an empty feature
   * list.
   */
  function RunExperiment(p: seq<real>, ids: seq<string>, train: Trainer, sqrt: real -> real,
                         pow: (real, real) -> real): Result<Report, ExperimentError>
  {
    var rows := ExperimentRows(p, ids, sqrt);
    if rows.Failure? then Failure(rows.error)
    else
      ExperimentRowsStandardizable(p, ids, sqrt);
      var fit := Fit(rows.value, FeatureNames(ids), train, sqrt);
      var latest := LatestFeatures(p, ids, sqrt);
      if latest.Failure? then Failure(latest.error)
      else if |latest.value| == 0 then Failure(NoFeatures)
      else
        var y := fit.data.yTest;
        var u := AdjustedUncertainty(fit.preds, y, latest.value, fit.data.stats, sqrt);
        AdjustedStdDefined(Std(Residuals(y, fit.preds), sqrt), SeqMax(ZScores(latest.value, fit.data.stats)));
        var forecast := ComputePrediction(fit.model, p, ids, fit.data.stats, u.adjustedStd.value, sqrt);
        if forecast.Failure? then Failure(forecast.error)
        else
          Success(Report(
            ids,
            BacktestSummaryOf(fit.preds, fit.split.test.price, sqrt, pow),
            TestMetrics(y, fit.preds),
            PredictionMetrics(y, fit.preds, sqrt),
            NonOverlappingMetrics(y, fit.preds, ForwardDays),
            u, forecast.value,
            |fit.split.train.price|, |fit.split.val.price|, |fit.split.test.price|, |rows.value.price|))
  }

  /**
   * The experiment fails only at the row guard, or on an empty feature list
   * when the z-scores are reduced; the "no valid feature rows" error of the
   * forecast is unreachable.
   */
  lemma RunExperimentOutcome(p: seq<real>, ids: seq<string>, train: Trainer, sqrt: real -> real,
                             pow: (real, real) -> real)
    ensures var r := RunExperiment(p, ids, train, sqrt, pow); var rows := ExperimentRows(p, ids, sqrt);
      (r.Success? <==> rows.Success? && |ids| > 0) &&
      (r.Success? ==> r.value.featureIds == ids) &&
      (r.Failure? && rows.Failure? ==> r.error == rows.error) &&
      (r.Failure? && rows.Success? ==> r.error == NoFeatures)
  {
    if ExperimentRows(p, ids, sqrt).Success? {
      LatestFeaturesAfterGuard(p, ids, sqrt);
    }
  }

  /**
   * A report accounts for every row once, has at least 15 test rows, a
   * floored adjusted std and a strict 95% interval around the forecast.
   */
  lemma RunExperimentReport(p: seq<real>, ids: seq<string>, train: Trainer, sqrt: real -> real,
                            pow: (real, real) -> real)
    requires IsSqrt(sqrt)
    requires RunExperiment(p, ids, train, sqrt, pow).Success?
    ensures var m := RunExperiment(p, ids, train, sqrt, pow).value;
      m.featureIds == ids && |ids| > 0 &&
      m.trainSamples + m.valSamples + m.testSamples == m.totalSamples &&
      m.totalSamples >= 100 && m.trainSamples >= 70 && m.valSamples >= 15 && m.testSamples >= 15 &&
      m.uncertainty.adjustedStd.Some? && m.uncertainty.adjustedStd.value >= MarketFloor &&
      m.forecast.ci95Low < m.forecast.prediction < m.forecast.ci95High &&
      m.forecast.ci95High - m.forecast.ci95Low == 3.92 * m.uncertainty.adjustedStd.value
  {
    RunExperimentOutcome(p, ids, train, sqrt, pow);
    ExperimentRowsStandardizable(p, ids, sqrt);
    var df := ExperimentRows(p, ids, sqrt).value;
    var fit := Fit(df, FeatureNames(ids), train, sqrt);
    var latest := LatestFeatures(p, ids, sqrt).value;
    var y := fit.data.yTest;
    var base := Std(Residuals(y, fit.preds), sqrt);
    var maxZ := SeqMax(ZScores(latest, fit.data.stats));
    ResidualStd(fit.preds, y, sqrt);
    AdjustBounds(base, maxZ);
    var u := Adjust(base, maxZ);
    assert u == AdjustedUncertainty(fit.preds, y, latest, fit.data.stats, sqrt);
    ComputePredictionOutcome(fit.model, p, ids, fit.data.stats, u.adjustedStd.value, sqrt);
  }

  // ------------------------------------------------------------ main

  /** What `main` writes: the report, the validation error, or the experiment's error. */
  datatype Response = Reported(report: Report) | Rejected(validation: Validation) | Failed(error: ExperimentError)

  /** `main`: validate the requested ids, then run the experiment on them. */
  function Respond(q: Request, p: seq<real>, train: Trainer, sqrt: real -> real, pow: (real, real) -> real): Response
  {
    var v := Validate(q);
    if !v.Accepted? then Rejected(v)
    else
      var r := RunExperiment(p, v.ids, train, sqrt, pow);
      if r.Success? then Reported(r.value) else Failed(r.error)
  }

  /**
   * Once `main` has accepted the ids, the experiment's own unknown-id check
   * and the empty-feature failure are unreachable: the only error left is
   * too few complete rows.
   */
  lemma RespondOutcome(q: Request, p: seq<real>, train: Trainer, sqrt: real -> real, pow: (real, real) -> real)
    ensures var r := Respond(q, p, train, sqrt, pow); var v := Validate(q);
      (r.Rejected? <==> !v.Accepted?) &&
      (r.Rejected? ==> r.validation == v) &&
      (r.Reported? ==> r.report.featureIds == RequestedIds(q)) &&
      (r.Failed? ==> r.error.InsufficientData? && r.error.rows < 100)
  {
    ValidateOutcome(q);
    AllFeatureIdsAreRegistryKeys();
    var v := Validate(q);
    if v.Accepted? {
      RunExperimentOutcome(p, v.ids, train, sqrt, pow);
      ExperimentRowsErrors(p, v.ids, sqrt);
      assert forall id :: id in v.ids ==> id in Registry;
      assert |v.ids| > 0;
    }
  }
}
