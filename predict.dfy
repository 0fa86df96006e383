/**
 * The twelve-month forward prediction: the base features with the 252-day
 * forward return as target, the split, standardization and training shared
 * with the experiment runner, the test metrics, the residual std as the
 * prediction's uncertainty, and the forecast from the latest complete
 * feature row with an unfloored 95% interval.
 */
module Predict {
  import opened Numeric
  import opened Features
  import opened Frames
  import opened Shared
  import opened Experiment

  // -------------------------------------------- build_prediction_features

  /** The frame before dropping rows: the base features and the 252-day forward return. */
  function WithForwardTarget(p: seq<real>, sqrt: real -> real): (h: Frame)
    ensures WellFormed(h) && h.price == p
    ensures h.cols.Keys == BaseNames() + {Target}
  {
    var b := BaseFeatures(PriceFrame(p), sqrt);
    BaseFeaturesKeys(p, sqrt);
    AddForwardTarget(b, ForwardDays)
  }

  /** `build_prediction_features`: the rows without any missing value. */
  function BuildPredictionFeatures(p: seq<real>, sqrt: real -> real): (g: Frame)
    ensures WellFormed(g) && g.cols.Keys == BaseNames() + {Target}
  {
    var h := WithForwardTarget(p, sqrt);
    DropNa(h, h.cols.Keys)
  }

  /**
   * On any frame of positive prices whose complete rows are those from `lo`
   * on, a row stays complete with the forward target exactly when 252 rows
   * remain after it.
   */
  lemma ForwardCompleteRows(b: Frame, lo: nat, t: nat)
    requires WellFormed(b) && AllPositive(b.price) && Target !in b.cols && t < |b.price|
    requires forall t :: 0 <= t < |b.price| ==> (RowComplete(b, b.cols.Keys, t) <==> lo <= t)
    ensures var h := AddForwardTarget(b, ForwardDays);
      h.cols.Keys == b.cols.Keys + {Target} &&
      (RowComplete(h, h.cols.Keys, t) <==> lo <= t && t + ForwardDays < |b.price|)
  {
    var h := AddForwardTarget(b, ForwardDays);
    ForwardTargetDefinedIff(b.price, ForwardDays, t);
    assert RowComplete(h, h.cols.Keys, t) <==> RowComplete(b, b.cols.Keys, t) && h.cols[Target][t].Some? by {
      forall c | c in b.cols ensures h.cols[c] == b.cols[c] { }
    }
  }

  /** The same frame after `dropna`: rows `lo .. n - 253`, or none when fewer rows remain. */
  lemma ForwardDropNa(b: Frame, lo: nat)
    requires WellFormed(b) && AllPositive(b.price) && Target !in b.cols
    requires forall t :: 0 <= t < |b.price| ==> (RowComplete(b, b.cols.Keys, t) <==> lo <= t)
    ensures var h := AddForwardTarget(b, ForwardDays); var n := |b.price|;
      (lo + ForwardDays < n ==> DropNa(h, h.cols.Keys) == SliceRows(h, lo, n - ForwardDays)) &&
      (lo + ForwardDays >= n ==> |DropNa(h, h.cols.Keys).price| == 0)
  {
    var h := AddForwardTarget(b, ForwardDays);
    var n := |b.price|;
    var hi := if lo + ForwardDays < n then n - ForwardDays else lo;
    forall t | 0 <= t < n ensures RowComplete(h, h.cols.Keys, t) <==> lo <= t < hi {
      ForwardCompleteRows(b, lo, t);
    }
    if lo + ForwardDays < n {
      DropNaInterval(h, h.cols.Keys, lo, hi);
    } else {
      forall t | 0 <= t < n ensures !RowComplete(h, h.cols.Keys, t) { }
      DropNaEmptyIff(h, h.cols.Keys);
    }
  }

  /** The same, row by row: kept row `i` is row `lo + i`, with that row's forward return as target. */
  lemma ForwardDropNaRows(b: Frame, lo: nat)
    requires WellFormed(b) && AllPositive(b.price) && Target !in b.cols && lo + ForwardDays < |b.price|
    requires forall t :: 0 <= t < |b.price| ==> (RowComplete(b, b.cols.Keys, t) <==> lo <= t)
    ensures var h := AddForwardTarget(b, ForwardDays); var g := DropNa(h, h.cols.Keys);
      |g.price| == |b.price| - ForwardDays - lo &&
      (forall i :: 0 <= i < |g.price| ==> g.price[i] == b.price[lo + i]) &&
      (forall c, i :: c in b.cols && 0 <= i < |g.price| ==> g.cols[c][i] == b.cols[c][lo + i]) &&
      (forall i :: 0 <= i < |g.price| ==> g.cols[Target][i] == ForwardReturn(b.price, ForwardDays)[lo + i])
  {
    ForwardDropNa(b, lo);
    var h := AddForwardTarget(b, ForwardDays);
    forall c | c in b.cols ensures h.cols[c] == b.cols[c] { }
  }

  /** Before dropping rows: the base frame's complete rows start at 49, and the target is added to it. */
  lemma PredictionFrameShape(p: seq<real>, sqrt: real -> real)
    requires AllPositive(p)
    ensures var b := BaseFeatures(PriceFrame(p), sqrt);
      WellFormed(b) && AllPositive(b.price) && Target !in b.cols && |b.price| == |p| &&
      (forall t :: 0 <= t < |b.price| ==> (RowComplete(b, b.cols.Keys, t) <==> BaseWarmup <= t)) &&
      var h := AddForwardTarget(b, ForwardDays);
      WithForwardTarget(p, sqrt) == h && BuildPredictionFeatures(p, sqrt) == DropNa(h, h.cols.Keys)
  {
    BaseFeaturesCompleteRows(p, sqrt);
  }

  /**
   * With more than 301 positive prices the training frame is the slice of
   * rows 49 .. n - 253: the 50-day average needs 49 rows of history and the
   * last 252 rows have no forward return.
   */
  lemma PredictionFeaturesIsSlice(p: seq<real>, sqrt: real -> real)
    requires AllPositive(p) && |p| > BaseWarmup + ForwardDays
    ensures BuildPredictionFeatures(p, sqrt) == SliceRows(WithForwardTarget(p, sqrt), BaseWarmup, |p| - ForwardDays)
  {
    PredictionFrameShape(p, sqrt);
    var b := BaseFeatures(PriceFrame(p), sqrt);
    var h := AddForwardTarget(b, ForwardDays);
    ForwardDropNa(b, BaseWarmup);
    assert DropNa(h, h.cols.Keys) == SliceRows(h, BaseWarmup, |p| - ForwardDays);
  }

  /** With 301 positive prices or fewer no row is kept. */
  lemma PredictionFeaturesEmpty(p: seq<real>, sqrt: real -> real)
    requires AllPositive(p) && |p| <= BaseWarmup + ForwardDays
    ensures |BuildPredictionFeatures(p, sqrt).price| == 0
  {
    PredictionFrameShape(p, sqrt);
    ForwardDropNa(BaseFeatures(PriceFrame(p), sqrt), BaseWarmup);
  }

  /** Row `i` of the training frame is raw row `49 + i`, with all its base features. */
  lemma PredictionFeaturesRow(p: seq<real>, i: nat, sqrt: real -> real)
    requires AllPositive(p) && i + BaseWarmup + ForwardDays < |p|
    ensures var g := BuildPredictionFeatures(p, sqrt); var b := BaseFeatures(PriceFrame(p), sqrt);
      |g.price| == |p| - BaseWarmup - ForwardDays && g.price[i] == p[BaseWarmup + i] &&
      forall c :: c in b.cols ==> g.cols[c][i] == b.cols[c][BaseWarmup + i]
  {
    PredictionFrameShape(p, sqrt);
    ForwardDropNaRows(BaseFeatures(PriceFrame(p), sqrt), BaseWarmup);
  }

  /** The target of training row `i` is the return from raw row `49 + i` to the row 252 days later. */
  lemma PredictionFeaturesTarget(p: seq<real>, i: nat, sqrt: real -> real)
    requires AllPositive(p) && i + BaseWarmup + ForwardDays < |p|
    ensures var g := BuildPredictionFeatures(p, sqrt); var t := BaseWarmup + i;
      i < |g.price| && g.cols[Target][i] == Some(p[t + ForwardDays] / p[t] - 1.0)
  {
    var t := BaseWarmup + i;
    assert ForwardReturn(p, ForwardDays)[t] == Some(p[t + ForwardDays] / p[t] - 1.0) by {
      ForwardTargetValue(p, ForwardDays, t);
    }
    PredictionFrameShape(p, sqrt);
    ForwardDropNaRows(BaseFeatures(PriceFrame(p), sqrt), BaseWarmup);
  }

  // -------------------------------------------------- get_latest_features

  /** The lookup on a frame that holds the feature columns: its last complete row, under its own error message. */
  function LatestFeatureRow(b: Frame): (r: Result<seq<real>, string>)
    requires WellFormed(b) && forall j :: 0 <= j < |FeatureCols()| ==> FeatureCols()[j] in b.cols
    ensures r.Success? ==> |r.value| == |FeatureCols()|
  {
    var row := LastCompleteRow(b, FeatureCols());
    if row.Failure? then Failure("No valid feature rows after processing") else Success(row.value)
  }

  /** `get_latest_features`: the last row of the base features whose 23 feature columns are all defined. */
  function GetLatestFeatures(p: seq<real>, sqrt: real -> real): (r: Result<seq<real>, string>)
    ensures r.Success? ==> |r.value| == |FeatureCols()|
  {
    FeatureColsAreBaseFeatures();
    BaseFeaturesKeys(p, sqrt);
    LatestFeatureRow(BaseFeatures(PriceFrame(p), sqrt))
  }

  /** When the last row has every feature, the lookup returns the values of that row. */
  lemma LatestFeatureRowAtLastRow(b: Frame)
    requires WellFormed(b) && forall j :: 0 <= j < |FeatureCols()| ==> FeatureCols()[j] in b.cols
    requires |b.price| > 0 && RowComplete(b, NameSet(FeatureCols()), |b.price| - 1)
    ensures var r := LatestFeatureRow(b);
      r.Success? && forall j :: 0 <= j < |FeatureCols()| ==> Some(r.value[j]) == b.cols[FeatureCols()[j]][|b.price| - 1]
  {
    LastCompleteRowIsLatest(b, FeatureCols(), |b.price| - 1);
  }

  /** The feature columns are all defined exactly from row 49 on: the long price-to-average ratio is the last to start. */
  lemma FeatureColsCompleteFrom(p: seq<real>, t: nat, sqrt: real -> real)
    requires AllPositive(p) && t < |p|
    ensures var b := BaseFeatures(PriceFrame(p), sqrt);
      NameSet(FeatureCols()) <= b.cols.Keys &&
      (RowComplete(b, NameSet(FeatureCols()), t) <==> t >= BaseWarmup)
  {
    FeatureColsAreBaseFeatures();
    var b := BaseFeatures(PriceFrame(p), sqrt);
    BaseFeaturesKeys(p, sqrt);
    BaseFeaturesComplete(PriceFrame(p), t, sqrt);
    assert MaRatioLong in NameSet(FeatureCols()) by {
      assert FeatureCols()[21] == MaRatioLong;
    }
    BaseFeaturesColumn(p, MaRatioLong, sqrt);
    ColumnLeadingMissing(PriceToSma(MaLongWindow), p, t, sqrt);
  }

  /** On positive prices the lookup fails exactly when there is no row past the warm-up. */
  lemma LatestFeaturesFailIff(p: seq<real>, sqrt: real -> real)
    requires AllPositive(p)
    ensures GetLatestFeatures(p, sqrt).Failure? <==> |p| <= BaseWarmup
  {
    FeatureColsAreBaseFeatures();
    var b := BaseFeatures(PriceFrame(p), sqrt);
    BaseFeaturesKeys(p, sqrt);
    LastCompleteRowFails(b, FeatureCols());
    forall t | 0 <= t < |p| ensures RowComplete(b, NameSet(FeatureCols()), t) <==> t >= BaseWarmup {
      FeatureColsCompleteFrom(p, t, sqrt);
    }
    if |p| > BaseWarmup {
      assert RowComplete(b, NameSet(FeatureCols()), |p| - 1);
    }
  }

  /** Whenever a training row exists the latest feature row does too, whatever the prices. */
  lemma LatestFeaturesAfterTraining(p: seq<real>, sqrt: real -> real)
    requires |BuildPredictionFeatures(p, sqrt).price| > 0
    ensures GetLatestFeatures(p, sqrt).Success?
  {
    FeatureColsAreBaseFeatures();
    var b := BaseFeatures(PriceFrame(p), sqrt);
    BaseFeaturesKeys(p, sqrt);
    var h := AddForwardTarget(b, ForwardDays);
    assert WithForwardTarget(p, sqrt) == h;
    DropNaEmptyIff(h, h.cols.Keys);
    var t :| 0 <= t < |h.price| && RowComplete(h, h.cols.Keys, t);
    assert RowComplete(b, NameSet(FeatureCols()), t) by {
      forall c | c in NameSet(FeatureCols()) ensures b.cols[c][t].Some? {
        assert h.cols[c] == b.cols[c];
      }
    }
    LastCompleteRowFails(b, FeatureCols());
  }

  /** Standardizing a row with the training statistics is undone by scaling back with the same statistics. */
  lemma StandardizeRowInverse(row: seq<real>, s: Stats)
    requires |row| == |s.mean| == |s.std| && forall j :: 0 <= j < |s.std| ==> s.std[j] != 0.0
    ensures var z := StandardizeRow(row, s); forall j :: 0 <= j < |row| ==> z[j] * s.std[j] + s.mean[j] == row[j]
  {
    var z := StandardizeRow(row, s);
    forall j | 0 <= j < |row| ensures z[j] * s.std[j] + s.mean[j] == row[j] {
      DivMul(row[j] - s.mean[j], s.std[j]);
    }
  }

  lemma DivMul(a: real, b: real)
    requires b != 0.0
    ensures a / b * b == a
  {
  }

  // ---------------------------------------------------------------- main

  /** What the prediction script records, without the dates and the rounding. */
  datatype PredictionResult = PredictionResult(
    forecast: Forecast,
    predStd: real,
    test: TestScores,
    trainSamples: nat, valSamples: nat, testSamples: nat)

  /** `estimate_uncertainty`: the population std of the test residuals. */
  function EstimateUncertainty(y: seq<real>, preds: seq<real>, sqrt: real -> real): Option<real>
    requires |y| == |preds|
  {
    Std(Residuals(y, preds), sqrt)
  }

  /**
   * `main`: train on the prediction frame, score the test split, and
   * forecast from the latest feature row standardized with the training
   * statistics; the interval is 1.96 residual stds each side, with no floor.
   */
  function PredictMain(p: seq<real>, train: Trainer, sqrt: real -> real): Result<PredictionResult, string>
    requires |BuildPredictionFeatures(p, sqrt).price| >= 2
  {
    var h := WithForwardTarget(p, sqrt);
    var df := DropNa(h, h.cols.Keys);
    var names := FeatureCols();
    FeatureColsAreBaseFeatures();
    CompleteRowsStandardizable(h, names);
    var fit := Fit(df, names, train, sqrt);
    var y := fit.data.yTest;
    var predStd := EstimateUncertainty(y, fit.preds, sqrt);
    var latest := GetLatestFeatures(p, sqrt);
    if latest.Failure? then Failure(latest.error)
    else
      var prediction := fit.model(StandardizeRow(latest.value, fit.data.stats));
      Success(PredictionResult(
        Interval95(prediction, predStd.value), predStd.value, TestMetrics(y, fit.preds),
        |fit.split.train.price|, |fit.split.val.price|, |fit.split.test.price|))
  }

  /**
   * The script always reaches a forecast: the interval is centred on the
   * network's output for the standardized latest row, never inverted, and
   * it collapses to a point exactly when every test residual is the same.
   */
  lemma PredictMainOutcome(p: seq<real>, train: Trainer, sqrt: real -> real)
    requires IsSqrt(sqrt)
    requires |BuildPredictionFeatures(p, sqrt).price| >= 2
    ensures var r := PredictMain(p, train, sqrt);
      r.Success? &&
      r.value.trainSamples + r.value.valSamples + r.value.testSamples == |BuildPredictionFeatures(p, sqrt).price| &&
      r.value.testSamples >= 1 &&
      r.value.predStd >= 0.0 &&
      r.value.forecast.ci95Low <= r.value.forecast.prediction <= r.value.forecast.ci95High &&
      r.value.forecast.ci95High - r.value.forecast.ci95Low == 3.92 * r.value.predStd
  {
    LatestFeaturesAfterTraining(p, sqrt);
    var h := WithForwardTarget(p, sqrt);
    var df := DropNa(h, h.cols.Keys);
    var names := FeatureCols();
    FeatureColsAreBaseFeatures();
    CompleteRowsStandardizable(h, names);
    var fit := Fit(df, names, train, sqrt);
    StdZeroIff(Residuals(fit.data.yTest, fit.preds), sqrt);
  }

  /** The unfloored interval has zero width exactly when the test residuals are all equal. */
  lemma PredictIntervalCollapseIff(y: seq<real>, preds: seq<real>, prediction: real, sqrt: real -> real)
    requires IsSqrt(sqrt) && |y| == |preds| > 0
    ensures var sd := EstimateUncertainty(y, preds, sqrt).value; var f := Interval95(prediction, sd);
      f.ci95Low <= f.ci95High &&
      (f.ci95Low == f.ci95High <==> forall i :: 0 <= i < |y| ==> y[i] - preds[i] == y[0] - preds[0])
  {
    var e := Residuals(y, preds);
    StdZeroIff(e, sqrt);
  }
}
