/**
 * The data preparation shared by the ETF scripts: the base features, the
 * registry-selected features, the forward target, the chronological split and
 * the train-only standardization.
 */
module Shared {
  import opened Numeric
  import opened Features
  import opened Frames

  const Lags: nat := 20
  const MaShortWindow: Window := 10
  const MaLongWindow: Window := 50
  const VolWindow: Window := 20
  const ForwardDays: nat := 252

  // -------------------------------------------------------- base features

  /** The lagged-return columns `ret_lag1 .. ret_lag<i - 1>` built from the `ret` column. */
  function LagColumns(ret: Col, i: nat): map<ColumnName, Col>
  {
    map j: nat | 1 <= j < i :: RetLag(j) := ShiftDown(ret, j)
  }

  /** The feature kind of each column `build_base_features` adds. */
  function BaseKind(c: ColumnName): Option<FeatureKind>
  {
    match c
    case Ret => Some(PctChange(1))
    case RetLag(j) => if 1 <= j <= Lags then Some(ReturnLag(j)) else None
    case MaShort => Some(Sma(MaShortWindow))
    case MaLong => Some(Sma(MaLongWindow))
    case MaRatioShort => Some(PriceToSma(MaShortWindow))
    case MaRatioLong => Some(PriceToSma(MaLongWindow))
    case Vol => Some(Volatility(VolWindow))
    case Registered(_) => None
    case Target => None
  }

  /** The names of the base feature columns. */
  function BaseNames(): (names: set<ColumnName>)
    ensures forall c :: c in names <==> BaseKind(c).Some?
  {
    var lags := set j: nat | 1 <= j <= Lags :: RetLag(j);
    assert forall c: ColumnName :: c.RetLag? && 1 <= c.lag <= Lags ==> RetLag(c.lag) in lags;
    {Ret, MaShort, MaLong, MaRatioShort, MaRatioLong, Vol} + lags
  }

  /** The frame `build_base_features` returns, column by column as feature kinds. */
  function BaseFeatures(f: Frame, sqrt: real -> real): (g: Frame)
    requires WellFormed(f)
    ensures WellFormed(g) && g.price == f.price
  {
    Frame(f.price, f.cols + map c | c in BaseNames() :: Column(BaseKind(c).value, f.price, sqrt))
  }

  /** `price / column - 1`, row by row. */
  function RatioColumn(p: seq<real>, c: Col): (r: Col)
    requires |c| == |p|
    ensures |r| == |p|
  {
    seq(|p|, t requires 0 <= t < |p| => RatioMinusOne(Some(p[t]), c[t]))
  }

  /** `column.rolling(w).std()`: missing unless the whole window is defined. */
  function RollingStdColumn(c: Col, w: Window, sqrt: real -> real): (r: Col)
    ensures |r| == |c|
  {
    seq(|c|, t requires 0 <= t < |c| =>
      if t + 1 < w then None
      else
        var win := c[t + 1 - w..t + 1];
        if AllSome(win) then SampleStd(Values(win), sqrt) else None)
  }

  /** Shifting the return column by `i` rows gives the `i`-day lagged return. */
  lemma ShiftedReturnIsLag(p: seq<real>, i: nat, sqrt: real -> real)
    ensures ShiftDown(Column(PctChange(1), p, sqrt), i) == Column(ReturnLag(i), p, sqrt)
  {
    var l, r := ShiftDown(Column(PctChange(1), p, sqrt), i), Column(ReturnLag(i), p, sqrt);
    forall t | 0 <= t < |p| ensures l[t] == r[t] {
      if t >= i {
        assert p[..t + 1][..t + 1 - i] == p[..t - i + 1];
      }
    }
  }

  lemma RatioColumnIsPriceToSma(p: seq<real>, w: Window, sqrt: real -> real)
    ensures RatioColumn(p, Column(Sma(w), p, sqrt)) == Column(PriceToSma(w), p, sqrt)
  {
    var l, r := RatioColumn(p, Column(Sma(w), p, sqrt)), Column(PriceToSma(w), p, sqrt);
    forall t | 0 <= t < |p| ensures l[t] == r[t] {
      assert Last(p[..t + 1]) == p[t];
    }
  }

  /** The rolling std of the return column is the volatility feature. */
  lemma RollingStdIsVolatility(p: seq<real>, w: Window, sqrt: real -> real)
    ensures RollingStdColumn(Column(PctChange(1), p, sqrt), w, sqrt) == Column(Volatility(w), p, sqrt)
  {
    var ret := Column(PctChange(1), p, sqrt);
    var l, r := RollingStdColumn(ret, w, sqrt), Column(Volatility(w), p, sqrt);
    forall t | 0 <= t < |p| ensures l[t] == r[t] {
      if t + 1 >= w {
        var h := p[..t + 1];
        var win := ret[t + 1 - w..t + 1];
        var tr := TrailingReturns(h, w);
        forall i | 0 <= i < w ensures win[i] == tr[i] {
          var q := p[..t + 1 - w + i + 1];
          assert h[..|h| - w + i + 1] == q;
          assert win[i] == ret[t + 1 - w + i] == Evaluate(PctChange(1), q, sqrt);
          assert tr[i] == ReturnAt(q);
        }
        assert win == tr;
      }
    }
  }

  /** A frame that agrees with `BaseFeatures` column by column is `BaseFeatures`. */
  lemma BaseFeaturesByColumn(f: Frame, g: Frame, sqrt: real -> real)
    requires WellFormed(f) && g.price == f.price
    requires forall c :: c in g.cols <==> c in f.cols || BaseKind(c).Some?
    requires forall c :: BaseKind(c).Some? ==> g.cols[c] == Column(BaseKind(c).value, f.price, sqrt)
    requires forall c :: c in f.cols && BaseKind(c).None? ==> g.cols[c] == f.cols[c]
    ensures g == BaseFeatures(f, sqrt)
  {
    var h := BaseFeatures(f, sqrt);
    assert g.cols.Keys == h.cols.Keys;
    forall c | c in g.cols ensures g.cols[c] == h.cols[c] {
    }
    assert g.cols == h.cols;
  }

  /** The columns added after the lags complete the base features. */
  lemma BaseFeaturesAfterLags(f: Frame, lagged: map<ColumnName, Col>, sqrt: real -> real)
    requires WellFormed(f)
    requires forall c :: c in lagged <==> c in f.cols || c == Ret || (c.RetLag? && 1 <= c.lag <= Lags)
    requires lagged[Ret] == Column(PctChange(1), f.price, sqrt)
    requires forall j: nat :: 1 <= j <= Lags ==> lagged[RetLag(j)] == Column(ReturnLag(j), f.price, sqrt)
    requires forall c :: c in f.cols && c != Ret && !(c.RetLag? && 1 <= c.lag <= Lags) ==> lagged[c] == f.cols[c]
    ensures var p := f.price;
      var ret := Column(PctChange(1), p, sqrt);
      var maShort := Column(Sma(MaShortWindow), p, sqrt);
      var maLong := Column(Sma(MaLongWindow), p, sqrt);
      Frame(p, lagged[MaShort := maShort][MaLong := maLong]
                     [MaRatioShort := RatioColumn(p, maShort)][MaRatioLong := RatioColumn(p, maLong)]
                     [Vol := RollingStdColumn(ret, VolWindow, sqrt)])
      == BaseFeatures(f, sqrt)
  {
    var p := f.price;
    var ret := Column(PctChange(1), p, sqrt);
    var maShort := Column(Sma(MaShortWindow), p, sqrt);
    var maLong := Column(Sma(MaLongWindow), p, sqrt);
    var g := Frame(p, lagged[MaShort := maShort][MaLong := maLong]
                           [MaRatioShort := RatioColumn(p, maShort)][MaRatioLong := RatioColumn(p, maLong)]
                           [Vol := RollingStdColumn(ret, VolWindow, sqrt)]);
    forall c | BaseKind(c).Some? ensures g.cols[c] == Column(BaseKind(c).value, p, sqrt) {
      match c
      case MaRatioShort => RatioColumnIsPriceToSma(p, MaShortWindow, sqrt);
      case MaRatioLong => RatioColumnIsPriceToSma(p, MaLongWindow, sqrt);
      case Vol => RollingStdIsVolatility(p, VolWindow, sqrt);
      case RetLag(j) =>
      case _ =>
    }
    BaseFeaturesByColumn(f, g, sqrt);
  }

  /**
   * `build_base_features`: the return, its twenty lags (each a shift of the
   * return column), the two moving averages, the price-to-average ratios and
   * the rolling volatility of the return column.
   */
  method BuildBaseFeatures(f: Frame, sqrt: real -> real) returns (g: Frame)
    requires WellFormed(f)
    ensures g == BaseFeatures(f, sqrt)
  {
    var p := f.price;
    var ret := Column(PctChange(1), p, sqrt);
    var cols := f.cols[Ret := ret];
    for i := 1 to Lags + 1
      invariant forall c :: c in cols <==> c in f.cols || c == Ret || (c.RetLag? && 1 <= c.lag < i)
      invariant cols[Ret] == ret
      invariant forall j: nat :: 1 <= j < i ==> cols[RetLag(j)] == Column(ReturnLag(j), p, sqrt)
      invariant forall c :: c in f.cols && c != Ret && !(c.RetLag? && 1 <= c.lag < i) ==> cols[c] == f.cols[c]
    {
      ShiftedReturnIsLag(p, i, sqrt);
      cols := cols[RetLag(i) := ShiftDown(ret, i)];
    }
    BaseFeaturesAfterLags(f, cols, sqrt);
    var maShort := Column(Sma(MaShortWindow), p, sqrt);
    var maLong := Column(Sma(MaLongWindow), p, sqrt);
    cols := cols[MaShort := maShort][MaLong := maLong];
    cols := cols[MaRatioShort := RatioColumn(p, maShort)][MaRatioLong := RatioColumn(p, maLong)];
    cols := cols[Vol := RollingStdColumn(ret, VolWindow, sqrt)];
    g := Frame(p, cols);
  }

  /** `get_feature_cols`: the twenty lags, then the two ratios and the volatility. */
  function FeatureCols(): seq<ColumnName>
  {
    seq(Lags, i requires 0 <= i < Lags => RetLag(i + 1)) + [MaRatioShort, MaRatioLong, Vol]
  }

  lemma FeatureColsAreBaseFeatures()
    ensures |FeatureCols()| == 23 && Distinct(FeatureCols())
    ensures forall j :: 0 <= j < 20 ==> FeatureCols()[j] == RetLag(j + 1)
    ensures FeatureCols()[20..] == [MaRatioShort, MaRatioLong, Vol]
    ensures forall j :: 0 <= j < |FeatureCols()| ==> FeatureCols()[j] in BaseNames()
  {
    var fc := FeatureCols();
    forall j | 0 <= j < 20 ensures fc[j] in BaseNames() {
      assert fc[j] == RetLag(j + 1);
    }
  }

  /** On a price-only frame the base features are exactly the base columns. */
  lemma BaseFeaturesKeys(p: seq<real>, sqrt: real -> real)
    ensures BaseFeatures(PriceFrame(p), sqrt).cols.Keys == BaseNames()
  {
  }

  /** Each base column is its feature kind's column. */
  lemma BaseFeaturesColumn(p: seq<real>, c: ColumnName, sqrt: real -> real)
    requires c in BaseNames()
    ensures BaseFeatures(PriceFrame(p), sqrt).cols[c] == Column(BaseKind(c).value, p, sqrt)
  {
  }

  /** After dropping every incomplete row, a frame with the target is ready for `standardize`. */
  lemma CompleteRowsStandardizable(h: Frame, names: seq<ColumnName>)
    requires WellFormed(h) && Target in h.cols && forall j :: 0 <= j < |names| ==> names[j] in h.cols
    ensures Standardizable(DropNa(h, h.cols.Keys), names)
  {
    var g := DropNa(h, h.cols.Keys);
    forall t | 0 <= t < |g.price| ensures g.cols[Target][t].Some? {
      assert RowComplete(g, h.cols.Keys, t);
    }
    forall j, t | 0 <= j < |names| && 0 <= t < |g.price| ensures g.cols[names[j]][t].Some? {
      assert RowComplete(g, h.cols.Keys, t);
    }
  }

  /** The largest warm-up among the base features: the 50-day moving average. */
  const BaseWarmup: nat := 49

  /** On positive prices a row has every base feature exactly from row 49 on. */
  lemma BaseFeaturesComplete(f: Frame, t: nat, sqrt: real -> real)
    requires WellFormed(f) && AllPositive(f.price) && t < |f.price|
    ensures BaseNames() <= BaseFeatures(f, sqrt).cols.Keys
    ensures RowComplete(BaseFeatures(f, sqrt), BaseNames(), t) <==> t >= BaseWarmup
  {
    var g := BaseFeatures(f, sqrt);
    forall c | c in BaseNames()
      ensures g.cols[c][t].Some? <==> t >= Warmup(BaseKind(c).value)
      ensures Warmup(BaseKind(c).value) <= BaseWarmup
    {
      ColumnLeadingMissing(BaseKind(c).value, f.price, t, sqrt);
    }
    ColumnLeadingMissing(BaseKind(MaLong).value, f.price, t, sqrt);
  }

  /** On a price-only frame the complete rows of the base features are those from row 49 on. */
  lemma BaseFeaturesCompleteRows(p: seq<real>, sqrt: real -> real)
    requires AllPositive(p)
    ensures var b := BaseFeatures(PriceFrame(p), sqrt);
      b.cols.Keys == BaseNames() &&
      forall t :: 0 <= t < |p| ==> (RowComplete(b, b.cols.Keys, t) <==> BaseWarmup <= t)
  {
    var b := BaseFeatures(PriceFrame(p), sqrt);
    assert b.cols.Keys == BaseNames();
    forall t | 0 <= t < |p| ensures RowComplete(b, b.cols.Keys, t) <==> BaseWarmup <= t {
      assert RowComplete(b, BaseNames(), t) <==> BaseWarmup <= t by {
        BaseFeaturesComplete(PriceFrame(p), t, sqrt);
      }
    }
  }

  // -------------------------------------------------- selected features

  /** The requested ids that are not registry keys, in request order. */
  function UnknownIds(ids: seq<string>): (r: seq<string>)
    ensures forall x :: x in r <==> x in ids && x !in Registry
    ensures |r| <= |ids|
  {
    if |ids| == 0 then []
    else UnknownIds(ids[..|ids| - 1]) + (if ids[|ids| - 1] in Registry then [] else [ids[|ids| - 1]])
  }

  /** Filtering commutes with concatenation, so unknown ids keep their request order. */
  lemma {:induction false} UnknownIdsAppend(a: seq<string>, b: seq<string>)
    ensures UnknownIds(a + b) == UnknownIds(a) + UnknownIds(b)
  {
    if |b| > 0 {
      assert (a + b)[..|a + b| - 1] == a + b[..|b| - 1];
      UnknownIdsAppend(a, b[..|b| - 1]);
    } else {
      assert a + b == a;
    }
  }

  /** The columns the requested registry features add, one assignment per id in request order. */
  function SelectedColumns(p: seq<real>, ids: seq<string>, sqrt: real -> real): map<ColumnName, Col>
    requires forall id :: id in ids ==> id in Registry
  {
    if |ids| == 0 then map[]
    else
      var id := ids[|ids| - 1];
      SelectedColumns(p, ids[..|ids| - 1], sqrt)[Registered(id) := Column(Registry[id], p, sqrt)]
  }

  /** The added columns are exactly the requested ids', each holding its registry feature. */
  lemma {:induction false} SelectedColumnsContents(p: seq<real>, ids: seq<string>, sqrt: real -> real)
    requires forall id :: id in ids ==> id in Registry
    ensures forall c :: c in SelectedColumns(p, ids, sqrt) <==> c.Registered? && c.id in ids
    ensures forall id :: id in ids ==> SelectedColumns(p, ids, sqrt)[Registered(id)] == Column(Registry[id], p, sqrt)
  {
    if |ids| > 0 {
      var init := ids[..|ids| - 1];
      assert forall id :: id in ids <==> id in init || id == ids[|ids| - 1];
      SelectedColumnsContents(p, init, sqrt);
    }
  }

  /** `build_selected_features`: an error listing the unknown ids, or the frame with the requested columns. */
  function SelectedFeatures(f: Frame, ids: seq<string>, sqrt: real -> real): Result<Frame, seq<string>>
  {
    if |UnknownIds(ids)| > 0 then Failure(UnknownIds(ids))
    else Success(Frame(f.price, f.cols + SelectedColumns(f.price, ids, sqrt)))
  }

  /** `build_selected_features`: reject unknown ids, then compute the requested columns in request order. */
  method BuildSelectedFeatures(f: Frame, ids: seq<string>, sqrt: real -> real) returns (r: Result<Frame, seq<string>>)
    ensures r == SelectedFeatures(f, ids, sqrt)
  {
    var invalid := UnknownIds(ids);
    if |invalid| > 0 {
      return Failure(invalid);
    }
    assert forall id :: id in ids ==> id in Registry;
    var added := map[];
    for i := 0 to |ids|
      invariant added == SelectedColumns(f.price, ids[..i], sqrt)
    {
      assert ids[..i + 1][..i] == ids[..i];
      added := added[Registered(ids[i]) := Column(Registry[ids[i]], f.price, sqrt)];
    }
    assert ids[..|ids|] == ids;
    r := Success(Frame(f.price, f.cols + added));
  }

  /**
   * Selection fails exactly when some id is unknown; otherwise it adds one
   * column per requested id, holding that feature, and keeps every other column.
   */
  lemma SelectedFeaturesContents(f: Frame, ids: seq<string>, sqrt: real -> real)
    requires WellFormed(f)
    ensures SelectedFeatures(f, ids, sqrt).Failure? <==> exists id :: id in ids && id !in Registry
    ensures SelectedFeatures(f, ids, sqrt).Success? ==>
      var g := SelectedFeatures(f, ids, sqrt).value;
      WellFormed(g) && g.price == f.price &&
      (forall c :: c in g.cols <==> c in f.cols || (c.Registered? && c.id in ids)) &&
      (forall id :: id in ids ==> g.cols[Registered(id)] == Column(Registry[id], f.price, sqrt)) &&
      (forall c :: c in f.cols && !(c.Registered? && c.id in ids) ==> g.cols[c] == f.cols[c])
  {
    if |UnknownIds(ids)| > 0 {
      assert UnknownIds(ids)[0] in UnknownIds(ids);
    } else {
      assert forall id :: id in ids ==> id in Registry;
      SelectedColumnsContents(f.price, ids, sqrt);
    }
  }

  // ------------------------------------------------------ forward target

  /** `price.shift(-h) / price - 1`: the shifted price is missing in the last `h` rows. */
  function ForwardReturn(p: seq<real>, h: nat): (c: Col)
    ensures |c| == |p|
  {
    seq(|p|, t requires 0 <= t < |p| => if t + h < |p| then RatioMinusOne(Some(p[t + h]), Some(p[t])) else None)
  }

  /** `add_forward_target`. */
  function AddForwardTarget(f: Frame, h: nat): (g: Frame)
    requires WellFormed(f)
    ensures WellFormed(g) && g.price == f.price && Target in g.cols
    ensures forall c :: c in f.cols && c != Target ==> c in g.cols && g.cols[c] == f.cols[c]
  {
    Frame(f.price, f.cols[Target := ForwardReturn(f.price, h)])
  }

  /** On positive prices the target of row `t` is defined exactly when `t + h < n`. */
  lemma ForwardTargetDefinedIff(p: seq<real>, h: nat, t: nat)
    requires AllPositive(p) && t < |p|
    ensures ForwardReturn(p, h)[t].Some? <==> t + h < |p|
  {
    assert p[t] > 0.0;
  }

  /** A defined target is the `h`-day forward return `p[t + h] / p[t] - 1`. */
  lemma ForwardTargetValue(p: seq<real>, h: nat, t: nat)
    requires AllPositive(p) && t < |p| && t + h < |p|
    ensures ForwardReturn(p, h)[t] == Some(p[t + h] / p[t] - 1.0)
  {
    assert ForwardReturn(p, h)[t] == RatioMinusOne(Some(p[t + h]), Some(p[t]));
    RatioMinusOneValue(p[t + h], p[t]);
  }

  // ---------------------------------------------------------------- split

  /**
   * `int(n * 0.70)` and `int(n * 0.85)` with exact ratios: the floor of
   * 70% and of 85% of the row count.
   */
  function SplitPoints(n: nat): (r: (nat, nat))
    ensures r.0 as real <= 0.70 * n as real < r.0 as real + 1.0
    ensures r.1 as real <= 0.85 * n as real < r.1 as real + 1.0
    ensures r.0 <= r.1 <= n
  {
    (n * 70 / 100, n * 85 / 100)
  }

  datatype Split = Split(train: Frame, val: Frame, test: Frame)

  /** `split_data`: three contiguous, chronological slices. */
  function SplitData(f: Frame): (s: Split)
    requires WellFormed(f)
    ensures WellFormed(s.train) && WellFormed(s.val) && WellFormed(s.test)
    ensures s.train.cols.Keys == s.val.cols.Keys == s.test.cols.Keys == f.cols.Keys
  {
    var (a, b) := SplitPoints(|f.price|);
    Split(SliceRows(f, 0, a), SliceRows(f, a, b), SliceRows(f, b, |f.price|))
  }

  /** Every row lands in exactly one split, in order. */
  lemma SplitIsPartition(f: Frame)
    requires WellFormed(f)
    ensures var s := SplitData(f);
      ConcatRows(ConcatRows(s.train, s.val), s.test) == f
  {
    var (a, b) := SplitPoints(|f.price|);
    SliceConcat(f, a, b);
  }

  /** With at least 100 rows each split is non-empty: 70, 15 and 15 rows at least. */
  lemma SplitSizes(n: nat)
    requires n >= 100
    ensures var (a, b) := SplitPoints(n); a >= 70 && b - a >= 15 && n - b >= 15
  {
  }

  /** From two rows on the training split is not empty; from one row on neither is the test split. */
  lemma SplitNonEmpty(n: nat)
    requires n >= 1
    ensures var (a, b) := SplitPoints(n); b < n && (n >= 2 ==> a >= 1)
  {
  }

  // -------------------------------------------------------- standardize

  predicate Rectangular(x: seq<seq<real>>, d: nat)
  {
    forall t :: 0 <= t < |x| ==> |x[t]| == d
  }

  function ColumnOf(x: seq<seq<real>>, d: nat, j: nat): (c: seq<real>)
    requires Rectangular(x, d) && j < d
    ensures |c| == |x| && forall t :: 0 <= t < |x| ==> c[t] == x[t][j]
  {
    seq(|x|, t requires 0 <= t < |x| => x[t][j])
  }

  datatype Stats = Stats(mean: seq<real>, std: seq<real>)

  /** The training statistics: column means and population stds, a zero std replaced by 1. */
  function TrainStats(x: seq<seq<real>>, d: nat, sqrt: real -> real): (s: Stats)
    requires Rectangular(x, d) && |x| > 0
    ensures |s.mean| == d && |s.std| == d
    ensures forall j :: 0 <= j < d ==> s.std[j] != 0.0
    ensures forall j :: 0 <= j < d ==> s.std[j] == 1.0 || s.std[j] == Std(ColumnOf(x, d, j), sqrt).value
  {
    Stats(
      seq(d, j requires 0 <= j < d => Mean(ColumnOf(x, d, j)).value),
      seq(d, j requires 0 <= j < d =>
        var sd := Std(ColumnOf(x, d, j), sqrt).value;
        if sd == 0.0 then 1.0 else sd))
  }

  /** `(row - mean) / std` for one feature vector. */
  function StandardizeRow(row: seq<real>, s: Stats): (z: seq<real>)
    requires |row| == |s.mean| == |s.std| && forall j :: 0 <= j < |s.std| ==> s.std[j] != 0.0
    ensures |z| == |row|
  {
    seq(|row|, j requires 0 <= j < |row| => (row[j] - s.mean[j]) / s.std[j])
  }

  function StandardizeRows(x: seq<seq<real>>, s: Stats): (z: seq<seq<real>>)
    requires |s.mean| == |s.std| && Rectangular(x, |s.mean|)
    requires forall j :: 0 <= j < |s.std| ==> s.std[j] != 0.0
    ensures |z| == |x| && Rectangular(z, |s.mean|)
    ensures forall t :: 0 <= t < |x| ==> z[t] == StandardizeRow(x[t], s)
  {
    seq(|x|, t requires 0 <= t < |x| => StandardizeRow(x[t], s))
  }

  datatype Standardized = Standardized(
    xTrain: seq<seq<real>>, xVal: seq<seq<real>>, xTest: seq<seq<real>>,
    yTrain: seq<real>, yVal: seq<real>, yTest: seq<real>,
    stats: Stats)

  /** The frames `standardize` accepts: feature columns and target fully defined. */
  predicate Standardizable(f: Frame, cols: seq<ColumnName>)
  {
    WellFormed(f) && Complete(f, cols) && Target in f.cols &&
    forall t :: 0 <= t < |f.price| ==> f.cols[Target][t].Some?
  }

  /** `standardize`: statistics from the training rows, applied alike to all three splits. */
  function Standardize(train: Frame, val: Frame, test: Frame, cols: seq<ColumnName>, sqrt: real -> real): (r: Standardized)
    requires Standardizable(train, cols) && Standardizable(val, cols) && Standardizable(test, cols)
    requires |train.price| > 0
    ensures r.stats == TrainStats(Matrix(train, cols), |cols|, sqrt)
    ensures r.xVal == StandardizeRows(Matrix(val, cols), r.stats)
    ensures r.xTest == StandardizeRows(Matrix(test, cols), r.stats)
    ensures |r.yTest| == |r.xTest| == |test.price|
    ensures forall t :: 0 <= t < |test.price| ==> r.yTest[t] == test.cols[Target][t].value
  {
    var s := TrainStats(Matrix(train, cols), |cols|, sqrt);
    Standardized(
      StandardizeRows(Matrix(train, cols), s),
      StandardizeRows(Matrix(val, cols), s),
      StandardizeRows(Matrix(test, cols), s),
      ColumnValues(train, Target), ColumnValues(val, Target), ColumnValues(test, Target),
      s)
  }

  /** A slice of a frame `standardize` accepts is accepted too. */
  lemma SliceStandardizable(f: Frame, cols: seq<ColumnName>, a: nat, b: nat)
    requires Standardizable(f, cols) && a <= b <= |f.price|
    ensures Standardizable(SliceRows(f, a, b), cols)
  {
    var g := SliceRows(f, a, b);
    forall j, t | 0 <= j < |cols| && 0 <= t < |g.price| ensures g.cols[cols[j]][t].Some? {
      assert g.cols[cols[j]][t] == f.cols[cols[j]][a + t];
    }
    forall t | 0 <= t < |g.price| ensures g.cols[Target][t].Some? {
      assert g.cols[Target][t] == f.cols[Target][a + t];
    }
  }

  /** All three splits of an accepted frame are accepted; with 100 rows or more none is empty. */
  lemma SplitStandardizable(f: Frame, cols: seq<ColumnName>)
    requires Standardizable(f, cols)
    ensures var s := SplitData(f);
      Standardizable(s.train, cols) && Standardizable(s.val, cols) && Standardizable(s.test, cols) &&
      |s.train.price| + |s.val.price| + |s.test.price| == |f.price| &&
      (|f.price| >= 100 ==> |s.train.price| >= 70 && |s.val.price| >= 15 && |s.test.price| >= 15)
  {
    var (a, b) := SplitPoints(|f.price|);
    SliceStandardizable(f, cols, 0, a);
    SliceStandardizable(f, cols, a, b);
    SliceStandardizable(f, cols, b, |f.price|);
    if |f.price| >= 100 {
      SplitSizes(|f.price|);
    }
  }

  /** The statistics and the standardized training rows never depend on the validation or test rows. */
  lemma StandardizeIgnoresHeldOutRows(train: Frame, val: Frame, test: Frame, val': Frame, test': Frame,
                                      cols: seq<ColumnName>, sqrt: real -> real)
    requires Standardizable(train, cols) && Standardizable(val, cols) && Standardizable(test, cols)
    requires Standardizable(val', cols) && Standardizable(test', cols)
    requires |train.price| > 0
    ensures Standardize(train, val, test, cols, sqrt).stats == Standardize(train, val', test', cols, sqrt).stats
    ensures Standardize(train, val, test, cols, sqrt).xTrain == Standardize(train, val', test', cols, sqrt).xTrain
  {
  }

  /** Column `j` of the standardized rows is the column's deviations scaled by `1 / std`. */
  lemma StandardizedColumn(x: seq<seq<real>>, d: nat, j: nat, s: Stats)
    requires Rectangular(x, d) && j < d && |s.mean| == d && |s.std| == d
    requires forall k :: 0 <= k < d ==> s.std[k] != 0.0
    ensures ColumnOf(StandardizeRows(x, s), d, j) == Scale(Deviations(ColumnOf(x, d, j), s.mean[j]), 1.0 / s.std[j])
  {
    var z := StandardizeRows(x, s);
    var l, r := ColumnOf(z, d, j), Scale(Deviations(ColumnOf(x, d, j), s.mean[j]), 1.0 / s.std[j]);
    forall t | 0 <= t < |x| ensures l[t] == r[t] {
      assert z[t][j] == (x[t][j] - s.mean[j]) / s.std[j];
    }
  }

  /** A standardized training column is the column's deviations from its mean, scaled by `1 / std`. */
  lemma StandardizedTrainColumn(x: seq<seq<real>>, d: nat, j: nat, sqrt: real -> real)
    requires Rectangular(x, d) && |x| > 0 && j < d
    ensures var s := TrainStats(x, d, sqrt);
      var c := ColumnOf(x, d, j);
      ColumnOf(StandardizeRows(x, s), d, j) == Scale(Deviations(c, Mean(c).value), 1.0 / s.std[j])
  {
    var s := TrainStats(x, d, sqrt);
    assert s.mean[j] == Mean(ColumnOf(x, d, j)).value;
    StandardizedColumn(x, d, j, s);
  }

  /** Each standardized training column sums to zero. */
  lemma StandardizedTrainSumsToZero(x: seq<seq<real>>, d: nat, j: nat, sqrt: real -> real)
    requires Rectangular(x, d) && |x| > 0 && j < d
    ensures Sum(ColumnOf(StandardizeRows(x, TrainStats(x, d, sqrt)), d, j)) == 0.0
  {
    StandardizedTrainColumn(x, d, j, sqrt);
    CentredScaledSum(ColumnOf(x, d, j), 1.0 / TrainStats(x, d, sqrt).std[j]);
  }

  /** With a true square root, a non-constant training column is standardized to population variance 1. */
  lemma StandardizedTrainUnitVariance(x: seq<seq<real>>, d: nat, j: nat, sqrt: real -> real)
    requires Rectangular(x, d) && |x| > 0 && j < d && IsSqrt(sqrt)
    requires exists t :: 0 <= t < |x| && x[t][j] != x[0][j]
    ensures PopVariance(ColumnOf(StandardizeRows(x, TrainStats(x, d, sqrt)), d, j)) == Some(1.0)
  {
    var c := ColumnOf(x, d, j);
    assert exists t :: 0 <= t < |c| && c[t] != c[0];
    StandardizedUnitVariance(c, sqrt);
    assert TrainStats(x, d, sqrt).std[j] == Std(c, sqrt).value;
    StandardizedTrainColumn(x, d, j, sqrt);
  }

  /** A constant training column is standardized to all zeros. */
  lemma StandardizedConstantColumnIsZero(x: seq<seq<real>>, d: nat, j: nat, sqrt: real -> real)
    requires Rectangular(x, d) && |x| > 0 && j < d
    requires forall t :: 0 <= t < |x| ==> x[t][j] == x[0][j]
    ensures forall t :: 0 <= t < |x| ==> ColumnOf(StandardizeRows(x, TrainStats(x, d, sqrt)), d, j)[t] == 0.0
  {
    var s := TrainStats(x, d, sqrt);
    var c := ColumnOf(x, d, j);
    var z := ColumnOf(StandardizeRows(x, s), d, j);
    StandardizedColumn(x, d, j, s);
    MeanConstant(c, c[0]);
    var k := 1.0 / s.std[j];
    forall t | 0 <= t < |x| ensures z[t] == 0.0 {
      var e := Deviations(c, s.mean[j])[t];
      assert e == 0.0;
      assert z[t] == k * e;
    }
  }
}
