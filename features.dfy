/**
 * The engineered features of the ETF scripts, as pure functions of a price
 * history.
 *
 * Every feature is described by a `FeatureKind` that carries its window.
 * `Evaluate(kind, h)` is the feature's value at the LAST row of the price
 * prefix `h`; a whole column is `Column(kind, p)`, whose row `t` is
 * `Evaluate(kind, p[..t + 1])`.  A feature therefore sees no price after its
 * own row, which is the no-lookahead promise of the feature code; the lemmas
 * below state it for whole columns and fix each kind's leading-missing count.
 */
module Features {
  import opened Numeric

  type Window = w: nat | 1 <= w witness 1

  datatype FeatureKind =
    | PctChange(periods: Window)                 // price.pct_change(k)
    | ReturnLag(lag: nat)                        // price.pct_change().shift(i)
    | Sma(window: Window)                        // price.rolling(w).mean()
    | PriceToSma(window: Window)                 // price / rolling(w).mean() - 1
    | SmaCross(short: Window, long: Window)      // rolling(s).mean() / rolling(l).mean() - 1
    | DistanceToHigh(window: Window)             // price / rolling(w).max() - 1
    | Volatility(window: Window)                 // price.pct_change().rolling(w).std()
    | CurrentDrawdown                            // price / price.cummax() - 1
    | RollingMaxDrawdown(window: Window)         // compute_rolling_mdd
    | Rsi(period: Window)                        // compute_rsi
    | BollingerWidth(period: Window, numStd: real) // compute_bb_width

  function Last(h: seq<real>): real
    requires |h| >= 1
  {
    h[|h| - 1]
  }

  /** The last `w` prices of the history. */
  function Trailing(h: seq<real>, w: nat): (r: seq<real>)
    requires w <= |h|
    ensures |r| == w && forall i :: 0 <= i < w ==> r[i] == h[|h| - w + i]
  {
    h[|h| - w..]
  }

  /** `pct_change(k)` at the last row: missing for the first `k` rows. */
  function PctAt(h: seq<real>, k: nat): Option<real>
    requires |h| >= 1
  {
    if |h| <= k then None else MinusOne(Quot(Last(h), h[|h| - 1 - k]))
  }

  /** The daily return `pct_change()` at the last row. */
  function ReturnAt(h: seq<real>): Option<real>
    requires |h| >= 1
  {
    PctAt(h, 1)
  }

  /** `rolling(w).mean()` at the last row. */
  function RollingMean(h: seq<real>, w: Window): Option<real>
    requires |h| >= 1
  {
    if |h| < w then None else Mean(Trailing(h, w))
  }

  /** `rolling(w).max()` at the last row. */
  function RollingMax(h: seq<real>, w: Window): Option<real>
    requires |h| >= 1
  {
    if |h| < w then None else Some(SeqMax(Trailing(h, w)))
  }

  /** `num / den - 1`, missing when either side is missing or `den` is zero. */
  function RatioMinusOne(num: Option<real>, den: Option<real>): Option<real>
  {
    if num.Some? && den.Some? then MinusOne(Quot(num.value, den.value)) else None
  }

  lemma RatioMinusOneValue(a: real, b: real)
    requires b > 0.0
    ensures RatioMinusOne(Some(a), Some(b)) == Some(a / b - 1.0)
  {
  }

  /** The daily returns of the last `w` rows (the window `ret.rolling(w)` sees). */
  function TrailingReturns(h: seq<real>, w: Window): (r: seq<Option<real>>)
    requires w <= |h|
    ensures |r| == w
  {
    seq(w, i requires 0 <= i < w => ReturnAt(h[..|h| - w + i + 1]))
  }

  /** `mdd_func` of `compute_rolling_mdd`: the deepest drop below the running peak. */
  function WindowMaxDrawdown(x: seq<real>): Option<real>
    requires |x| > 0
  {
    var dd := Drawdowns(x);
    if AllSome(dd) then Some(SeqMin(Values(dd))) else None
  }

  /** `delta.where(delta > 0, 0.0)` at row `j`; the undefined delta of row 0 becomes 0. */
  function Gain(h: seq<real>, j: nat): real
    requires j < |h|
  {
    if j == 0 then 0.0 else if h[j] - h[j - 1] > 0.0 then h[j] - h[j - 1] else 0.0
  }

  /** `-delta.where(delta < 0, 0.0)` at row `j`. */
  function Loss(h: seq<real>, j: nat): real
    requires j < |h|
  {
    if j == 0 then 0.0 else if h[j] - h[j - 1] < 0.0 then h[j - 1] - h[j] else 0.0
  }

  function TrailingGains(h: seq<real>, n: Window): (r: seq<real>)
    requires n <= |h|
    ensures |r| == n && forall i :: 0 <= i < n ==> r[i] == Gain(h, |h| - n + i)
  {
    seq(n, i requires 0 <= i < n => Gain(h, |h| - n + i))
  }

  function TrailingLosses(h: seq<real>, n: Window): (r: seq<real>)
    requires n <= |h|
    ensures |r| == n && forall i :: 0 <= i < n ==> r[i] == Loss(h, |h| - n + i)
  {
    seq(n, i requires 0 <= i < n => Loss(h, |h| - n + i))
  }

  /** `compute_rsi`: a zero average loss is replaced by NaN, so the RSI is missing there. */
  function RsiAt(h: seq<real>, n: Window): Option<real>
    requires |h| >= 1
  {
    if |h| < n then None
    else
      var gain := Mean(TrailingGains(h, n)).value;
      var loss := Mean(TrailingLosses(h, n)).value;
      if loss == 0.0 then None
      else
        match Quot(100.0, 1.0 + gain / loss)
        case None => None
        case Some(q) => Some(100.0 - q)
  }

  /** `compute_bb_width`: (upper - lower) / sma with bands `sma ± k·std`. */
  function BollingerAt(h: seq<real>, n: Window, k: real, sqrt: real -> real): Option<real>
    requires |h| >= 1
  {
    if |h| < n then None
    else
      var x := Trailing(h, n);
      var sma := Mean(x).value;
      match SampleStd(x, sqrt)
      case None => None
      case Some(sd) => Quot((sma + k * sd) - (sma - k * sd), sma)
  }

  /** The value of feature `kind` at the last row of the price history `h`. */
  function Evaluate(kind: FeatureKind, h: seq<real>, sqrt: real -> real): Option<real>
    requires |h| >= 1
  {
    match kind
    case PctChange(k) => PctAt(h, k)
    case ReturnLag(i) => if |h| <= i then None else ReturnAt(h[..|h| - i])
    case Sma(w) => RollingMean(h, w)
    case PriceToSma(w) => RatioMinusOne(Some(Last(h)), RollingMean(h, w))
    case SmaCross(s, l) => RatioMinusOne(RollingMean(h, s), RollingMean(h, l))
    case DistanceToHigh(w) => RatioMinusOne(Some(Last(h)), RollingMax(h, w))
    case Volatility(w) =>
      if |h| < w then None
      else
        var r := TrailingReturns(h, w);
        if AllSome(r) then SampleStd(Values(r), sqrt) else None
    case CurrentDrawdown => RatioMinusOne(Some(Last(h)), Some(SeqMax(h)))
    case RollingMaxDrawdown(w) => if |h| < w then None else WindowMaxDrawdown(Trailing(h, w))
    case Rsi(n) => RsiAt(h, n)
    case BollingerWidth(n, k) => BollingerAt(h, n, k, sqrt)
  }

  /** The feature column over the whole price series. */
  function Column(kind: FeatureKind, p: seq<real>, sqrt: real -> real): (c: seq<Option<real>>)
    ensures |c| == |p|
  {
    seq(|p|, t requires 0 <= t < |p| => Evaluate(kind, p[..t + 1], sqrt))
  }

  /** The number of leading rows for which the feature is missing. */
  function Warmup(kind: FeatureKind): nat
  {
    match kind
    case PctChange(k) => k
    case ReturnLag(i) => i + 1
    case Sma(w) => w - 1
    case PriceToSma(w) => w - 1
    case SmaCross(s, l) => (if s > l then s else l) - 1
    case DistanceToHigh(w) => w - 1
    case Volatility(w) => w
    case CurrentDrawdown => 0
    case RollingMaxDrawdown(w) => w - 1
    case Rsi(n) => n - 1
    case BollingerWidth(n, _) => n - 1
  }

  /**
   * Kinds whose missing rows are exactly the warm-up rows on positive prices:
   * standard deviations need windows of at least two, and the RSI is also
   * missing wherever its average loss is zero.
   */
  predicate Regular(kind: FeatureKind)
  {
    match kind
    case Volatility(w) => w >= 2
    case BollingerWidth(n, _) => n >= 2
    case Rsi(_) => false
    case _ => true
  }

  // --------------------------------------------------------- no lookahead

  /** Truncating the price series after row `m` leaves the first `m` feature values unchanged. */
  lemma ColumnIgnoresLaterPrices(kind: FeatureKind, p: seq<real>, m: nat, sqrt: real -> real)
    requires m <= |p|
    ensures Column(kind, p, sqrt)[..m] == Column(kind, p[..m], sqrt)
  {
    forall t | 0 <= t < m
      ensures Column(kind, p, sqrt)[t] == Column(kind, p[..m], sqrt)[t]
    {
      assert p[..m][..t + 1] == p[..t + 1];
    }
  }

  /** Two series that agree up to row `t` have the same feature value at row `t`. */
  lemma ColumnDependsOnPrefix(kind: FeatureKind, p: seq<real>, q: seq<real>, t: nat, sqrt: real -> real)
    requires t < |p| && t < |q| && p[..t + 1] == q[..t + 1]
    ensures Column(kind, p, sqrt)[t] == Column(kind, q, sqrt)[t]
  {
  }

  // --------------------------------------------------- leading-missing rows

  lemma PrefixPositive(h: seq<real>, m: nat)
    requires m <= |h| && AllPositive(h)
    ensures AllPositive(h[..m]) && AllPositive(h[|h| - m..])
  {
    var pre, suf := h[..m], h[|h| - m..];
    assert forall i :: 0 <= i < m ==> pre[i] == h[i];
    assert forall i :: 0 <= i < m ==> suf[i] == h[|h| - m + i];
  }

  lemma PctDefined(h: seq<real>, k: nat)
    requires |h| >= 1 && AllPositive(h)
    ensures PctAt(h, k).Some? <==> |h| > k
  {
  }

  lemma RollingMeanPositive(h: seq<real>, w: Window)
    requires |h| >= 1 && AllPositive(h)
    ensures RollingMean(h, w).Some? <==> |h| >= w
    ensures RollingMean(h, w).Some? ==> RollingMean(h, w).value > 0.0
  {
    if |h| >= w {
      PrefixPositive(h, w);
      MeanPositive(Trailing(h, w));
    }
  }

  lemma TrailingReturnsDefined(h: seq<real>, w: Window)
    requires w <= |h| && AllPositive(h)
    ensures AllSome(TrailingReturns(h, w)) <==> |h| > w
  {
    var r := TrailingReturns(h, w);
    forall i | 0 <= i < w ensures r[i].Some? <==> |h| - w + i >= 1 {
      var q := h[..|h| - w + i + 1];
      assert r[i] == ReturnAt(q);
      PrefixPositive(h, |h| - w + i + 1);
      PctDefined(q, 1);
    }
    assert r[0].Some? <==> |h| > w;
  }

  lemma WindowMaxDrawdownDefined(x: seq<real>)
    requires |x| > 0 && AllPositive(x)
    ensures WindowMaxDrawdown(x).Some?
  {
    DrawdownsInRange(x);
  }

  /** On positive prices each regular feature is missing exactly on its warm-up rows. */
  lemma EvaluateDefinedIff(kind: FeatureKind, h: seq<real>, sqrt: real -> real)
    requires |h| >= 1 && AllPositive(h) && Regular(kind)
    ensures Evaluate(kind, h, sqrt).Some? <==> |h| - 1 >= Warmup(kind)
  {
    match kind
    case PctChange(k) =>
      PctDefined(h, k);
    case ReturnLag(i) =>
      if |h| > i {
        PrefixPositive(h, |h| - i);
        PctDefined(h[..|h| - i], 1);
      }
    case Sma(w) =>
      RollingMeanPositive(h, w);
    case PriceToSma(w) =>
      RollingMeanPositive(h, w);
    case SmaCross(s, l) =>
      RollingMeanPositive(h, s);
      RollingMeanPositive(h, l);
    case DistanceToHigh(w) =>
      if |h| >= w {
        assert Trailing(h, w)[w - 1] == Last(h);
      }
    case Volatility(w) =>
      if |h| >= w {
        TrailingReturnsDefined(h, w);
      }
    case CurrentDrawdown =>
      assert h[|h| - 1] <= SeqMax(h);
    case RollingMaxDrawdown(w) =>
      if |h| >= w {
        PrefixPositive(h, w);
        WindowMaxDrawdownDefined(Trailing(h, w));
      }
    case BollingerWidth(n, k) =>
      if |h| >= n {
        PrefixPositive(h, n);
        MeanPositive(Trailing(h, n));
      }
  }

  /** The leading-missing count of every regular feature column is its warm-up. */
  lemma ColumnLeadingMissing(kind: FeatureKind, p: seq<real>, t: nat, sqrt: real -> real)
    requires t < |p| && AllPositive(p) && Regular(kind)
    ensures Column(kind, p, sqrt)[t].Some? <==> t >= Warmup(kind)
  {
    PrefixPositive(p, t + 1);
    EvaluateDefinedIff(kind, p[..t + 1], sqrt);
  }

  /**
   * The RSI is missing on its first `n - 1` rows; after that it is defined
   * exactly when some price in its window fell, and it lies in [0, 100).
   */
  lemma RsiDefinedIff(h: seq<real>, n: Window, sqrt: real -> real)
    requires |h| >= 1
    ensures Evaluate(Rsi(n), h, sqrt).Some? <==>
      |h| >= n && exists j :: |h| - n <= j < |h| && 1 <= j && h[j] < h[j - 1]
    ensures Evaluate(Rsi(n), h, sqrt).Some? ==>
      0.0 <= Evaluate(Rsi(n), h, sqrt).value < 100.0
  {
    if |h| >= n {
      var gains, losses := TrailingGains(h, n), TrailingLosses(h, n);
      MeanNonNegative(gains);
      MeanNonNegative(losses);
      MeanZeroIff(losses);
      var gain, loss := Mean(gains).value, Mean(losses).value;
      if loss != 0.0 {
        var rs := gain / loss;
        assert rs >= 0.0;
        assert 0.0 < 100.0 / (1.0 + rs) <= 100.0;
        var i :| 0 <= i < n && losses[i] != 0.0;
        assert h[|h| - n + i] < h[|h| - n + i - 1];
      } else {
        forall j | |h| - n <= j < |h| && 1 <= j ensures h[j] >= h[j - 1] {
          assert losses[j - (|h| - n)] == 0.0;
        }
      }
    }
  }

  // ---------------------------------------------------------------- signs

  /** On positive prices the drawdown features lie in (-1, 0]. */
  lemma DrawdownFeaturesInRange(kind: FeatureKind, h: seq<real>, sqrt: real -> real)
    requires |h| >= 1 && AllPositive(h)
    requires kind.CurrentDrawdown? || kind.DistanceToHigh? || kind.RollingMaxDrawdown?
    requires Evaluate(kind, h, sqrt).Some?
    ensures -1.0 < Evaluate(kind, h, sqrt).value <= 0.0
  {
    match kind
    case CurrentDrawdown =>
      DrawdownRange(Last(h), SeqMax(h));
    case DistanceToHigh(w) =>
      assert Trailing(h, w)[w - 1] == Last(h);
      DrawdownRange(Last(h), SeqMax(Trailing(h, w)));
    case RollingMaxDrawdown(w) =>
      PrefixPositive(h, w);
      WindowMaxDrawdownInRange(Trailing(h, w));
  }

  lemma WindowMaxDrawdownInRange(x: seq<real>)
    requires |x| > 0 && AllPositive(x)
    ensures WindowMaxDrawdown(x).Some?
    ensures -1.0 < WindowMaxDrawdown(x).value <= 0.0
  {
    DrawdownsInRange(x);
    SeqMinInRange(Values(Drawdowns(x)));
  }

  /** Bollinger width is non-negative for positive prices and a non-negative band multiplier. */
  lemma BollingerWidthNonNegative(h: seq<real>, n: Window, k: real, sqrt: real -> real)
    requires |h| >= 1 && AllPositive(h) && k >= 0.0 && IsSqrt(sqrt)
    requires Evaluate(BollingerWidth(n, k), h, sqrt).Some?
    ensures Evaluate(BollingerWidth(n, k), h, sqrt).value >= 0.0
  {
    var x := Trailing(h, n);
    PrefixPositive(h, n);
    MeanPositive(x);
    var sd := SampleStd(x, sqrt).value;
    VarianceZeroIffConstant(x);
    assert sd >= 0.0;
    var width := (Mean(x).value + k * sd) - (Mean(x).value - k * sd);
    assert width == 2.0 * k * sd;
    assert width >= 0.0;
  }

  // ------------------------------------------------------------- registry

  /** `FEATURE_REGISTRY`: the fifteen selectable features and their windows. */
  const Registry: map<string, FeatureKind> := map[
    "mom_1m" := PctChange(21),
    "mom_3m" := PctChange(63),
    "mom_6m" := PctChange(126),
    "mom_12m" := PctChange(252),
    "px_sma50" := PriceToSma(50),
    "px_sma200" := PriceToSma(200),
    "sma50_sma200" := SmaCross(50, 200),
    "dist_52w_high" := DistanceToHigh(252),
    "vol_1m" := Volatility(21),
    "vol_3m" := Volatility(63),
    "vol_6m" := Volatility(126),
    "dd_current" := CurrentDrawdown,
    "mdd_12m" := RollingMaxDrawdown(252),
    "rsi_14" := Rsi(14),
    "bb_width" := BollingerWidth(20, 2.0)
  ]

  /** `ALL_FEATURE_IDS`: the registry's keys in declaration order. */
  const AllFeatureIds: seq<string> := [
    "mom_1m", "mom_3m", "mom_6m", "mom_12m",
    "px_sma50", "px_sma200", "sma50_sma200", "dist_52w_high",
    "vol_1m", "vol_3m", "vol_6m", "dd_current", "mdd_12m",
    "rsi_14", "bb_width"
  ]

  predicate Distinct<T(==)>(xs: seq<T>)
  {
    forall i, j :: 0 <= i < j < |xs| ==> xs[i] != xs[j]
  }

  lemma AllFeatureIdsAreRegistryKeys()
    ensures |AllFeatureIds| == 15 && Distinct(AllFeatureIds)
    ensures forall id :: id in Registry <==> id in AllFeatureIds
  {
  }

  /** Every registry feature other than the RSI has the warm-up behaviour above. */
  lemma RegistryRegular(id: string)
    requires id in Registry && id != "rsi_14"
    ensures Regular(Registry[id])
  {
  }
}
