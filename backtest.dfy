/**
 * The next-day backtest: the feature frame with the next day's return as
 * target, the long/flat strategy driven by the model's predictions (signal,
 * one-day-lagged position, trades, costs, net returns, equity curve) and the
 * performance metrics computed from it.
 *
 * The same strategy columns also serve the experiment runner, which feeds
 * them the daily price returns instead of the target column.
 */
module Backtest {
  import opened Numeric
  import opened Features
  import opened Frames
  import opened Shared

  /** Transaction cost in basis points, and the fraction of a unit position it costs. */
  const CostBps: nat := 5
  const CostRate: real := CostBps as real / 10000.0

  const TradingDays: nat := 252

  // ------------------------------------------------------ build_features

  /** `df["target"] = df["ret"].shift(-1)`: each row's target is the next row's daily return. */
  function NextDayTarget(b: Frame): (h: Frame)
    requires WellFormed(b) && Ret in b.cols
    ensures WellFormed(h) && h.price == b.price && h.cols.Keys == b.cols.Keys + {Target}
  {
    Frame(b.price, b.cols[Target := ShiftUp(b.cols[Ret], 1)])
  }

  /** The frame `build_features` holds before dropping rows: base features and the next-day target. */
  function WithNextDayTarget(p: seq<real>, sqrt: real -> real): (h: Frame)
    ensures WellFormed(h) && h.price == p
    ensures h.cols.Keys == BaseNames() + {Target}
  {
    var b := BaseFeatures(PriceFrame(p), sqrt);
    assert Ret in BaseNames();
    NextDayTarget(b)
  }

  /** `build_features`: the rows without any missing value. */
  function BuildFeatures(p: seq<real>, sqrt: real -> real): (g: Frame)
    ensures WellFormed(g) && g.cols.Keys == BaseNames() + {Target}
  {
    var h := WithNextDayTarget(p, sqrt);
    DropNa(h, h.cols.Keys)
  }

  /** The daily return of a positive series at row `t >= 1`. */
  lemma DailyReturnValue(p: seq<real>, t: nat, sqrt: real -> real)
    requires AllPositive(p) && 1 <= t < |p|
    ensures Column(PctChange(1), p, sqrt)[t] == Some(p[t] / p[t - 1] - 1.0)
  {
    var h := p[..t + 1];
    assert Last(h) == p[t] && h[|h| - 2] == p[t - 1];
    assert p[t - 1] > 0.0;
  }

  /** On a frame whose complete rows are those from `lo` on, the kept rows before adding the target. */
  lemma NextDayCompleteRows(b: Frame, lo: nat, t: nat)
    requires WellFormed(b) && Ret in b.cols && Target !in b.cols && t < |b.price|
    requires forall t :: 0 <= t < |b.price| ==> (RowComplete(b, b.cols.Keys, t) <==> lo <= t)
    ensures var h := NextDayTarget(b); RowComplete(h, h.cols.Keys, t) <==> lo <= t < |b.price| - 1
  {
    var h := NextDayTarget(b);
    assert RowComplete(h, h.cols.Keys, t) <==> RowComplete(b, b.cols.Keys, t) && h.cols[Target][t].Some? by {
      forall c | c in b.cols ensures h.cols[c] == b.cols[c] { }
    }
    if t + 1 < |b.price| && lo <= t {
      assert RowComplete(b, b.cols.Keys, t + 1);
    }
  }

  /**
   * On any frame whose complete rows are those from `lo` on, adding the
   * next-day target and dropping incomplete rows keeps rows `lo .. n - 2`:
   * the last row loses its target.
   */
  lemma NextDayDropNa(b: Frame, lo: nat)
    requires WellFormed(b) && Ret in b.cols && Target !in b.cols && lo < |b.price|
    requires forall t :: 0 <= t < |b.price| ==> (RowComplete(b, b.cols.Keys, t) <==> lo <= t)
    ensures var h := NextDayTarget(b); DropNa(h, h.cols.Keys) == SliceRows(h, lo, |b.price| - 1)
  {
    var h := NextDayTarget(b);
    forall t | 0 <= t < |b.price| ensures RowComplete(h, h.cols.Keys, t) <==> lo <= t < |b.price| - 1 {
      NextDayCompleteRows(b, lo, t);
    }
    DropNaInterval(h, h.cols.Keys, lo, |b.price| - 1);
  }

  /** The same, row by row: kept row `i` is row `lo + i`, and its target is row `lo + i + 1`'s return. */
  lemma NextDayDropNaRows(b: Frame, lo: nat)
    requires WellFormed(b) && Ret in b.cols && Target !in b.cols && lo < |b.price|
    requires forall t :: 0 <= t < |b.price| ==> (RowComplete(b, b.cols.Keys, t) <==> lo <= t)
    ensures var h := NextDayTarget(b); var g := DropNa(h, h.cols.Keys);
      |g.price| == |b.price| - 1 - lo &&
      (forall i :: 0 <= i < |g.price| ==> g.price[i] == b.price[lo + i]) &&
      (forall c, i :: c in b.cols && 0 <= i < |g.price| ==> g.cols[c][i] == b.cols[c][lo + i]) &&
      (forall i :: 0 <= i < |g.price| ==> g.cols[Target][i] == b.cols[Ret][lo + i + 1])
  {
    NextDayDropNa(b, lo);
    var h := NextDayTarget(b);
    forall c | c in b.cols ensures h.cols[c] == b.cols[c] { }
  }

  /** On a frame with no complete row, nothing is kept. */
  lemma NextDayDropNaEmpty(b: Frame, lo: nat)
    requires WellFormed(b) && Ret in b.cols && Target !in b.cols && lo >= |b.price|
    requires forall t :: 0 <= t < |b.price| ==> (RowComplete(b, b.cols.Keys, t) <==> lo <= t)
    ensures var h := NextDayTarget(b); |DropNa(h, h.cols.Keys).price| == 0
  {
    var h := NextDayTarget(b);
    forall t | 0 <= t < |b.price| ensures RowComplete(h, h.cols.Keys, t) <==> 0 <= t < 0 {
      NextDayCompleteRows(b, lo, t);
    }
    DropNaInterval(h, h.cols.Keys, 0, 0);
  }

  /**
   * On positive prices with a row past the warm-up, `build_features` is the
   * slice of rows 49 .. n - 2: the 50-day moving average is the longest
   * warm-up and the last row has no next-day return.
   */
  lemma BuildFeaturesIsSlice(p: seq<real>, sqrt: real -> real)
    requires AllPositive(p) && |p| > BaseWarmup
    ensures BuildFeatures(p, sqrt) == SliceRows(WithNextDayTarget(p, sqrt), BaseWarmup, |p| - 1)
  {
    var b := BaseFeatures(PriceFrame(p), sqrt);
    BaseFeaturesCompleteRows(p, sqrt);
    assert Ret in b.cols && Target !in b.cols;
    NextDayDropNa(b, BaseWarmup);
  }

  /** With no row past the warm-up nothing is kept. */
  lemma BuildFeaturesEmpty(p: seq<real>, sqrt: real -> real)
    requires AllPositive(p) && |p| <= BaseWarmup
    ensures |BuildFeatures(p, sqrt).price| == 0
  {
    var b := BaseFeatures(PriceFrame(p), sqrt);
    BaseFeaturesCompleteRows(p, sqrt);
    assert Ret in b.cols && Target !in b.cols;
    NextDayDropNaEmpty(b, BaseWarmup);
  }

  /** Before dropping, each base column is its feature and the target is the next day's return, missing on the last row. */
  lemma NextDayTargetValue(p: seq<real>, t: nat, sqrt: real -> real)
    requires AllPositive(p) && t < |p|
    ensures var h := WithNextDayTarget(p, sqrt);
      (forall c :: c in BaseNames() ==> h.cols[c] == Column(BaseKind(c).value, p, sqrt)) &&
      if t + 1 < |p| then h.cols[Target][t] == Some(p[t + 1] / p[t] - 1.0) else h.cols[Target][t] == None
  {
    var b := BaseFeatures(PriceFrame(p), sqrt);
    var r := Column(PctChange(1), p, sqrt);
    assert Ret in b.cols && b.cols[Ret] == r;
    if t + 1 < |p| {
      assert r[t + 1] == Some(p[t + 1] / p[t] - 1.0) by {
        DailyReturnValue(p, t + 1, sqrt);
      }
    }
  }

  // ------------------------------------------------------------ strategy

  /** `(pred > 0).astype(int)`: long on a positive prediction, flat otherwise. */
  function Signal(pred: seq<real>): (s: seq<int>)
    ensures |s| == |pred|
    ensures forall t :: 0 <= t < |s| ==> (s[t] == 0 || s[t] == 1) && (s[t] == 1 <==> pred[t] > 0.0)
  {
    seq(|pred|, t requires 0 <= t < |pred| => if pred[t] > 0.0 then 1 else 0)
  }

  /** `signal.shift(1).fillna(0)`: the signal of a row is acted on the next row. */
  function Position(signal: seq<int>): (pos: seq<real>)
    ensures |pos| == |signal|
  {
    seq(|signal|, t requires 0 <= t < |signal| => if t == 0 then 0.0 else signal[t - 1] as real)
  }

  /** `diff().abs().fillna(0)` at row `t`. */
  function AbsChange(pos: seq<real>, t: nat): real
    requires t < |pos|
  {
    if t == 0 then 0.0 else Abs(pos[t] - pos[t - 1])
  }

  /** `position.diff().abs().fillna(0)`. */
  function Trade(pos: seq<real>): (tr: seq<real>)
    ensures |tr| == |pos|
  {
    seq(|pos|, t requires 0 <= t < |pos| => AbsChange(pos, t))
  }

  /** `trade * (COST_BPS / 10000)`. */
  function Cost(trade: seq<real>): (c: seq<real>)
    ensures |c| == |trade|
  {
    seq(|trade|, t requires 0 <= t < |trade| => trade[t] * CostRate)
  }

  /** `position * ret`, missing where the return is. */
  function StrategyReturns(pos: seq<real>, ret: seq<Option<real>>): (r: seq<Option<real>>)
    requires |pos| == |ret|
    ensures |r| == |ret|
  {
    seq(|ret|, t requires 0 <= t < |ret| => if ret[t].Some? then Some(pos[t] * ret[t].value) else None)
  }

  /** `strat_ret - cost`. */
  function NetReturns(strat: seq<Option<real>>, cost: seq<real>): (r: seq<Option<real>>)
    requires |strat| == |cost|
    ensures |r| == |strat|
  {
    seq(|strat|, t requires 0 <= t < |strat| => if strat[t].Some? then Some(strat[t].value - cost[t]) else None)
  }

  /** The growth factor `1 + r` of one row; a missing return is skipped by `cumprod`. */
  function Factor(r: Option<real>): real
  {
    if r.Some? then 1.0 + r.value else 1.0
  }

  /** The product of the growth factors of all rows. */
  function Growth(net: seq<Option<real>>): real
  {
    if |net| == 0 then 1.0 else Growth(net[..|net| - 1]) * Factor(net[|net| - 1])
  }

  /** `(1 + net).cumprod()`: missing where the net return is, else the growth so far. */
  function CumProd(net: seq<Option<real>>): (eq: seq<Option<real>>)
    ensures |eq| == |net|
  {
    seq(|net|, t requires 0 <= t < |net| => if net[t].Some? then Some(Growth(net[..t + 1])) else None)
  }

  /** The columns `backtest` adds to the test frame. */
  datatype Strategy = Strategy(
    signal: seq<int>, position: seq<real>, stratRet: seq<Option<real>>,
    trade: seq<real>, cost: seq<real>, net: seq<Option<real>>, equity: seq<Option<real>>)

  /** The strategy columns for predictions `pred` and per-row returns `ret`. */
  function Simulated(pred: seq<real>, ret: seq<Option<real>>): (s: Strategy)
    requires |pred| == |ret|
    ensures |s.signal| == |s.position| == |s.stratRet| == |s.trade| == |s.cost| == |s.net| == |s.equity| == |ret|
  {
    var signal := Signal(pred);
    var pos := Position(signal);
    var strat := StrategyReturns(pos, ret);
    var trade := Trade(pos);
    var cost := Cost(trade);
    var net := NetReturns(strat, cost);
    Strategy(signal, pos, strat, trade, cost, net, CumProd(net))
  }

  /** `cumprod` as a running product over an array. */
  method EquityCurve(net: seq<Option<real>>) returns (eq: seq<Option<real>>)
    ensures eq == CumProd(net)
  {
    var a := new Option<real>[|net|];
    var acc := 1.0;
    for t := 0 to |net|
      invariant acc == Growth(net[..t])
      invariant forall s :: 0 <= s < t ==> a[s] == CumProd(net)[s]
    {
      assert net[..t + 1][..t] == net[..t];
      acc := acc * Factor(net[t]);
      a[t] := if net[t].Some? then Some(acc) else None;
    }
    eq := a[..];
  }

  /** `backtest` (and the same columns in `run_backtest`), one column after another. */
  method RunStrategy(pred: seq<real>, ret: seq<Option<real>>) returns (s: Strategy)
    requires |pred| == |ret|
    ensures s == Simulated(pred, ret)
  {
    var signal := Signal(pred);
    var pos := Position(signal);
    var strat := StrategyReturns(pos, ret);
    var trade := Trade(pos);
    var cost := Cost(trade);
    var net := NetReturns(strat, cost);
    var equity := EquityCurve(net);
    s := Strategy(signal, pos, strat, trade, cost, net, equity);
  }

  // ----------------------------------------------------- strategy lemmas

  /** The position starts flat and then holds the previous row's signal, so it is 0 or 1. */
  lemma PositionLagsSignal(pred: seq<real>, ret: seq<Option<real>>, t: nat)
    requires |pred| == |ret| && t < |pred|
    ensures var s := Simulated(pred, ret);
      (t == 0 ==> s.position[t] == 0.0) &&
      (t > 0 ==> s.position[t] == s.signal[t - 1] as real) &&
      (s.position[t] == 0.0 || s.position[t] == 1.0)
  {
  }

  /** The position held on row `t`, read directly off the predictions: long after a positive prediction the row before. */
  function Held(pred: seq<real>, t: nat): real
    requires t < |pred|
  {
    if t > 0 && pred[t - 1] > 0.0 then 1.0 else 0.0
  }

  /** Row `t` of the strategy in terms of the positions held on rows `t - 1` and `t`. */
  lemma StrategyAt(pred: seq<real>, ret: seq<Option<real>>, t: nat)
    requires |pred| == |ret| && t < |pred|
    ensures var s := Simulated(pred, ret);
      s.position[t] == Held(pred, t) &&
      s.trade[t] == (if t == 0 then 0.0 else Abs(Held(pred, t) - Held(pred, t - 1))) &&
      s.net[t] == (if ret[t].Some? then Some(Held(pred, t) * ret[t].value - s.trade[t] * CostRate) else None)
  {
  }

  /**
   * No lookahead: the position, trade and net return of row `t` depend on the
   * predictions of rows before `t` only, never on row `t`'s own prediction.
   */
  lemma NoLookahead(pred: seq<real>, pred': seq<real>, ret: seq<Option<real>>, t: nat)
    requires |pred| == |pred'| == |ret| && t < |ret| && pred[..t] == pred'[..t]
    ensures Simulated(pred, ret).position[t] == Simulated(pred', ret).position[t]
    ensures Simulated(pred, ret).trade[t] == Simulated(pred', ret).trade[t]
    ensures Simulated(pred, ret).net[t] == Simulated(pred', ret).net[t]
  {
    StrategyAt(pred, ret, t);
    StrategyAt(pred', ret, t);
    if t > 0 {
      assert pred[t - 1] == pred[..t][t - 1];
      assert Held(pred, t) == Held(pred', t);
    }
    if t > 1 {
      assert pred[t - 2] == pred[..t][t - 2];
      assert Held(pred, t - 1) == Held(pred', t - 1);
    }
  }

  /** A trade is 0 or 1, and it is 1 exactly on a row whose position differs from the previous one. */
  lemma TradeOnPositionChange(pred: seq<real>, ret: seq<Option<real>>, t: nat)
    requires |pred| == |ret| && t < |pred|
    ensures var s := Simulated(pred, ret);
      (s.trade[t] == 0.0 || s.trade[t] == 1.0) &&
      (s.trade[t] == 1.0 <==> t > 0 && s.position[t] != s.position[t - 1]) &&
      s.cost[t] == (if t > 0 && s.position[t] != s.position[t - 1] then 0.0005 else 0.0)
  {
    var s := Simulated(pred, ret);
    PositionLagsSignal(pred, ret, t);
    if t > 0 {
      PositionLagsSignal(pred, ret, t - 1);
    }
  }

  /** The net return of a row is its position times its return less the cost, missing where the return is. */
  lemma NetReturnValue(pred: seq<real>, ret: seq<Option<real>>, t: nat)
    requires |pred| == |ret| && t < |pred|
    ensures var s := Simulated(pred, ret);
      (ret[t].Some? ==> s.net[t].Some? && s.net[t].value == s.position[t] * ret[t].value - s.cost[t]) &&
      (ret[t].None? ==> s.net[t].None?)
  {
  }

  lemma GrowthStep(net: seq<Option<real>>, t: nat)
    requires t < |net|
    ensures Growth(net[..t + 1]) == Growth(net[..t]) * Factor(net[t])
  {
    assert net[..t + 1][..t] == net[..t];
  }

  /**
   * Each defined equity point is the growth of the rows before it times the
   * growth factor `1 + net` of its own row; the first point is that factor.
   */
  lemma EquityRecurrence(net: seq<Option<real>>, t: nat)
    requires t < |net| && net[t].Some?
    ensures Factor(net[t]) == 1.0 + net[t].value
    ensures CumProd(net)[t] == Some(Growth(net[..t]) * Factor(net[t]))
    ensures t == 0 ==> CumProd(net)[t] == Some(Factor(net[t]))
    ensures t > 0 && net[t - 1].Some? ==> CumProd(net)[t].value == CumProd(net)[t - 1].value * Factor(net[t])
  {
    GrowthStep(net, t);
    if t == 0 {
      assert net[..0] == [];
    }
  }

  lemma ProductAtLeast(a: real, f: real)
    requires a >= 0.0 && f >= 1.0
    ensures a * f >= a
  {
    assert a * f - a == a * (f - 1.0);
  }

  /** With no negative net return the growth never falls below 1. */
  lemma {:induction false} GrowthAtLeastOne(net: seq<Option<real>>, j: nat)
    requires j <= |net|
    requires forall t :: 0 <= t < |net| && net[t].Some? ==> net[t].value >= 0.0
    ensures Growth(net[..j]) >= 1.0
  {
    if j == 0 {
      assert net[..0] == [];
    } else {
      GrowthAtLeastOne(net, j - 1);
      assert net[..j][..j - 1] == net[..j - 1];
      ProductAtLeast(Growth(net[..j - 1]), Factor(net[j - 1]));
    }
  }

  /** ... and only rises along the rows. */
  lemma {:induction false} GrowthMonotone(net: seq<Option<real>>, i: nat, j: nat)
    requires i <= j <= |net|
    requires forall t :: 0 <= t < |net| && net[t].Some? ==> net[t].value >= 0.0
    ensures 1.0 <= Growth(net[..i]) <= Growth(net[..j])
    decreases j - i
  {
    GrowthAtLeastOne(net, i);
    if i < j {
      GrowthMonotone(net, i, j - 1);
      GrowthAtLeastOne(net, j - 1);
      assert net[..j][..j - 1] == net[..j - 1];
      ProductAtLeast(Growth(net[..j - 1]), Factor(net[j - 1]));
    }
  }

  /** If no net return is negative the equity curve never falls. */
  lemma EquityNonDecreasing(net: seq<Option<real>>)
    requires forall t :: 0 <= t < |net| && net[t].Some? ==> net[t].value >= 0.0
    ensures forall s, t :: 0 <= s <= t < |net| && net[s].Some? && net[t].Some? ==>
      1.0 <= CumProd(net)[s].value <= CumProd(net)[t].value
  {
    forall s, t | 0 <= s <= t < |net| && net[s].Some? && net[t].Some?
      ensures 1.0 <= CumProd(net)[s].value <= CumProd(net)[t].value
    {
      GrowthMonotone(net, s + 1, t + 1);
    }
  }

  /** If every net return is above -100% every equity point is positive. */
  lemma {:induction false} GrowthPositive(net: seq<Option<real>>)
    requires forall t :: 0 <= t < |net| && net[t].Some? ==> net[t].value > -1.0
    ensures Growth(net) > 0.0
  {
    if |net| > 0 {
      var init := net[..|net| - 1];
      assert forall t :: 0 <= t < |init| ==> init[t] == net[t];
      GrowthPositive(init);
      ProductPositive(Growth(init), Factor(net[|net| - 1]), Growth(net));
    }
  }

  /** With a return on every row the net returns and the equity are defined everywhere. */
  lemma DefinedEverywhere(pred: seq<real>, ret: seq<Option<real>>)
    requires |pred| == |ret| && AllSome(ret)
    ensures AllSome(Simulated(pred, ret).net) && AllSome(Simulated(pred, ret).equity)
  {
  }

  /**
   * In `backtest` the first row holds no position and makes no trade, so the
   * equity curve starts at exactly 1.
   */
  lemma EquityStartsAtOne(pred: seq<real>, target: seq<real>)
    requires |pred| == |target| > 0
    ensures Simulated(pred, Lift(target)).equity[0] == Some(1.0)
  {
    var s := Simulated(pred, Lift(target));
    assert s.net[0] == Some(0.0);
    EquityRecurrence(s.net, 0);
  }

  // -------------------------------------------------------------- metrics

  datatype Metrics = Metrics(
    totalReturn: Option<real>, cagr: real, annVolatility: Option<real>,
    sharpe: real, maxDrawdown: Option<real>, calmar: Option<real>)

  /** `returns.std() * sqrt(252)`: not finite for no returns. */
  function AnnualVolatility(rets: seq<real>, sqrt: real -> real): (v: Option<real>)
    ensures v.Some? <==> |rets| > 0
  {
    if |rets| == 0 then None else Some(Std(rets, sqrt).value * sqrt(TradingDays as real))
  }

  /**
   * The metrics of `compute_metrics` (and of `run_backtest`, which omits
   * the Calmar ratio): a missing value is a NaN or infinite result.
   * Sharpe is 0 unless the annual volatility is positive; Calmar is 0 when
   * there is no drawdown.
   */
  function Performance(rets: seq<real>, equity: seq<real>, sqrt: real -> real,
                       pow: (real, real) -> real): (m: Metrics)
    requires |equity| > 0
    ensures m.maxDrawdown == WindowMaxDrawdown(equity)
    ensures m.annVolatility == AnnualVolatility(rets, sqrt)
    ensures m.maxDrawdown == Some(0.0) ==> m.calmar == Some(0.0)
    ensures m.maxDrawdown.None? <==> m.calmar.None?
    ensures (m.annVolatility.None? || m.annVolatility.value <= 0.0) ==> m.sharpe == 0.0
  {
    var last := equity[|equity| - 1];
    var years := |rets| as real / TradingDays as real;
    var cagr := if years > 0.0 then pow(last, 1.0 / years) - 1.0 else 0.0;
    var annVol := AnnualVolatility(rets, sqrt);
    var sharpe := if annVol.Some? && annVol.value > 0.0 then Mean(rets).value * TradingDays as real / annVol.value else 0.0;
    var maxDd := WindowMaxDrawdown(equity);
    var calmar := if maxDd.None? then None else if maxDd.value != 0.0 then Some(cagr / Abs(maxDd.value)) else Some(0.0);
    Metrics(MinusOne(Quot(last, equity[0])), cagr, annVol, sharpe, maxDd, calmar)
  }

  /** numpy `maximum.accumulate`, filled into an array one row at a time. */
  method RunningPeak(x: seq<real>) returns (peak: seq<real>)
    ensures peak == RunningMax(x)
  {
    var a := new real[|x|];
    for t := 0 to |x|
      invariant forall s :: 0 <= s < t ==> a[s] == RunningMax(x)[s]
    {
      if t == 0 {
        a[t] := x[0];
      } else {
        assert x[..t + 1][..t] == x[..t];
        a[t] := if x[t] > a[t - 1] then x[t] else a[t - 1];
      }
    }
    peak := a[..];
  }

  /** `((equity - peak) / peak).min()` against the running peak. */
  method MaxDrawdown(equity: seq<real>) returns (m: Option<real>)
    requires |equity| > 0
    ensures m == WindowMaxDrawdown(equity)
  {
    var peak := RunningPeak(equity);
    var dd := seq(|equity|, i requires 0 <= i < |equity| => Quot(equity[i] - peak[i], peak[i]));
    assert dd == Drawdowns(equity);
    m := if AllSome(dd) then Some(SeqMin(Values(dd))) else None;
  }

  /** `compute_metrics` of a `backtest` frame; `equity[-1]` fails on an empty test frame. */
  function BacktestMetrics(pred: seq<real>, target: seq<real>, sqrt: real -> real,
                           pow: (real, real) -> real): (r: Result<Metrics, string>)
    requires |pred| == |target|
    ensures r.Success? <==> |target| > 0
  {
    var s := Simulated(pred, Lift(target));
    DefinedEverywhere(pred, Lift(target));
    if |target| == 0 then Failure("index -1 is out of bounds for an empty test frame")
    else Success(Performance(Values(s.net), Values(s.equity), sqrt, pow))
  }

  /** Since the curve starts at 1, the total return is the compounded net return of the whole test period. */
  lemma BacktestTotalReturn(pred: seq<real>, target: seq<real>, sqrt: real -> real, pow: (real, real) -> real)
    requires |pred| == |target| > 0
    ensures var s := Simulated(pred, Lift(target));
      BacktestMetrics(pred, target, sqrt, pow).value.totalReturn == Some(Growth(s.net) - 1.0)
  {
    var s := Simulated(pred, Lift(target));
    EquityStartsAtOne(pred, target);
    DefinedEverywhere(pred, Lift(target));
    var n := |target|;
    assert s.net[..n] == s.net;
    var eq := Values(s.equity);
    assert eq[0] == 1.0 && eq[n - 1] == Growth(s.net);
  }

  lemma ZeroQuotient(a: real, b: real)
    requires b != 0.0
    ensures a / b == 0.0 <==> a == 0.0
  {
    if a / b == 0.0 {
      assert a == (a / b) * b;
    }
  }

  /** A positive series has no drawdown exactly when it never falls. */
  lemma NoDrawdownIffNonDecreasing(x: seq<real>)
    requires |x| > 0 && AllPositive(x)
    ensures WindowMaxDrawdown(x) == Some(0.0) <==> forall i, j :: 0 <= i <= j < |x| ==> x[i] <= x[j]
  {
    var peak := RunningMax(x);
    var dd := Drawdowns(x);
    DrawdownsInRange(x);
    var v := Values(dd);
    forall i | 0 <= i < |x| ensures v[i] == 0.0 <==> x[i] == peak[i] {
      RunningMaxBounds(x, i);
      assert dd[i] == Some((x[i] - peak[i]) / peak[i]);
      ZeroQuotient(x[i] - peak[i], peak[i]);
    }
    if WindowMaxDrawdown(x) == Some(0.0) {
      forall i, j | 0 <= i <= j < |x| ensures x[i] <= x[j] {
        assert v[j] >= SeqMin(v);
        RunningMaxBounds(x, j);
      }
    }
    if forall i, j :: 0 <= i <= j < |x| ==> x[i] <= x[j] {
      forall i | 0 <= i < |x| ensures v[i] == 0.0 {
        RunningMaxBounds(x, i);
        var k :| 0 <= k <= i && x[k] == peak[i];
      }
      var k :| 0 <= k < |v| && v[k] == SeqMin(v);
    }
  }

  /**
   * On positive equity the maximum drawdown lies in (-1, 0], the Calmar ratio
   * is defined, and both are 0 exactly when the curve never falls.
   */
  lemma DrawdownAndCalmar(rets: seq<real>, equity: seq<real>, sqrt: real -> real, pow: (real, real) -> real)
    requires |equity| > 0 && AllPositive(equity)
    ensures var m := Performance(rets, equity, sqrt, pow);
      m.maxDrawdown.Some? && -1.0 < m.maxDrawdown.value <= 0.0 && m.calmar.Some? &&
      (m.maxDrawdown.value == 0.0 <==> forall i, j :: 0 <= i <= j < |equity| ==> equity[i] <= equity[j]) &&
      ((forall i, j :: 0 <= i <= j < |equity| ==> equity[i] <= equity[j]) ==> m.calmar.value == 0.0)
  {
    WindowMaxDrawdownInRange(equity);
    NoDrawdownIffNonDecreasing(equity);
  }

  lemma ScaledRootPositive(sd: real, r: real)
    requires sd >= 0.0 && r > 0.0
    ensures sd * r > 0.0 <==> sd != 0.0
  {
    if sd != 0.0 {
      ProductPositive(sd, r, sd * r);
    }
  }

  /** The annual volatility is positive exactly when the returns are not all equal. */
  lemma AnnualVolatilityPositiveIff(rets: seq<real>, sqrt: real -> real)
    requires IsSqrt(sqrt) && |rets| > 0
    ensures AnnualVolatility(rets, sqrt).Some?
    ensures AnnualVolatility(rets, sqrt).value > 0.0 <==> exists i :: 0 <= i < |rets| && rets[i] != rets[0]
  {
    var n := |rets| as real;
    var ssd := SumSquaredDeviations(rets);
    VarianceZeroIffConstant(rets);
    var pv := PopVariance(rets).value;
    assert pv == ssd / n;
    assert pv >= 0.0 && (pv == 0.0 <==> ssd == 0.0) by {
      ZeroQuotient(ssd, n);
    }
    SqrtZeroIff(sqrt, pv);
    SqrtZeroIff(sqrt, TradingDays as real);
    ScaledRootPositive(sqrt(pv), sqrt(TradingDays as real));
  }

  /** Flat net returns have zero annual volatility, hence a Sharpe ratio of 0. */
  lemma FlatReturnsZeroSharpe(rets: seq<real>, equity: seq<real>, sqrt: real -> real, pow: (real, real) -> real)
    requires IsSqrt(sqrt) && |rets| > 0 && |equity| > 0
    requires forall i :: 0 <= i < |rets| ==> rets[i] == rets[0]
    ensures Performance(rets, equity, sqrt, pow).sharpe == 0.0
  {
    AnnualVolatilityPositiveIff(rets, sqrt);
  }
}
