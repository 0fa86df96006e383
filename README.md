# ETF experiment runner — a Dafny model

The ETF backtest scripts turn a daily price series into feature columns. They then train a small
regressor on a chronological train/validation/test split and evaluate it on the test rows. They run a
long-only backtest of the predictions and issue a 12-month forward forecast with an uncertainty band.

This project models the four scripts that do this work:

- `shared.py`: the feature registry, the base feature set, the split, the train-only standardization and
  the early-stopping training loop.
- `run_experiment.py`: one experiment per request. It validates the feature ids, builds the feature rows,
  measures the fit on the test rows (overlapping and non-overlapping scores), computes the uncertainty with
  its extrapolation penalty and market floor, runs the backtest and makes the forecast.
- `backtest.py`: the next-day-return backtest with a one-row position lag and 5 bp transaction costs.
- `predict.py`: the 252-day forward forecast on the fixed base feature set.

## How the model is built

- **Modules.** The modules follow the scripts:
  - `Numeric`: sums, means, population std, running maxima and drawdowns, NaN dropping.
  - `Features`: the registry of feature kinds and their evaluation.
  - `Frames`: the data-frame operations the scripts use (shift, dropna, iloc slices, last complete row).
  - `Shared` and `Training`: shared.py.
  - `Backtest`: backtest.py.
  - `Experiment`: run_experiment.py.
  - `Predict`: predict.py.
- **Numbers.**
  - Exact `real` arithmetic, no floats.
  - A numpy/pandas NaN is `None` in an `Option<real>` (`Col = seq<Option<real>>`).
  - A division by zero is also `None`.
  - Square root and fractional power are function parameters (`sqrt`, `pow`). Lemmas that need the
    meaning of a square root require `IsSqrt(sqrt)`.
- **Frames.** A data frame is `Frame(price, cols)` with a map from `ColumnName` to column. The lag columns
  `ret_lag1..ret_lag20` are `RetLag(1)..RetLag(20)` and a registry feature is `Registered(id)`.
- **Feature registry.** `FEATURE_REGISTRY` is a datatype of feature kinds that carry their windows.
  `Evaluate(kind, h)` gives the value at the last row of the price prefix `h`.
  `Column(kind, p)[t] == Evaluate(kind, p[..t+1])`, so a feature cannot read later prices.
- **The model regressor.** The network is a parameter: a `Trainer` function from the standardized
  matrices to a prediction function. Inside `Training`:
  - the loop the source runs is a method over an `Mlp` object whose parameter `Tensor` it updates in
    place;
  - one optimiser step on a batch is a parameter `step`;
  - the validation loss of a weight vector is a parameter `valLoss`;
  - the shuffle of each epoch is a parameter `perms`.
- **Code over design intent.** The design intent is that training returns the best-validation-loss
  snapshot. The code keeps `model.state_dict()` without copying it, so it returns the parameters of the
  last epoch it ran. The model follows the code (`Training.TrainModel`) and records the discrepancy
  under "Findings". The corrected loop is `Training.TrainModelCopyingSnapshot`. The intent also speaks of
  "whole batches". The code takes `ceil(n / 32)` batches, so the last batch of an epoch may be partial
  (`Training.BatchesCoverPermutation`).

## Model

| member | source | states |
|---|---|---|
| Numeric.Mean | src/cli/etf-backtest/scripts/run_experiment.py:182-183 | `np.mean`: defined exactly for a nonempty sequence, and then mean × length equals the sum |
| Numeric.MeanZeroIff | src/cli/etf-backtest/scripts/run_experiment.py:183 | the mean of non-negative values (absolute errors) is 0 exactly when every value is 0 |
| Numeric.VarianceZeroIffConstant | src/cli/etf-backtest/scripts/shared.py:122-123 | the sum of squared deviations is non-negative and is 0 exactly when the column is constant, which is when `std[std == 0] = 1` applies |
| Numeric.StandardizedUnitVariance | src/cli/etf-backtest/scripts/shared.py:121-125 | centring a non-constant column on its mean and dividing by its population std gives population variance exactly 1 |
| Numeric.CentredScaledMean | src/cli/etf-backtest/scripts/shared.py:125 | a column centred on its own mean and scaled by any factor has mean 0 |
| Numeric.SqrtZeroIff | src/cli/etf-backtest/scripts/run_experiment.py:116 | a square root of a non-negative value is non-negative and is 0 exactly when the value is 0 |
| Numeric.RunningMaxBounds | src/cli/etf-backtest/scripts/run_experiment.py:119 | `np.maximum.accumulate`: entry i is at least every earlier value and equals one of them |
| Numeric.DrawdownsInRange | src/cli/etf-backtest/scripts/run_experiment.py:119-120 | for positive values every drawdown `(x - peak) / peak` is defined and lies in (-1, 0] |
| Numeric.DropMissingAfterFirst | src/cli/etf-backtest/scripts/run_experiment.py:105-106 | `dropna` of a series missing only its first entry is the series from the second entry on |
| Features.Column | src/cli/etf-backtest/scripts/shared.py:237-260 | a registry column has one entry per price row, each the feature evaluated on the prices up to that row |
| Features.ColumnIgnoresLaterPrices | src/cli/etf-backtest/scripts/shared.py:237-260 | the first m rows of a feature column do not change when the prices after row m are removed (no lookahead) |
| Features.ColumnDependsOnPrefix | src/cli/etf-backtest/scripts/shared.py:237-260 | two price series that agree up to row t give every feature the same value at row t |
| Features.PctDefined | src/cli/etf-backtest/scripts/shared.py:239-242 | on positive prices `pct_change(k)` is defined exactly from row k on |
| Features.RollingMeanPositive | src/cli/etf-backtest/scripts/shared.py:245-247 | on positive prices `rolling(w).mean()` is defined exactly once w rows exist, and it is then positive |
| Features.EvaluateDefinedIff | src/cli/etf-backtest/scripts/shared.py:237-260 | for every registry kind except RSI, on positive prices the feature is defined exactly from its warm-up row on (k, w-1, w for the return std, 0 for the current drawdown) |
| Features.ColumnLeadingMissing | src/cli/etf-backtest/scripts/shared.py:237-260 | for those kinds a column is missing exactly on its leading warm-up rows |
| Features.RsiDefinedIff | src/cli/etf-backtest/scripts/shared.py:209-215 | RSI is defined exactly when the window of n rows exists and contains a falling day (a zero average loss becomes NaN), and it then lies in [0, 100) |
| Features.DrawdownFeaturesInRange | src/cli/etf-backtest/scripts/shared.py:248-255 | `dist_52w_high`, `dd_current` and `mdd_12m` lie in (-1, 0] wherever they are defined on positive prices |
| Features.WindowMaxDrawdownInRange | src/cli/etf-backtest/scripts/shared.py:227-233 | the maximum drawdown of a positive window is defined and lies in (-1, 0] |
| Features.BollingerWidthNonNegative | src/cli/etf-backtest/scripts/shared.py:218-224 | the Bollinger width with a non-negative band multiplier is non-negative on positive prices |
| Features.AllFeatureIdsAreRegistryKeys | src/cli/etf-backtest/scripts/shared.py:262 | `ALL_FEATURE_IDS` lists 15 distinct ids and they are exactly the registry's keys |
| Features.RegistryRegular | src/cli/etf-backtest/scripts/shared.py:237-260 | every registry feature except `rsi_14` has a fixed warm-up |
| Frames.PriceFrame | src/cli/etf-backtest/scripts/shared.py:52-53 | the loaded frame consists of the price column alone |
| Frames.ShiftDown | src/cli/etf-backtest/scripts/shared.py:69 | `shift(i)`: row t holds row t-i, and the first i rows are missing |
| Frames.ShiftUp | src/cli/etf-backtest/scripts/shared.py:287 | `shift(-i)`: row t holds row t+i, and the last i rows are missing |
| Frames.KeptRows | src/cli/etf-backtest/scripts/run_experiment.py:268 | the rows `dropna` keeps are increasing, and a row is kept exactly when all subset columns are defined there |
| Frames.DropNa | src/cli/etf-backtest/scripts/run_experiment.py:268 | `dropna(subset)` keeps the columns, shortens the frame, and leaves every subset column defined on every remaining row |
| Frames.DropNaLastRow | src/cli/etf-backtest/scripts/run_experiment.py:300-301 | after `dropna` the last row is the last complete row of the original frame, in every column |
| Frames.DropNaEmptyIff | src/cli/etf-backtest/scripts/run_experiment.py:144-147 | `dropna` leaves no rows exactly when no row is complete |
| Frames.LastCompleteRow | src/cli/etf-backtest/scripts/predict.py:54-61 | `dropna(subset).iloc[-1][cols]`: on success one value per requested column |
| Frames.LastCompleteRowIsLatest | src/cli/etf-backtest/scripts/predict.py:54-61 | the row returned holds the values of the latest row where all requested columns are defined |
| Frames.LastCompleteRowFails | src/cli/etf-backtest/scripts/predict.py:56-57 | the lookup fails exactly when no row is complete |
| Frames.DropNaInterval | src/cli/etf-backtest/scripts/backtest.py:40 | when the complete rows form the interval [lo, hi), `dropna().reset_index()` equals the `iloc[lo:hi]` slice |
| Frames.SliceConcat | src/cli/etf-backtest/scripts/shared.py:97-99 | the slices `[:a]`, `[a:b]` and `[b:]` concatenate back to the frame |
| Frames.Select | src/cli/etf-backtest/scripts/run_experiment.py:207-208 | `y[indices]` picks the indexed rows in order (also the row selection of `dropna`) |
| Frames.Matrix | src/cli/etf-backtest/scripts/shared.py:112-114 | `df[cols].values` is a matrix with one row per frame row, holding the requested columns in order |
| Shared.BaseNames | src/cli/etf-backtest/scripts/shared.py:64-78 | the base feature set is ret, ret_lag1..20, ma_short, ma_long, ma_ratio_short, ma_ratio_long and volatility |
| Shared.BaseFeatures | src/cli/etf-backtest/scripts/shared.py:57-80 | `build_base_features` keeps the prices and adds a well-formed frame of columns |
| Shared.ShiftedReturnIsLag | src/cli/etf-backtest/scripts/shared.py:65-69 | the daily return shifted by i equals the return of i rows earlier |
| Shared.RatioColumnIsPriceToSma | src/cli/etf-backtest/scripts/shared.py:72-75 | `price / ma - 1` built from the moving-average column equals the registry's price-to-SMA feature |
| Shared.RollingStdIsVolatility | src/cli/etf-backtest/scripts/shared.py:78 | the rolling std of the return column equals the registry's volatility feature of that window |
| Shared.BaseFeaturesAfterLags | src/cli/etf-backtest/scripts/shared.py:68-78 | once the lag loop has run, adding the moving averages, ratios and volatility completes `build_base_features` |
| Shared.BuildBaseFeatures | src/cli/etf-backtest/scripts/shared.py:57-80 | the column-by-column construction, lag loop included, yields exactly the base feature frame |
| Shared.FeatureColsAreBaseFeatures | src/cli/etf-backtest/scripts/shared.py:83-87 | `get_feature_cols` gives 23 distinct base columns: ret_lag1..ret_lag20, then ma_ratio_short, ma_ratio_long and volatility |
| Shared.BaseFeaturesKeys | src/cli/etf-backtest/scripts/shared.py:57-80 | on a bare price frame the base feature frame has exactly the base columns |
| Shared.BaseFeaturesColumn | src/cli/etf-backtest/scripts/shared.py:64-78 | each base column is the registry kind it stands for, evaluated on the prices |
| Shared.BaseFeaturesComplete | src/cli/etf-backtest/scripts/shared.py:57-80 | on positive prices a row has every base column defined exactly from row 49 on (the 50-row moving average) |
| Shared.BaseFeaturesCompleteRows | src/cli/etf-backtest/scripts/shared.py:57-80 | the same holds for the frame built from the bare prices |
| Shared.UnknownIds | src/cli/etf-backtest/scripts/shared.py:273 | the invalid ids are exactly the requested ids missing from the registry |
| Shared.UnknownIdsAppend | src/cli/etf-backtest/scripts/shared.py:273 | the invalid-id list keeps request order (it distributes over concatenation) |
| Shared.SelectedColumnsContents | src/cli/etf-backtest/scripts/shared.py:278-279 | the loop adds exactly one column per requested id, holding that registry feature |
| Shared.BuildSelectedFeatures | src/cli/etf-backtest/scripts/shared.py:265-281 | the validating, column-adding loop returns exactly the selected-features result |
| Shared.SelectedFeaturesContents | src/cli/etf-backtest/scripts/shared.py:265-281 | the call fails exactly when an id is unknown; otherwise the prices and the other columns are unchanged and there is one registry column per requested id |
| Shared.AddForwardTarget | src/cli/etf-backtest/scripts/shared.py:284-288 | `add_forward_target` adds `target` and leaves every other column untouched |
| Shared.ForwardTargetDefinedIff | src/cli/etf-backtest/scripts/shared.py:287 | on positive prices the forward target at row t is defined exactly when t + h is a row |
| Shared.ForwardTargetValue | src/cli/etf-backtest/scripts/shared.py:287 | where it is defined the target is `p[t+h] / p[t] - 1` |
| Shared.SplitPoints | src/cli/etf-backtest/scripts/shared.py:93-95 | the split points are floor(0.70 n) and floor(0.85 n), in order and within n |
| Shared.SplitData | src/cli/etf-backtest/scripts/shared.py:91-101 | the three parts are well-formed and keep every column |
| Shared.SplitIsPartition | src/cli/etf-backtest/scripts/shared.py:97-99 | train, validation and test, concatenated in order, give back the frame exactly |
| Shared.SplitSizes | src/cli/etf-backtest/scripts/shared.py:93-99 | with at least 100 rows the parts have at least 70, 15 and 15 rows |
| Shared.SplitNonEmpty | src/cli/etf-backtest/scripts/shared.py:93-99 | a nonempty frame has a nonempty test part, and with two or more rows a nonempty train part |
| Shared.TrainStats | src/cli/etf-backtest/scripts/shared.py:121-123 | per column the std is the population std, or 1 where that std is 0, and it is never 0 |
| Shared.StandardizeRows | src/cli/etf-backtest/scripts/shared.py:125-127 | every row is standardized with the same stored statistics |
| Shared.Standardize | src/cli/etf-backtest/scripts/shared.py:104-129 | the statistics come from the train matrix; validation and test are transformed with them, and the test targets are the test rows' targets |
| Shared.SliceStandardizable | src/cli/etf-backtest/scripts/shared.py:97-99 | an `iloc` slice of a fully defined frame is fully defined |
| Shared.SplitStandardizable | src/cli/etf-backtest/scripts/shared.py:91-129 | splitting a fully defined frame gives three fully defined parts whose sizes add up to the whole |
| Shared.StandardizeIgnoresHeldOutRows | src/cli/etf-backtest/scripts/shared.py:120-125 | changing the validation or test rows changes neither the statistics nor the standardized train matrix (no leakage) |
| Shared.StandardizedTrainSumsToZero | src/cli/etf-backtest/scripts/shared.py:121-125 | every standardized train column sums to 0 |
| Shared.StandardizedTrainUnitVariance | src/cli/etf-backtest/scripts/shared.py:121-125 | every non-constant standardized train column has population variance exactly 1 |
| Shared.StandardizedConstantColumnIsZero | src/cli/etf-backtest/scripts/shared.py:122-125 | a constant train column standardizes to all zeros, because its std is replaced by 1 |
| Shared.CompleteRowsStandardizable | src/cli/etf-backtest/scripts/run_experiment.py:268-279 | after `dropna` on all columns the frame is fit for `standardize` |
| Training.BatchCount | src/cli/etf-backtest/scripts/shared.py:169 | `n_batches = ceil(n / 32)`: enough batches of 32 to cover n rows, and no more |
| Training.BatchesPrefix | src/cli/etf-backtest/scripts/shared.py:175-176 | the first i batches, concatenated, are the first min(32 i, n) shuffled indices |
| Training.BatchesCoverPermutation | src/cli/etf-backtest/scripts/shared.py:173-176 | the batches of one epoch concatenate to the shuffled order; all but the last hold 32 rows and the last holds 1 to 32 |
| Training.Losses | src/cli/etf-backtest/scripts/shared.py:171-190 | one validation loss per epoch of the 100 |
| Training.LossAt | src/cli/etf-backtest/scripts/shared.py:186-190 | the loss of epoch e is the validation loss of the parameters after e + 1 epochs |
| Training.TrackIsRunningMinimum | src/cli/etf-backtest/scripts/shared.py:192-195 | the best loss after k epochs is the minimum of the defined losses so far, kept at its first occurrence; it is unset exactly when no loss so far is defined |
| Training.TrackPatience | src/cli/etf-backtest/scripts/shared.py:192-197 | the patience counter is the number of epochs since the best one, or all k epochs if none improved |
| Training.PatienceCountsNonImproving | src/cli/etf-backtest/scripts/shared.py:192-197 | the counter is at least p exactly when each of the last p epochs failed to improve |
| Training.EpochsRunFromBounds | src/cli/etf-backtest/scripts/shared.py:171-200 | from epoch k the loop runs at least one more epoch, and stops early only at the first epoch whose counter reaches 10 |
| Training.StopsAtFirstExhaustedPatience | src/cli/etf-backtest/scripts/shared.py:171-200 | between 1 and 100 epochs run; training stops before 100 exactly when some epoch's counter reaches 10, and it stops at the first such epoch |
| Training.EarlyStopEpoch | src/cli/etf-backtest/scripts/shared.py:196-200 | an early stop happens exactly 10 epochs after the best epoch (or after epoch 10 when none improved) |
| Training.Tensor.constructor | src/cli/etf-backtest/scripts/shared.py:161 | a parameter tensor holds the given values |
| Training.Mlp.constructor | src/cli/etf-backtest/scripts/shared.py:161 | a new model owns a fresh parameter tensor with the initial weights |
| Training.Mlp.StateDict | src/cli/etf-backtest/scripts/shared.py:195 | `state_dict()` returns the model's own live tensor, not a copy |
| Training.Mlp.LoadStateDict | src/cli/etf-backtest/scripts/shared.py:202-203 | `load_state_dict` copies the snapshot's values into the model's tensor |
| Training.RunEpoch | src/cli/etf-backtest/scripts/shared.py:175-184 | one epoch steps the optimiser on every batch of the shuffled order, in order |
| Training.RestoredWeightsValue | src/cli/etf-backtest/scripts/shared.py:192-203 | restoring a true snapshot yields the parameters after the best epoch, which precedes the stop |
| Training.TrainModel | src/cli/etf-backtest/scripts/shared.py:151-205 | as written: the epoch count, best loss and best epoch follow the early-stopping rule, and the final parameters are the last epoch's |
| Training.TrainModelCopyingSnapshot | src/cli/etf-backtest/scripts/shared.py:151-205 | with the snapshot copied, the same loop ends with the best epoch's parameters |
| Training.CountingWeights | src/cli/etf-backtest/scripts/shared.py:171-184 | with one row and a step that adds 1, the weights after e epochs are [e] |
| Training.RisingTrack | src/cli/etf-backtest/scripts/shared.py:192-197 | with rising losses only the first epoch improves, and the counter grows by one per epoch |
| Training.RisingStopsAtEleven | src/cli/etf-backtest/scripts/shared.py:196-200 | rising losses stop training after 11 epochs with epoch 0 the best |
| Training.SnapshotAliasingCounterexample | src/cli/etf-backtest/scripts/shared.py:195-203 | for that run the code returns weights [11] while the best-snapshot weights are [1] |
| Backtest.NextDayTarget | src/cli/etf-backtest/scripts/backtest.py:37 | the next-day target `ret.shift(-1)` is added beside the base columns |
| Backtest.BuildFeatures | src/cli/etf-backtest/scripts/backtest.py:32-42 | `build_features` yields the base columns plus the target |
| Backtest.DailyReturnValue | src/cli/etf-backtest/scripts/shared.py:65 | on positive prices the daily return at row t ≥ 1 is `p[t] / p[t-1] - 1` |
| Backtest.WithNextDayTarget | src/cli/etf-backtest/scripts/backtest.py:34-37 | the frame built with the target has exactly the base columns and the target, over the same prices |
| Backtest.NextDayCompleteRows | src/cli/etf-backtest/scripts/backtest.py:37-40 | with the target added, a row is complete exactly when its base columns are and it is not the last row |
| Backtest.NextDayDropNa | src/cli/etf-backtest/scripts/backtest.py:37-40 | `dropna` of that frame is its slice from the first complete base row to the second-to-last row |
| Backtest.NextDayDropNaEmpty | src/cli/etf-backtest/scripts/backtest.py:37-40 | when no base row is complete, no row survives |
| Backtest.NextDayDropNaRows | src/cli/etf-backtest/scripts/backtest.py:37-40 | after `dropna` the rows are the complete base rows except the last, and each target is the next row's return |
| Backtest.BuildFeaturesIsSlice | src/cli/etf-backtest/scripts/backtest.py:32-42 | on positive prices the feature frame is exactly rows 49 through n-2 of the frame built with the target |
| Backtest.BuildFeaturesEmpty | src/cli/etf-backtest/scripts/backtest.py:32-42 | with 49 prices or fewer no row survives |
| Backtest.NextDayTargetValue | src/cli/etf-backtest/scripts/backtest.py:34-37 | each base column is its registry feature, and the target at row t is `p[t+1]/p[t] - 1` or missing on the last row |
| Backtest.Signal | src/cli/etf-backtest/scripts/backtest.py:55 | the signal is 1 exactly where the prediction is positive, and 0 elsewhere |
| Backtest.Simulated | src/cli/etf-backtest/scripts/backtest.py:46-71 | every strategy column has one entry per test row |
| Backtest.EquityCurve | src/cli/etf-backtest/scripts/backtest.py:69 | the running-product loop computes the `cumprod` equity column |
| Backtest.RunStrategy | src/cli/etf-backtest/scripts/backtest.py:46-71 | the column-building method computes exactly the simulated strategy |
| Backtest.PositionLagsSignal | src/cli/etf-backtest/scripts/backtest.py:58 | the position is 0 on the first row and the previous row's signal afterwards, so always 0 or 1 |
| Backtest.StrategyAt | src/cli/etf-backtest/scripts/backtest.py:58-66 | position, trade and net return at row t, as functions of the predictions before t and the return at t |
| Backtest.NoLookahead | src/cli/etf-backtest/scripts/backtest.py:55-66 | position, trade and net return at row t do not depend on the prediction at t or later |
| Backtest.TradeOnPositionChange | src/cli/etf-backtest/scripts/backtest.py:64-65 | a trade (1) and a 5 bp cost occur exactly when the position changes |
| Backtest.NetReturnValue | src/cli/etf-backtest/scripts/backtest.py:61-66 | the net return is position × return minus cost, and missing where the return is |
| Backtest.EquityRecurrence | src/cli/etf-backtest/scripts/backtest.py:69 | each equity point is the previous one times `1 + net return` |
| Backtest.EquityNonDecreasing | src/cli/etf-backtest/scripts/backtest.py:69 | with no negative net return the equity never falls and stays at least 1 |
| Backtest.GrowthPositive | src/cli/etf-backtest/scripts/backtest.py:69 | net returns above -1 keep the cumulative growth positive |
| Backtest.DefinedEverywhere | src/cli/etf-backtest/scripts/backtest.py:61-69 | defined returns give a defined net return and equity on every row |
| Backtest.EquityStartsAtOne | src/cli/etf-backtest/scripts/backtest.py:58-69 | the first equity point is exactly 1 (flat position, no trade) |
| Backtest.AnnualVolatility | src/cli/etf-backtest/scripts/backtest.py:89 | the annualised volatility is finite exactly when there are returns |
| Backtest.Performance | src/cli/etf-backtest/scripts/backtest.py:75-109 | the max drawdown is that of the equity curve; Calmar is 0 when there is no drawdown; Sharpe is 0 unless the volatility is positive |
| Backtest.RunningPeak | src/cli/etf-backtest/scripts/backtest.py:95 | the peak loop computes `np.maximum.accumulate` |
| Backtest.MaxDrawdown | src/cli/etf-backtest/scripts/backtest.py:95-97 | the drawdown loop computes the minimum drawdown from the running peak |
| Backtest.BacktestMetrics | src/cli/etf-backtest/scripts/backtest.py:75-81 | metrics exist exactly when there is at least one test row (`equity[-1]` needs one) |
| Backtest.BacktestTotalReturn | src/cli/etf-backtest/scripts/backtest.py:81 | the total return is the cumulative growth of the net returns minus 1 |
| Backtest.NoDrawdownIffNonDecreasing | src/cli/etf-backtest/scripts/backtest.py:95-97 | a positive curve has maximum drawdown 0 exactly when it never falls |
| Backtest.DrawdownAndCalmar | src/cli/etf-backtest/scripts/backtest.py:95-100 | on a positive equity curve the drawdown lies in (-1, 0], is 0 exactly for a non-decreasing curve, and then Calmar is 0 |
| Backtest.AnnualVolatilityPositiveIff | src/cli/etf-backtest/scripts/backtest.py:89 | the volatility is positive exactly when the returns are not all equal |
| Backtest.FlatReturnsZeroSharpe | src/cli/etf-backtest/scripts/backtest.py:89-92 | constant returns give Sharpe 0 |
| Experiment.DailyReturnsValue | src/cli/etf-backtest/scripts/run_experiment.py:91 | the backtest's `pct_change` is missing on the first test row and is `p[t]/p[t-1] - 1` afterwards |
| Experiment.RunBacktest | src/cli/etf-backtest/scripts/run_experiment.py:79-128 | the backtest method computes the summary the functions define |
| Experiment.BacktestDropsFirstRow | src/cli/etf-backtest/scripts/run_experiment.py:91-106 | only the first row's net return and equity are missing, so `dropna` removes exactly that row |
| Experiment.ShortBacktestIsFlat | src/cli/etf-backtest/scripts/run_experiment.py:108-109 | with fewer than three test rows (fewer than two equity points) the summary is all zeros |
| Experiment.EquityFromSecondRow | src/cli/etf-backtest/scripts/run_experiment.py:102-106 | the kept equity curve starts at `1 + net[1]` and ends at the total growth |
| Experiment.BacktestTotalReturnFromFirstPoint | src/cli/etf-backtest/scripts/run_experiment.py:111 | the total return is the growth divided by the first kept point, minus 1, so the first day's return is excluded |
| Experiment.Residuals | src/cli/etf-backtest/scripts/run_experiment.py:233 | residuals are actual minus predicted, row by row |
| Experiment.TotalSquaresPositiveIff | src/cli/etf-backtest/scripts/run_experiment.py:175-176 | the total sum of squares is positive exactly when the targets are not all equal |
| Experiment.TestMetricsBounds | src/cli/etf-backtest/scripts/run_experiment.py:171-177 | MSE exists exactly for a nonempty test set and is non-negative; R² ≤ 1; R² is 0 for constant targets, and otherwise 1 exactly for perfect predictions |
| Experiment.SignAgreement | src/cli/etf-backtest/scripts/run_experiment.py:182 | row i agrees exactly when actual and prediction are both positive or both not |
| Experiment.FractionBounds | src/cli/etf-backtest/scripts/run_experiment.py:182 | the agreement rate lies in [0, 1]; it is 1 exactly when all rows agree and 0 exactly when none do |
| Experiment.StdZeroIff | src/cli/etf-backtest/scripts/run_experiment.py:184-185 | the population std is non-negative and 0 exactly for constant values |
| Experiment.DirectionAccuracyBounds | src/cli/etf-backtest/scripts/run_experiment.py:182 | the direction accuracy lies in [0, 1]; it is 1 exactly when every sign agrees and 0 exactly when every sign disagrees |
| Experiment.MaeBounds | src/cli/etf-backtest/scripts/run_experiment.py:183 | MAE is non-negative and 0 exactly for perfect predictions |
| Experiment.CalibrationRatioBounds | src/cli/etf-backtest/scripts/run_experiment.py:184-186 | the calibration ratio is non-negative and 0 for constant targets; for varying targets it is 0 exactly when the predictions are constant |
| Experiment.RangeContents | src/cli/etf-backtest/scripts/run_experiment.py:199 | `range(start, n, h)` is start, start + h, …, and has as many entries as fit below n |
| Experiment.SampleIndices | src/cli/etf-backtest/scripts/run_experiment.py:199 | the sample indices are exactly the multiples of the horizon below n, with ceil(n / h) of them |
| Experiment.SampleIndicesCover | src/cli/etf-backtest/scripts/run_experiment.py:199 | every multiple of the horizon below n is a sample index |
| Experiment.NonOverlappingGuard | src/cli/etf-backtest/scripts/run_experiment.py:198-222 | there are two or more samples exactly when n > h; otherwise both scores are 0 (one sample for 0 < n ≤ h); with samples the accuracy is in [0, 1] and R² ≤ 1 |
| Experiment.NonOverlappingReadsOnlySamples | src/cli/etf-backtest/scripts/run_experiment.py:207-216 | the non-overlapping scores depend only on rows at multiples of the horizon |
| Experiment.ZScores | src/cli/etf-backtest/scripts/run_experiment.py:237 | z-scores are `|(x - mean) / std|` with the train statistics, feature by feature |
| Experiment.ExtrapolationMultiplier | src/cli/etf-backtest/scripts/run_experiment.py:239 | the multiplier is at least 1, and exactly 1 when the maximum z-score is at most 2 |
| Experiment.MultiplierMonotone | src/cli/etf-backtest/scripts/run_experiment.py:239 | a larger maximum z-score never gives a smaller multiplier |
| Experiment.FlooredScale | src/cli/etf-backtest/scripts/run_experiment.py:242-243 | the adjusted std is NaN exactly when the base std is; otherwise it is the larger of base × multiplier and 0.10 |
| Experiment.AdjustBounds | src/cli/etf-backtest/scripts/run_experiment.py:233-250 | the reported base std is the residual std; the adjusted std is floored at 0.10 and at least the scaled std; the multiplier exceeds 1 exactly when extrapolating |
| Experiment.ExtrapolatingIff | src/cli/etf-backtest/scripts/run_experiment.py:237-249 | the forecast is flagged as extrapolating exactly when some z-score exceeds 2, and the multiplier covers every feature's z-score |
| Experiment.AdjustedStdDefined | src/cli/etf-backtest/scripts/run_experiment.py:243 | the adjusted std exists exactly when the residual std does |
| Experiment.ResidualStd | src/cli/etf-backtest/scripts/run_experiment.py:233-234 | the residual std exists exactly for a nonempty test set and is non-negative |
| Experiment.Interval95 | src/cli/etf-backtest/scripts/run_experiment.py:163-166 | the 95% interval is symmetric about the prediction; it is strictly wider than a point for a positive std and collapses for a zero std |
| Experiment.FeatureNames | src/cli/etf-backtest/scripts/run_experiment.py:268 | the requested features' columns, in request order |
| Experiment.Selected | src/cli/etf-backtest/scripts/run_experiment.py:264 | on success the frame keeps the prices, holds every requested column and has no target yet |
| Experiment.SelectedRowComplete | src/cli/etf-backtest/scripts/run_experiment.py:264-268 | with known ids the selection succeeds, and a row has every requested feature defined exactly when each registry value is defined there |
| Experiment.ExperimentRowsErrors | src/cli/etf-backtest/scripts/run_experiment.py:264-271 | the rows fail with the unknown ids, in request order, exactly when an id is unknown; the only other failure is fewer than 100 valid rows |
| Experiment.ExperimentRowsStandardizable | src/cli/etf-backtest/scripts/run_experiment.py:268-279 | accepted rows number at least 100 and have every feature and the target defined |
| Experiment.LatestFeatures | src/cli/etf-backtest/scripts/run_experiment.py:299-301 | the latest feature vector has one value per requested id |
| Experiment.LatestFeaturesIsLatest | src/cli/etf-backtest/scripts/run_experiment.py:299-301 | it holds the feature values of the latest row where all requested features are defined, even rows whose forward target is still unknown |
| Experiment.LatestFeaturesFails | src/cli/etf-backtest/scripts/run_experiment.py:143-147 | the latest vector is missing exactly when no row has all features defined, and the error is "no valid feature rows" |
| Experiment.LatestFeaturesAfterGuard | src/cli/etf-backtest/scripts/run_experiment.py:270-301 | once the experiment rows are accepted, the latest-features lookup cannot fail |
| Experiment.ComputePredictionOutcome | src/cli/etf-backtest/scripts/run_experiment.py:131-168 | the forecast exists exactly when the latest vector does; it is the model applied to that vector standardized with the train statistics, inside an interval of width 3.92 × adjusted std |
| Experiment.ValidateOutcome | src/cli/etf-backtest/scripts/run_experiment.py:351-368 | a request with no ids (`featureIds`, else `feature_ids`) is rejected as empty; it is accepted exactly when every id is known; otherwise the unknown ids are listed in order together with all valid ids |
| Experiment.Fit | src/cli/etf-backtest/scripts/run_experiment.py:274-289 | split sizes add up (≥ 70/15/15 from 100 rows); the test predictions are the trained model applied to each standardized test row; the stored stds are nonzero |
| Experiment.RunExperimentOutcome | src/cli/etf-backtest/scripts/run_experiment.py:253-310 | the experiment succeeds exactly when the rows are accepted and some feature is requested, and otherwise reports the row error |
| Experiment.RunExperimentReport | src/cli/etf-backtest/scripts/run_experiment.py:304-340 | a report echoes the ids, has sample counts that add up (≥ 100 rows; ≥ 70/15/15), an adjusted std of at least 0.10, and an interval of width 3.92 × that std around the forecast |
| Experiment.RespondOutcome | src/cli/etf-backtest/scripts/run_experiment.py:343-375 | `main` rejects exactly the requests validation refuses; a report echoes the requested ids; the only run failure left is having fewer than 100 rows |
| Predict.WithForwardTarget | src/cli/etf-backtest/scripts/predict.py:37-40 | the base columns plus the 252-day forward target |
| Predict.BuildPredictionFeatures | src/cli/etf-backtest/scripts/predict.py:35-45 | `build_prediction_features` yields the base columns plus the target |
| Predict.ForwardCompleteRows | src/cli/etf-backtest/scripts/predict.py:40-43 | a row is complete exactly when its base features are and it has 252 later rows |
| Predict.ForwardDropNa | src/cli/etf-backtest/scripts/predict.py:40-43 | `dropna` keeps the slice from the first complete base row to row n-253, or nothing when fewer rows remain |
| Predict.PredictionFrameShape | src/cli/etf-backtest/scripts/predict.py:35-45 | the base frame of positive prices has complete rows exactly from row 49 on, and the prediction frame is its `dropna` once the forward target is added |
| Predict.ForwardDropNaRows | src/cli/etf-backtest/scripts/predict.py:40-43 | the kept rows are the complete base rows without the last 252, and each keeps its own forward return |
| Predict.PredictionFeaturesIsSlice | src/cli/etf-backtest/scripts/predict.py:35-45 | on positive prices the frame is exactly rows 49 through n-253 |
| Predict.PredictionFeaturesEmpty | src/cli/etf-backtest/scripts/predict.py:35-45 | with 301 prices or fewer no row survives |
| Predict.PredictionFeaturesRow | src/cli/etf-backtest/scripts/predict.py:37-43 | row i of the frame is row 49 + i of the base features |
| Predict.PredictionFeaturesTarget | src/cli/etf-backtest/scripts/predict.py:40 | the target of row i is the 252-day forward return from row 49 + i |
| Predict.LatestFeatureRow | src/cli/etf-backtest/scripts/predict.py:54-61 | on success one value per feature column |
| Predict.GetLatestFeatures | src/cli/etf-backtest/scripts/predict.py:48-63 | `get_latest_features` returns 23 features on success |
| Predict.LatestFeatureRowAtLastRow | src/cli/etf-backtest/scripts/predict.py:54-61 | when the last row is complete, it is the one returned |
| Predict.FeatureColsCompleteFrom | src/cli/etf-backtest/scripts/predict.py:53-54 | the 23 feature columns are all defined exactly from row 49 on |
| Predict.LatestFeaturesFailIff | src/cli/etf-backtest/scripts/predict.py:56-57 | on positive prices the latest features are missing exactly when there are 49 prices or fewer |
| Predict.LatestFeaturesAfterTraining | src/cli/etf-backtest/scripts/predict.py:122-157 | when any training row exists, the latest-features lookup succeeds |
| Predict.StandardizeRowInverse | src/cli/etf-backtest/scripts/predict.py:161 | standardizing the latest features with the train statistics is invertible: z × std + mean gives back the input |
| Predict.PredictMainOutcome | src/cli/etf-backtest/scripts/predict.py:116-182 | with two or more rows the forecast exists; the sample counts add up to the row count with a nonempty test set; the interval is 3.92 × the residual std wide and contains the prediction |
| Predict.PredictIntervalCollapseIff | src/cli/etf-backtest/scripts/predict.py:66-79 | the interval has width 0 exactly when all test residuals are equal |

## Left out

- The network itself is not modelled: the MLP layers, ReLU, dropout, the Adam optimiser, the MSE gradient and float32 tensors. Training is a `Trainer` parameter in `Experiment` and `Predict`. In `Training` one optimiser step is the parameter `step` and the validation loss is the parameter `valLoss`.
- Random state is not modelled: `torch.randperm`, `set_seed`, the seed field of the request, and the device choice. The shuffle orders are the parameter `perms`.
- Outside effects are not modelled: file loading, the `DATA_PATH` existence check, JSON parsing and output, dates (`latest_date`, `generated_at`), `print`, rounding, the prediction file `predict.py` writes, and the `ticker` field. None of these affects a computed value. The model starts from the price column.
- IEEE floating point is not modelled: rounding, inf and float32 casts. Arithmetic is exact. `int(n * 0.70)` is modelled as an exact floor even though float rounding can differ by one at some n. Division by zero is modelled as a missing value, while pandas gives ±inf; this only matters for zero prices or zero moving averages.
- Square root and `**` are parameters. The magnitudes of CAGR, Sharpe, volatility, RSI and Bollinger width are therefore not computed exactly; the contracts constrain only their definedness, signs and guards.
- `z_scores.max()` on an empty feature vector raises an exception in numpy. The model reports it as the `NoFeatures` error. Request validation already excludes an empty id list.
- Predict.PredictMain: requires at least two feature rows. Below that the source's train or test part is empty, and its statistics would be NaN (the source warns below 100 rows but continues).
- Shared.Standardize: requires a nonempty train part, because numpy's mean of an empty matrix is NaN.
- Experiment.Fit: requires two or more rows, which the 100-row guard of `run_experiment` guarantees.
- `standardize` appears in both `run_experiment.py` and `shared.py`, and `compute_test_metrics` in both `run_experiment.py` and `predict.py`. Each is modelled once (`Shared.Standardize`, `Experiment.TestMetrics`).
- Two display and script functions are not modelled: `backtest.py`'s `main` and `print_metrics`, and `predict.py`'s `print_prediction`.
- Training.TrainModel: the parameters are an opaque weight vector, so no claim is made about the quality of the fitted network. Only the early-stopping bookkeeping and the snapshot aliasing are stated.

## Findings

| source | as written | input that shows it | evidently intended | confidence | as-written member | corrected member |
|---|---|---|---|---|---|---|
| src/cli/etf-backtest/scripts/shared.py:192-203 | `best_state = model.state_dict()` keeps references to the live parameter tensors, so later epochs overwrite the "best" snapshot and `load_state_dict(best_state)` restores nothing; the returned model has the last epoch's parameters | one training row, a step that adds 1 to the weight, and validation losses that rise every epoch: training stops after 11 epochs with epoch 0 the best, and returns weights [11] instead of the best epoch's [1] | return the parameters of the best-validation-loss epoch (copy the state dict when taking the snapshot) | high, not executed | Training.SnapshotAliasingCounterexample | Training.TrainModelCopyingSnapshot |
