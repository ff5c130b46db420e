# Pair-trading hybrid forecaster: data preparation and evaluation bookkeeping

This project models the deterministic bookkeeping around the two learning
scripts of a stock-pair forecasting pipeline. The networks themselves are not
modelled.

- `src/lstm_train.py` works in three steps:
  - It loads every ARIMA-residual series of the training directory.
  - It drops each series that holds a NaN anywhere.
  - It cuts every remaining series into `lookback`-row windows, each paired
    with the next `close` value, and splits the pooled samples 70/15/15 into
    train, validation and test sets.
- `src/mrrnn_pred.py` works in five steps:
  - It takes the last tenth of the directory listing as test files.
  - It picks the model date. This is today's `%m%d` string, or the day before
    when no model directory exists for today.
  - It splits the neuron budget into the two hidden sizes passed to the
    mutually recursive RNN. The constructor is not part of this model, so
    which sub-network each size configures is not stated here.
  - For each test file it windows the residual series the same way as
    training, and aligns the ARIMA forecast, the observed close and the
    dates to the tail of the predictions.
  - It forms the hybrid forecast `arima - mrrnn` and records four error
    lists. The summary row averages each list under its column header.

The files:

| file | contents |
|---|---|
| `pyslice.dfy` | Python slice semantics: clamped bounds, `s[-k:]` (which keeps all of `s` when `k == 0`), three-way cuts |
| `series.dfy` | cells (a number or NaN), rows, the lookback window and its target, specified once for both scripts |
| `lstm_train.dfy` | NaN filter, dataset construction and the train/validation/test split |
| `month_day.dfy` | `%m%d` parsing in year 1900 (no 29 February) and the model-date fallback |
| `metrics.dfy` | mean squared and mean absolute error over reals, `None` where sklearn raises |
| `mrrnn_pred.dfy` | test-file choice, neuron split, residual windows, alignment, hybrid, error lists and summary row |

Three consequences of the code:

- A pair that yields no windows is not skipped. The code has no such branch,
  and with zero predictions `s[-0:]` keeps every value, so the network is
  called on an empty window batch and the alignment keeps every value
  (`MrrnnPred.AlignWithoutPredictions`).
- The series are not cut to a common shortest length. Each is cut to its last
  `len(mrrnn_prediction)` entries with a negative slice, which is the whole
  series when that count is 0 or exceeds its length. Zero predictions leave an
  empty hybrid, and the hybrid MSE then raises
  (`MrrnnPred.NoPredictionsStopAtHybrid`). More predictions than ARIMA values
  are silently misaligned: every ARIMA value is paired with the first
  predictions, and there are more timestamps than hybrid values, yet the file
  is scored (`MrrnnPred.SurplusPredictionsMisalign`).
- The two hidden sizes are `floor(N/F)` and `floor(N(F-1)/F)`. Together they
  lose one neuron whenever `F` does not divide `N`
  (`MrrnnPred.NeuronSplitSum`).

## Model

| member | source | states |
|---|---|---|
| PySlice.Tail | src/mrrnn_pred.py:85-87 | `s[-k:]` is the last `k` elements when `1 <= k <= len(s)`, and the whole of `s` when `k == 0` or `k` exceeds the length |
| PySlice.TailOfTail | src/mrrnn_pred.py:71-86 | for a prediction count `1 <= m <= ARIMA length <= len(closes)`, cutting the original closes first to the ARIMA length and then to `m` gives the same suffix as cutting once to `m` |
| PySlice.ThreeWayCut | src/lstm_train.py:63-65 | for `0 <= a <= b <= len(X)`, `X[:a]`, `X[a:b]` and `X[b:]` concatenate back to `X` with lengths `a`, `b-a` and `len(X)-b` |
| Series.WindowCountOneStep | src/mrrnn_pred.py:74 | with `future_n = 1` a series of length `L >= lookback` yields `L - lookback` windows |
| Series.WindowAt | src/lstm_train.py:57-59 | window k is `lookback` consecutive rows starting at row k, and its target row `k + lookback + future_n - 1` lies inside the series |
| Series.Windows | src/lstm_train.py:57-58 | one window per iteration of the range loop, in increasing start row |
| Series.Targets | src/lstm_train.py:57-59 | one target per window, taken from the `close` column of the target row of that window |
| Series.CleanWindows | src/lstm_train.py:45-59 | a NaN-free series with a `close` column yields NaN-free windows and numeric targets |
| LstmTrain.KeepClean | src/lstm_train.py:39-47 | the reference definition of the filter loop that the lemmas below describe: the files with no NaN, in listing order; it never keeps more series than files are listed |
| LstmTrain.KeepCleanAppend | src/lstm_train.py:39-47 | filtering a concatenated listing is filtering each part, in order |
| LstmTrain.KeepCleanAround | src/lstm_train.py:45-47 | a file is kept in place exactly when it holds no NaN |
| LstmTrain.KeptIffClean | src/lstm_train.py:45-47 | file i of the listing contributes to the data exactly when it holds no NaN; kept files keep their listing order |
| LstmTrain.KeptAreCleanAndListed | src/lstm_train.py:39-47 | every kept series is NaN-free and is the rows of some listed file |
| LstmTrain.LoadSeries | src/lstm_train.py:36-47 | the loop keeps exactly the NaN-free files in listing order, and `dates` is the index of the first listed file, clean or not |
| LstmTrain.AllWindows | src/lstm_train.py:54-58 | the pooled windows number the sum of the per-series window counts |
| LstmTrain.AllTargets | src/lstm_train.py:54-59 | the pooled targets number the same as the pooled windows |
| LstmTrain.SampleAt | src/lstm_train.py:54-59 | window k of series s sits at offset k after the windows of the earlier series, and `y` at that index is its own target |
| LstmTrain.SampleOrigin | src/lstm_train.py:54-59 | every sample index comes from one series and one window of it, so no window spans two series and `X[j]`, `y[j]` come from the same iteration |
| LstmTrain.DatasetIsNumeric | src/lstm_train.py:45-59 | when every series is NaN-free and has the `close` column, as after the NaN filter, every window and every target holds numbers only |
| LstmTrain.BuildDataset | src/lstm_train.py:50-59 | the nested loops produce exactly the pooled windows and the pooled targets |
| LstmTrain.CutPoints | src/lstm_train.py:63-65 | the cut points satisfy `0 <= a <= b <= len(X)` |
| LstmTrain.Split | src/lstm_train.py:63-65 | the reference definition of `xs[:a]`, `xs[a:b]`, `xs[b:]` that `SplitKeepsPairs` and `PrepareSplits` describe; for any `a` and `b` the first part is a prefix, the last a suffix, and no part is longer than `xs` |
| LstmTrain.SplitKeepsPairs | src/lstm_train.py:63-65 | for equal-length `X`, `y` and `0 <= a <= b <= len(X)`, `X` and `y` are cut at the same points, so the parts rebuild both sequences and each part pairs `X[j]` with `y[j]` |
| LstmTrain.KeptSeriesClean | src/lstm_train.py:45-47 | every kept series, by position in the data, is NaN-free |
| LstmTrain.PrepareSplits | src/lstm_train.py:36-65 | train, validation and test rebuild the dataset of the kept series; `X` and `y` are cut at the same points, so train holds the first `a`, validation the next `b - a` and test the last `n - b` samples of both, with `(a, b)` the cut points of `n = len(X)`; every target is a number |
| MonthDay.Parse | src/mrrnn_pred.py:26 | `%m%d` parsing succeeds exactly on valid month-days of the non-leap year 1900 |
| MonthDay.Format | src/mrrnn_pred.py:27 | `%m%d` formatting yields four digits |
| MonthDay.ParseFormat | src/mrrnn_pred.py:26-27 | parsing a formatted valid date gives the date back |
| MonthDay.FormatParse | src/mrrnn_pred.py:26-27 | formatting a parsed string gives the string back |
| MonthDay.ParseInvertsFormat | src/mrrnn_pred.py:26-27 | parsing returns exactly the valid day that formats to the string, and fails exactly when no valid day formats to it |
| MonthDay.PreviousDay | src/mrrnn_pred.py:26 | subtracting one day from a valid date of year 1900 gives a valid date |
| MonthDay.NextDay | src/mrrnn_pred.py:26 | reference definition of the following day, used to characterise the subtraction |
| MonthDay.PreviousNextInverse | src/mrrnn_pred.py:26 | the following day of the previous day, and the previous day of the following day, is the day itself |
| MonthDay.ModelDate | src/mrrnn_pred.py:24-27 | with today's model directory present the date is today; otherwise the date is the day whose following day is today, and the lookup fails exactly when today does not parse |
| MonthDay.ModelDateExamples | src/mrrnn_pred.py:24-27 | "0101" falls back to "1231", "0301" to "0228", "0229" fails without a directory and is kept unchanged with one |
| Metrics.SumSquaredError | src/mrrnn_pred.py:91 | the summed squared error is non-negative |
| Metrics.SumAbsoluteError | src/mrrnn_pred.py:92 | the summed absolute error is non-negative |
| Metrics.MeanSquaredError | src/mrrnn_pred.py:91 | the mean squared error is defined exactly for two non-empty sequences of equal length, and is non-negative |
| Metrics.MeanAbsoluteError | src/mrrnn_pred.py:92 | the mean absolute error is defined exactly for two non-empty sequences of equal length, and is non-negative |
| Metrics.AbsoluteSumVanishesIffEqual | src/mrrnn_pred.py:92 | the summed absolute error is zero exactly when the two sequences are equal |
| Metrics.Square | src/mrrnn_pred.py:91 | a squared difference is never negative and is zero exactly for a zero difference |
| Metrics.SquaredSumVanishesIffEqual | src/mrrnn_pred.py:91 | the summed squared error is zero exactly when the two sequences are equal |
| Metrics.ZeroErrorOfExact | src/mrrnn_pred.py:91-94 | for non-empty sequences of equal length, MSE is 0 exactly when the forecast is exact, and so is MAE |
| MrrnnPred.TestFiles | src/mrrnn_pred.py:21 | the test files are the last `ceil(n/10)` entries of the listing, and there is at least one whenever the listing is non-empty |
| MrrnnPred.NeuronSplitSum | src/mrrnn_pred.py:48-50 | the two hidden sizes add up to N when F divides N and to N-1 otherwise |
| MrrnnPred.MrrnnConfig | src/mrrnn_pred.py:48-53 | the constructor receives F, 1 and F-1 as its first three dimensions; the two hidden sizes lose at most one neuron of the budget, and none exactly when F divides N; no configuration for F = 0, where the source divides by zero |
| MrrnnPred.BuildResidualWindows | src/mrrnn_pred.py:73-76 | one window per start row, window k being residual rows k to k+lookback-1 with all columns, in increasing k; the same windows as training builds |
| MrrnnPred.Hybrid | src/mrrnn_pred.py:89 | the hybrid is as long as the shorter input and holds `arima[i] - mrrnn[i]` at every index |
| MrrnnPred.HybridCorrectsResidual | src/mrrnn_pred.py:89 | for three equal-length inputs where the network predicts ARIMA minus the truth exactly, the hybrid is the truth, and for non-empty ones its MSE is 0 |
| MrrnnPred.Align | src/mrrnn_pred.py:71-89 | the reference definition that `AlignedSuffixes`, `AlignWithoutPredictions`, `NoPredictionsStopAtHybrid` and `SurplusPredictionsMisalign` describe: the truth is cut to the ARIMA length, then the ARIMA output, the truth and the full date index are each cut with `s[-m:]` for m predictions, and the hybrid is zipped; no cut lengthens its series, and hybrid entry j is ARIMA entry j minus prediction j |
| MrrnnPred.AlignedSuffixes | src/mrrnn_pred.py:71-87 | for `1 <= m <= len(arima) <= len(original)` predictions, the ARIMA forecast, the observed closes and the dates are each the last m entries of their series (each close with the date of its own row), and the hybrid is m long |
| MrrnnPred.AlignWithoutPredictions | src/mrrnn_pred.py:85-87 | with no predictions the ARIMA forecast and the dates are kept in full while the hybrid is empty |
| MrrnnPred.NoPredictionsStopAtHybrid | src/mrrnn_pred.py:85-93 | a file with no predictions, `1 <= len(arima) <= len(original)`, passes both ARIMA metrics but the hybrid MSE rejects it, so the file cannot be scored |
| MrrnnPred.SurplusPredictionsMisalign | src/mrrnn_pred.py:85-89 | for `1 <= len(arima) < m <= len(original)` predictions, all ARIMA values are kept and paired with the FIRST predictions, the timestamps keep one entry per prediction, and the file is still scored |
| MrrnnPred.RecordedAppend | src/mrrnn_pred.py:91-94 | appending one file's four errors keeps the earlier records and records that file at the next index |
| MrrnnPred.EvaluateFiles | src/mrrnn_pred.py:58-94 | the run completes exactly when every file can be scored; then entry i of each list is that file's error (ARIMA and hybrid, MSE and MAE, against the observed closes); otherwise it stops at the first file sklearn rejects |
| MrrnnPred.ColumnError | src/mrrnn_pred.py:91-94 | every column of a scorable file has an error |
| MrrnnPred.SummaryRow | src/mrrnn_pred.py:99-100 | the reference definition of `df_error.loc[0]` that `SummaryRowMatchesColumns` describes: four cells whose literal names are exactly the headers of the four (model, metric) columns, in table order |
| MrrnnPred.SummaryRowMatchesColumns | src/mrrnn_pred.py:99-100 | when the four lists record the aligned files, each summary cell sits under the header naming its model and metric and holds the mean of that model's errors for that metric, in file order |

## Left out

- The MRRNN and LSTM networks are left out: the forward pass, weight loading, `eval`/`no_grad`, Keras training, early stopping, checkpoints and learning-rate reduction. The network is a function parameter `predict` of `MrrnnPred.EvaluateFiles`, and training ends the model at `LstmTrain.PrepareSplits`.
- Plotting is left out: `visualize_prediction_plot` for the observed files and `visualize_loss_plot`/`evaluate_model` after training. They only write images and reports.
- File-system and process I/O is left out: CSV reading, `os.listdir` (the listing is a parameter), `os.makedirs`, output and checkpoint path strings, `to_csv`, argparse, ClearML, logging and environment variables.
- `get_today` and `rnn_tools.mean` are not part of this model. Today's string and the existence of the model directory are parameters of `MonthDay.ModelDate`, and the averaging function is a parameter of the summary row.
- `features_dim` is read from a sample file in the source. Here it is a parameter.
- LstmTrain.CutPoints: the first cut `int(n*0.7)` is modelled as `n*7/10`. In double precision `n*0.7` falls just below the integer for some `n` (90, 170, 180, 330, …), so the script's training part is one sample shorter than `LstmTrain.PrepareSplits` states for those `n` (62 against 63 for `n = 90`), and its validation part one sample longer. The second cut `int(n*(0.7+0.15))` and the test-file start `int(n*0.9)` agree with `n*17/20` and `n*9/10` for every `n` of practical size. The double nearest 0.9 lies above 9/10, so `n*0.9` never falls below an integer it should reach. `0.7+0.15` rounds to the same double as 0.85. That double lies below 17/20 by less than half an ulp at every multiple, so the product rounds back to the integer. The neuron split's float division is modelled as floor division.
- Errors are computed over reals, not floating point.
- Metrics.MeanAbsoluteError: sklearn's other rejections of its inputs (non-finite values, ragged shapes) are not modelled. Only the length mismatch and empty input give `None`.
- Metrics.MeanSquaredError: the same holds, since `mean_squared_error` runs the same input validation. Only the length mismatch and empty input give `None`.
- MonthDay.ModelDate: it requires a four-digit string. `get_today` is not part of this model, so the four-digit `%m%d` form is assumed, as `strptime(today, '%m%d')` on line 26 of `src/mrrnn_pred.py` expects. Other shapes of input to `strptime` are not modelled.
- LstmTrain.BuildDataset: `y[j]` is modelled as the single `close` cell, not as the one-row frame slice the source appends. The `close` column is given by its position.
- LstmTrain.PrepareSplits: it requires every kept series to have the `close` column. The source reads `close` only from kept series that yield a window. A kept series without the column and without windows passes there but is excluded here. A kept series without the column but with windows makes the source raise `KeyError`, which is not modelled as an error result. The same requirement sits on `LstmTrain.BuildDataset`.
- LstmTrain.LoadSeries: `dates` is `None` for an empty listing, where the source would leave the name undefined.
- The `np.array` conversions are identities here (`src/lstm_train.py:61-62`, `src/mrrnn_pred.py:76`), and the tensor shape `input_shape` is not modelled.
- NaN in the residual, ARIMA or original series at inference is not filtered by the source. The model carries residual cells through to the network parameter as they are and treats the ARIMA and original closes as reals.
- The commented-out `MinMaxScaler` is not part of the behaviour and is not modelled.
