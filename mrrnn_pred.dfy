/**
 * Evaluation bookkeeping of the MRRNN prediction script: which files are
 * evaluated, how the neuron budget is divided between the two sub-networks,
 * the lookback windows fed to the network, the trailing alignment of the
 * ARIMA output, the ground truth and the timestamps to the prediction count,
 * the hybrid `arima - mrrnn`, the four per-file error lists and the summary
 * row. The network itself is a parameter `predict`, and `rnn_tools.mean` a
 * parameter `mean`.
 */
module MrrnnPred {
  import opened Wrappers
  import opened Series
  import opened Metrics
  import PySlice

  // ---------------------------------------------------------------- test files

  /**
   * `listing[int(len(listing) * 0.9):]`: the last tenth of the listing, rounded
   * up, in listing order; never empty when the listing is not.
   */
  function TestFiles<T>(listing: seq<T>): (r: seq<T>)
    ensures |r| == (|listing| + 9) / 10
    ensures r == listing[|listing| - |r|..]
    ensures |listing| >= 1 ==> |r| >= 1
  {
    PySlice.Slice(listing, |listing| * 9 / 10, |listing|)
  }

  // ---------------------------------------------------------------- network shape

  /**
   * Arguments of `MutuallyRecursiveRNN(features_dim, 1, features_dim - 1,
   * neuronsA, neuronsB, ...)`: one price output, `features_dim - 1` metric
   * outputs, and the hidden sizes of the two sub-networks.
   */
  datatype MrrnnShape = MrrnnShape(featuresDim: nat, priceDim: nat, metricsDim: nat, neuronsA: nat, neuronsB: nat)

  lemma {:induction false} MulAtLeast(f: nat, d: nat)
    requires d >= 1
    ensures f * d >= f
    decreases d
  {
    if d > 1 {
      MulAtLeast(f, d - 1);
      assert f * d == f * (d - 1) + f;
    }
  }

  /** `x / f == k` whenever `x == f * k + m` with `0 <= m < f`. */
  lemma DivUnique(x: int, f: nat, k: int, m: int)
    requires f > 0 && 0 <= m < f && x == f * k + m
    ensures x / f == k
  {
    var q, r := x / f, x % f;
    assert x == f * q + r;
    assert f * q - f * k == f * (q - k);
    if q > k {
      MulAtLeast(f, q - k);
    } else if q < k {
      assert f * k - f * q == f * (k - q);
      MulAtLeast(f, k - q);
    }
  }

  /** `int(N / F) + int(N * (F - 1) / F)` is N when F divides N, and N - 1 otherwise. */
  lemma NeuronSplitSum(n: nat, f: nat)
    requires f >= 1
    ensures n / f + n * (f - 1) / f == if n % f == 0 then n else n - 1
  {
    var q, r := n / f, n % f;
    assert n == f * q + r;
    assert n * (f - 1) == n * f - n;
    assert n * f == f * n;
    assert f * n - f * q == f * (n - q);
    assert n * (f - 1) == f * (n - q) - r;
    if r == 0 {
      DivUnique(n * (f - 1), f, n - q, 0);
    } else {
      assert f * (n - q) - r == f * (n - q - 1) + (f - r);
      DivUnique(n * (f - 1), f, n - q - 1, f - r);
    }
  }

  /**
   * The network built for `featuresDim` columns and a budget of `neurons`.
   * With no columns the division by `features_dim` raises ZeroDivisionError (None).
   */
  function MrrnnConfig(neurons: nat, featuresDim: nat): (r: Option<MrrnnShape>)
    ensures r.Some? <==> featuresDim >= 1
    ensures r.Some? ==> r.value.featuresDim == featuresDim && r.value.priceDim == 1
                        && r.value.priceDim + r.value.metricsDim == featuresDim
    ensures r.Some? ==> r.value.neuronsA + r.value.neuronsB <= neurons <= r.value.neuronsA + r.value.neuronsB + 1
    ensures r.Some? ==> (r.value.neuronsA + r.value.neuronsB == neurons <==> neurons % featuresDim == 0)
  {
    if featuresDim == 0 then None
    else
      NeuronSplitSum(neurons, featuresDim);
      Some(MrrnnShape(featuresDim, 1, featuresDim - 1,
                      neurons / featuresDim, neurons * (featuresDim - 1) / featuresDim))
  }

  // ---------------------------------------------------------------- windows

  /**
   * The loop appending `residual_df[i - lookback:i]` to `residual_X`: window k
   * is rows k .. k + lookback - 1 with every column, in increasing k.
   */
  method BuildResidualWindows(residual: Rows, lookback: nat, futureN: nat) returns (residualX: seq<Window>)
    requires futureN >= 1
    ensures |residualX| == WindowCount(|residual|, lookback, futureN)
    ensures forall k :: 0 <= k < |residualX| ==> k + lookback <= |residual| && residualX[k] == residual[k .. k + lookback]
    ensures residualX == Windows(residual, lookback, futureN)
  {
    ghost var ws := Windows(residual, lookback, futureN);
    residualX := [];
    var i: int := lookback;
    while i < |residual| - futureN + 1
      invariant lookback <= i && i - lookback <= |ws|
      invariant residualX == ws[..i - lookback]
    {
      assert ws[..i - lookback + 1] == ws[..i - lookback] + [ws[i - lookback]];
      residualX := residualX + [residual[i - lookback .. i]];
      i := i + 1;
    }
    assert ws[..i - lookback] == ws;
  }

  // ---------------------------------------------------------------- alignment and hybrid

  /** `[x - y for x, y in zip(arima, mrrnn)]`: stops at the shorter list. */
  function Hybrid(arima: seq<real>, mrrnn: seq<real>): (h: seq<real>)
    ensures |h| == if |arima| <= |mrrnn| then |arima| else |mrrnn|
    ensures forall j :: 0 <= j < |h| ==> h[j] == arima[j] - mrrnn[j]
    decreases |arima|
  {
    if arima == [] || mrrnn == [] then []
    else [arima[0] - mrrnn[0]] + Hybrid(arima[1..], mrrnn[1..])
  }

  /** When the network predicts ARIMA minus the truth exactly, the hybrid is the truth. */
  lemma HybridCorrectsResidual(arima: seq<real>, mrrnn: seq<real>, original: seq<real>)
    requires |arima| == |mrrnn| == |original|
    requires forall j :: 0 <= j < |original| ==> mrrnn[j] == arima[j] - original[j]
    ensures Hybrid(arima, mrrnn) == original
    ensures |original| > 0 ==> MeanSquaredError(original, Hybrid(arima, mrrnn)) == Some(0.0)
  {
    if |original| > 0 {
      ZeroErrorOfExact(original, Hybrid(arima, mrrnn));
    }
  }

  /** A row of the original CSV: its date index and its `close` value. */
  datatype Observation = Observation(date: Date, close: real)

  /**
   * The three CSVs of one series pair: the residual frame the network reads,
   * the `close` column of the ARIMA output, and the original series.
   */
  datatype PairFile = PairFile(residual: Rows, arimaClose: seq<real>, original: seq<Observation>)

  /** What the script holds for one file once it has aligned everything to the prediction count. */
  datatype Aligned = Aligned(arima: seq<real>, original: seq<real>, timestamps: seq<Date>, mrrnn: seq<real>, hybrid: seq<real>)

  /** The `close` column of the original series. */
  function Closes(obs: seq<Observation>): (r: seq<real>)
    ensures |r| == |obs| && forall i :: 0 <= i < |obs| ==> r[i] == obs[i].close
  {
    seq(|obs|, i requires 0 <= i < |obs| => obs[i].close)
  }

  /** The date index of the original series. */
  function Dates(obs: seq<Observation>): (r: seq<Date>)
    ensures |r| == |obs| && forall i :: 0 <= i < |obs| ==> r[i] == obs[i].date
  {
    seq(|obs|, i requires 0 <= i < |obs| => obs[i].date)
  }

  /**
   * The ground truth is cut to the ARIMA length (`original_df[-len(arima_output_df):]`),
   * then the ARIMA output, that truth and the full timestamp index are all cut
   * to the last `len(mrrnn_prediction)` entries, and the hybrid is zipped.
   */
  function Align(f: PairFile, mrrnn: seq<real>): (a: Aligned)
    ensures a.mrrnn == mrrnn
    ensures |a.arima| <= |f.arimaClose| && |a.original| <= |f.original| && |a.timestamps| <= |f.original|
    ensures forall j :: 0 <= j < |a.hybrid| ==> j < |a.arima| && j < |mrrnn| && a.hybrid[j] == a.arima[j] - mrrnn[j]
  {
    var originalClose := PySlice.Tail(Closes(f.original), |f.arimaClose|);
    var m := |mrrnn|;
    var arima := PySlice.Tail(f.arimaClose, m);
    var original := PySlice.Tail(originalClose, m);
    var timestamps := PySlice.Tail(Dates(f.original), m);
    Aligned(arima, original, timestamps, mrrnn, Hybrid(arima, mrrnn))
  }

  /**
   * With m predictions, at most as many as ARIMA values, and at most as many
   * ARIMA values as original rows, everything has length m and entry j of the
   * ARIMA output, the truth and the timestamps all come from the m trailing
   * rows: the truth and its timestamp from the same original row.
   */
  lemma AlignedSuffixes(f: PairFile, mrrnn: seq<real>)
    requires 1 <= |mrrnn| <= |f.arimaClose| <= |f.original|
    ensures var a := Align(f, mrrnn);
      |a.arima| == |a.original| == |a.timestamps| == |a.hybrid| == |mrrnn|
      && a.mrrnn == mrrnn
      && forall j :: 0 <= j < |mrrnn| ==>
           a.arima[j] == f.arimaClose[|f.arimaClose| - |mrrnn| + j]
           && a.original[j] == f.original[|f.original| - |mrrnn| + j].close
           && a.timestamps[j] == f.original[|f.original| - |mrrnn| + j].date
           && a.hybrid[j] == a.arima[j] - mrrnn[j]
  {
    var m, na, no := |mrrnn|, |f.arimaClose|, |f.original|;
    var a := Align(f, mrrnn);
    var closes, dates := Closes(f.original), Dates(f.original);
    assert a.arima == f.arimaClose[na - m..];
    assert a.original == closes[no - m..] by {
      PySlice.TailOfTail(closes, na, m);
    }
    assert a.timestamps == dates[no - m..];
    assert |a.hybrid| == m;
  }

  /**
   * With no predictions, `s[-0:]` keeps all of `s`: the ARIMA output is kept
   * whole while the hybrid is empty.
   */
  lemma AlignWithoutPredictions(f: PairFile)
    ensures Align(f, []).arima == f.arimaClose
    ensures Align(f, []).timestamps == Dates(f.original)
    ensures Align(f, []).hybrid == []
  {
  }

  /**
   * A file that yields no windows is not skipped: the ARIMA metrics of lines
   * 91-92 still succeed, but the hybrid is empty, so `mean_squared_error` of
   * line 93 raises and the file cannot be scored.
   */
  lemma NoPredictionsStopAtHybrid(f: PairFile)
    requires 1 <= |f.arimaClose| <= |f.original|
    ensures var a := Align(f, []);
      MeanSquaredError(a.original, a.arima).Some? && MeanAbsoluteError(a.original, a.arima).Some?
      && MeanSquaredError(a.original, a.hybrid).None? && !Scorable(a)
  {
    var a := Align(f, []);
    assert a.original == PySlice.Tail(Closes(f.original), |f.arimaClose|);
  }

  /**
   * More predictions than ARIMA values misalign silently: `arima[-m:]` keeps
   * every ARIMA value, the zip pairs them with the FIRST predictions, and the
   * timestamps keep m entries; yet the file is scored without error.
   */
  lemma SurplusPredictionsMisalign(f: PairFile, mrrnn: seq<real>)
    requires 1 <= |f.arimaClose| < |mrrnn| <= |f.original|
    ensures var a := Align(f, mrrnn);
      Scorable(a) && a.arima == f.arimaClose
      && |a.hybrid| == |f.arimaClose| < |a.timestamps| == |mrrnn|
      && forall j :: 0 <= j < |a.hybrid| ==> a.hybrid[j] == f.arimaClose[j] - mrrnn[j]
  {
    var a := Align(f, mrrnn);
    assert |a.original| == |f.arimaClose|;
  }

  // ---------------------------------------------------------------- per-file errors

  /** The four module-level lists, in the order the script declares them. */
  datatype ErrorLists = ErrorLists(hybridMse: seq<real>, hybridMae: seq<real>, arimaMae: seq<real>, arimaMse: seq<real>)

  /** What the script aligns for one file, given the network. */
  function AlignFile(f: PairFile, lookback: nat, futureN: nat, predict: seq<Window> -> seq<real>): Aligned
    requires futureN >= 1
  {
    Align(f, predict(Windows(f.residual, lookback, futureN)))
  }

  /** The aligned data of every file, in file order. */
  function AlignFiles(files: seq<PairFile>, lookback: nat, futureN: nat, predict: seq<Window> -> seq<real>): (r: seq<Aligned>)
    requires futureN >= 1
    ensures |r| == |files| && forall i :: 0 <= i < |files| ==> r[i] == AlignFile(files[i], lookback, futureN, predict)
  {
    seq(|files|, i requires 0 <= i < |files| => AlignFile(files[i], lookback, futureN, predict))
  }

  /** The metric calls of one file succeed: truth, ARIMA output and hybrid have one equal, non-zero length. */
  predicate Scorable(a: Aligned)
  {
    |a.original| == |a.arima| == |a.hybrid| && |a.original| > 0
  }

  /** Entry i of each list holds the matching error of the aligned file `a` (lines 91-94). */
  predicate RecordedAt(lists: ErrorLists, i: nat, a: Aligned)
  {
    && i < |lists.hybridMse| && i < |lists.hybridMae| && i < |lists.arimaMae| && i < |lists.arimaMse|
    && Scorable(a)
    && Some(lists.arimaMse[i]) == MeanSquaredError(a.original, a.arima)
    && Some(lists.arimaMae[i]) == MeanAbsoluteError(a.original, a.arima)
    && Some(lists.hybridMse[i]) == MeanSquaredError(a.original, a.hybrid)
    && Some(lists.hybridMae[i]) == MeanAbsoluteError(a.original, a.hybrid)
  }

  /** The lists after the files aligned as `aligned` were evaluated: one entry per file in each, in file order. */
  predicate Recorded(lists: ErrorLists, aligned: seq<Aligned>)
  {
    && |lists.hybridMse| == |aligned| && |lists.hybridMae| == |aligned|
    && |lists.arimaMae| == |aligned| && |lists.arimaMse| == |aligned|
    && forall i :: 0 <= i < |aligned| ==> RecordedAt(lists, i, aligned[i])
  }

  /** Appending one file's four errors to the four lists records that file after the others. */
  lemma RecordedAppend(lists: ErrorLists, aligned: seq<Aligned>, a: Aligned, am: real, aa: real, hm: real, ha: real)
    requires Recorded(lists, aligned)
    requires RecordedAt(ErrorLists([hm], [ha], [aa], [am]), 0, a)
    ensures Recorded(ErrorLists(lists.hybridMse + [hm], lists.hybridMae + [ha], lists.arimaMae + [aa], lists.arimaMse + [am]),
                     aligned + [a])
  {
    var lists' := ErrorLists(lists.hybridMse + [hm], lists.hybridMae + [ha], lists.arimaMae + [aa], lists.arimaMse + [am]);
    forall i | 0 <= i < |aligned| + 1
      ensures RecordedAt(lists', i, (aligned + [a])[i])
    {
      if i < |aligned| {
        assert RecordedAt(lists, i, aligned[i]);
      }
    }
  }

  /**
   * The loop over the test files. Each file appends exactly one value to each
   * of the four lists. A file whose metrics cannot be computed makes sklearn
   * raise, which ends the script: Err(index of that file).
   */
  method EvaluateFiles(files: seq<PairFile>, lookback: nat, futureN: nat, predict: seq<Window> -> seq<real>)
    returns (r: Result<ErrorLists, nat>)
    requires futureN >= 1
    ensures r.Ok? <==> forall i :: 0 <= i < |files| ==> Scorable(AlignFile(files[i], lookback, futureN, predict))
    ensures r.Ok? ==> Recorded(r.value, AlignFiles(files, lookback, futureN, predict))
    ensures r.Err? ==> r.error < |files| && !Scorable(AlignFile(files[r.error], lookback, futureN, predict))
                       && forall i :: 0 <= i < r.error ==> Scorable(AlignFile(files[i], lookback, futureN, predict))
  {
    var hybridMse, hybridMae, arimaMae, arimaMse := [], [], [], [];
    ghost var aligned: seq<Aligned> := [];
    for i := 0 to |files|
      invariant |aligned| == i && forall j :: 0 <= j < i ==> aligned[j] == AlignFile(files[j], lookback, futureN, predict)
      invariant Recorded(ErrorLists(hybridMse, hybridMae, arimaMae, arimaMse), aligned)
    {
      var file := files[i];
      var residualX := BuildResidualWindows(file.residual, lookback, futureN);
      var a := Align(file, predict(residualX));
      assert a == AlignFile(file, lookback, futureN, predict);
      var am := MeanSquaredError(a.original, a.arima);
      var aa := MeanAbsoluteError(a.original, a.arima);
      var hm := MeanSquaredError(a.original, a.hybrid);
      var ha := MeanAbsoluteError(a.original, a.hybrid);
      if am.None? || aa.None? || hm.None? || ha.None? {
        forall j | 0 <= j < i
          ensures Scorable(AlignFile(files[j], lookback, futureN, predict))
        {
          assert RecordedAt(ErrorLists(hybridMse, hybridMae, arimaMae, arimaMse), j, aligned[j]);
        }
        return Err(i);
      }
      RecordedAppend(ErrorLists(hybridMse, hybridMae, arimaMae, arimaMse), aligned, a, am.value, aa.value, hm.value, ha.value);
      arimaMse := arimaMse + [am.value];
      arimaMae := arimaMae + [aa.value];
      hybridMse := hybridMse + [hm.value];
      hybridMae := hybridMae + [ha.value];
      aligned := aligned + [a];
    }
    assert aligned == AlignFiles(files, lookback, futureN, predict);
    forall j | 0 <= j < |files|
      ensures Scorable(AlignFile(files[j], lookback, futureN, predict))
    {
      assert RecordedAt(ErrorLists(hybridMse, hybridMae, arimaMae, arimaMse), j, aligned[j]);
    }
    return Ok(ErrorLists(hybridMse, hybridMae, arimaMae, arimaMse));
  }

  // ---------------------------------------------------------------- summary row

  datatype Model = Arima | ArimaMrrnn

  datatype Metric = Mse | Mae

  datatype Column = Column(model: Model, metric: Metric)

  /** The columns of the error table, left to right. */
  const Columns: seq<Column> := [Column(Arima, Mse), Column(Arima, Mae), Column(ArimaMrrnn, Mse), Column(ArimaMrrnn, Mae)]

  /** A column's name: its model, then " prediction ", then its metric. */
  function Header(c: Column): string
  {
    (match c.model case Arima => "ARIMA" case ArimaMrrnn => "ARIMA_MRRNN")
    + " prediction "
    + (match c.metric case Mse => "MSE" case Mae => "MAE")
  }

  /** A column's error for one aligned file: its metric, of its model's prediction against the truth. */
  function ColumnError(c: Column, a: Aligned): (e: Option<real>)
    ensures Scorable(a) ==> e.Some?
  {
    var prediction := match c.model case Arima => a.arima case ArimaMrrnn => a.hybrid;
    match c.metric
    case Mse => MeanSquaredError(a.original, prediction)
    case Mae => MeanAbsoluteError(a.original, prediction)
  }

  /** The errors of one column over all files, in file order. */
  function ColumnErrors(c: Column, aligned: seq<Aligned>): seq<real>
    requires forall i :: 0 <= i < |aligned| ==> Scorable(aligned[i])
  {
    seq(|aligned|, i requires 0 <= i < |aligned| => ColumnError(c, aligned[i]).value)
  }

  /** `df_error.loc[0]`: the column names and the means of the lists, as the script pairs them. */
  function SummaryRow(lists: ErrorLists, mean: seq<real> -> real): (row: seq<(string, real)>)
    ensures |row| == |Columns|
    ensures forall c :: 0 <= c < |Columns| ==> row[c].0 == Header(Columns[c])
  {
    [ ("ARIMA prediction MSE", mean(lists.arimaMse)),
      ("ARIMA prediction MAE", mean(lists.arimaMae)),
      ("ARIMA_MRRNN prediction MSE", mean(lists.hybridMse)),
      ("ARIMA_MRRNN prediction MAE", mean(lists.hybridMae)) ]
  }

  /**
   * Every column of the summary row holds the mean of exactly the errors its
   * name promises, although the lists are declared in a different order.
   */
  lemma SummaryRowMatchesColumns(lists: ErrorLists, aligned: seq<Aligned>, mean: seq<real> -> real)
    requires Recorded(lists, aligned)
    ensures forall i :: 0 <= i < |aligned| ==> Scorable(aligned[i])
    ensures |SummaryRow(lists, mean)| == |Columns|
    ensures forall c :: 0 <= c < |Columns| ==>
      SummaryRow(lists, mean)[c] == (Header(Columns[c]), mean(ColumnErrors(Columns[c], aligned)))
  {
    forall i | 0 <= i < |aligned|
      ensures Scorable(aligned[i])
      ensures lists.arimaMse[i] == ColumnError(Columns[0], aligned[i]).value
      ensures lists.arimaMae[i] == ColumnError(Columns[1], aligned[i]).value
      ensures lists.hybridMse[i] == ColumnError(Columns[2], aligned[i]).value
      ensures lists.hybridMae[i] == ColumnError(Columns[3], aligned[i]).value
    {
      assert RecordedAt(lists, i, aligned[i]);
    }
    assert lists.arimaMse == ColumnErrors(Columns[0], aligned);
    assert lists.arimaMae == ColumnErrors(Columns[1], aligned);
    assert lists.hybridMse == ColumnErrors(Columns[2], aligned);
    assert lists.hybridMae == ColumnErrors(Columns[3], aligned);
    assert Header(Columns[0]) == "ARIMA prediction MSE";
    assert Header(Columns[1]) == "ARIMA prediction MAE";
    assert Header(Columns[2]) == "ARIMA_MRRNN prediction MSE";
    assert Header(Columns[3]) == "ARIMA_MRRNN prediction MAE";
  }
}
