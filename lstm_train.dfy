/**
 * Data preparation of the LSTM training script: the file loop that drops
 * series containing NaN and remembers the first file's dates, the nested loop
 * that cuts every kept series into lookback windows with their `close`
 * targets, and the chronological 70/15/15 cut of the windows.
 */
module LstmTrain {
  import opened Wrappers
  import opened Series
  import PySlice

  /** A CSV of the training folder read with `index_col='date'`: its date index and its rows. */
  datatype CsvFrame = CsvFrame(dates: seq<Date>, rows: Rows)

  // ---------------------------------------------------------------- NaN filter

  /** What one file contributes to `data`: its rows, unless one of its cells is NaN. */
  function KeepOne(f: CsvFrame): seq<Rows>
  {
    if Clean(f.rows) then [f.rows] else []
  }

  /** The series the file loop keeps, in listing order. */
  function KeepClean(listing: seq<CsvFrame>): (kept: seq<Rows>)
    ensures |kept| <= |listing|
    decreases |listing|
  {
    if listing == [] then []
    else KeepClean(listing[..|listing| - 1]) + KeepOne(listing[|listing| - 1])
  }

  /** Filtering a concatenated listing is concatenating the filtered parts. */
  lemma {:induction false} KeepCleanAppend(a: seq<CsvFrame>, b: seq<CsvFrame>)
    ensures KeepClean(a + b) == KeepClean(a) + KeepClean(b)
    decreases |b|
  {
    if b == [] {
      assert a + b == a;
    } else {
      var b' := b[..|b| - 1];
      assert (a + b)[..|a + b| - 1] == a + b';
      assert (a + b)[|a + b| - 1] == b[|b| - 1];
      KeepCleanAppend(a, b');
    }
  }

  /** A file between two parts of a listing contributes `KeepOne` between their contributions. */
  lemma {:induction false} KeepCleanAround(before: seq<CsvFrame>, f: CsvFrame, after: seq<CsvFrame>)
    ensures KeepClean(before + [f] + after) == KeepClean(before) + KeepOne(f) + KeepClean(after)
  {
    assert KeepClean([f]) == KeepOne(f) by {
      assert [f][..0] == [];
    }
    KeepCleanAppend(before + [f], after);
    KeepCleanAppend(before, [f]);
  }

  /**
   * File i is kept exactly when none of its cells is NaN, and it lands between
   * what the files before it and after it contribute.
   */
  lemma {:induction false} KeptIffClean(listing: seq<CsvFrame>, i: nat)
    requires i < |listing|
    ensures KeepClean(listing)
         == KeepClean(listing[..i])
          + (if Clean(listing[i].rows) then [listing[i].rows] else [])
          + KeepClean(listing[i + 1..])
  {
    assert listing == listing[..i] + [listing[i]] + listing[i + 1..];
    KeepCleanAround(listing[..i], listing[i], listing[i + 1..]);
  }

  /** Every kept series is NaN-free and is the rows of some listed file. */
  lemma {:induction false} KeptAreCleanAndListed(listing: seq<CsvFrame>)
    ensures forall s :: s in KeepClean(listing) ==> Clean(s) && exists f :: f in listing && f.rows == s
    decreases |listing|
  {
    if listing != [] {
      var p := listing[..|listing| - 1];
      KeptAreCleanAndListed(p);
      forall s | s in KeepClean(listing)
        ensures Clean(s) && exists f :: f in listing && f.rows == s
      {
        if s in KeepClean(p) {
          var f :| f in p && f.rows == s;
          assert f in listing;
        } else {
          assert listing[|listing| - 1] in listing;
        }
      }
    }
  }

  /**
   * The file loop: `dates` is set from the first listed file (the flag `d` is
   * set before the NaN check), and only NaN-free series are appended to `data`.
   */
  method LoadSeries(listing: seq<CsvFrame>) returns (data: seq<Rows>, dates: Option<seq<Date>>)
    ensures data == KeepClean(listing)
    ensures dates == if listing == [] then None else Some(listing[0].dates)
  {
    data := [];
    dates := None;
    var d := false;
    for n := 0 to |listing|
      invariant data == KeepClean(listing[..n])
      invariant d <==> n > 0
      invariant dates == if n == 0 then None else Some(listing[0].dates)
    {
      var df := listing[n];
      assert listing[..n + 1][..n] == listing[..n];
      if !d {
        dates := Some(df.dates);
        d := true;
      }
      if !Clean(df.rows) {
        continue;
      }
      data := data + [df.rows];
    }
    assert listing[..|listing|] == listing;
  }

  // ---------------------------------------------------------------- windows

  predicate AllHaveColumn(data: seq<Rows>, close: nat)
  {
    forall s :: 0 <= s < |data| ==> HasColumn(data[s], close)
  }

  /** `X` after the nested loop: the windows of every series, series by series. */
  function AllWindows(data: seq<Rows>, lookback: nat, futureN: nat): (X: seq<Window>)
    requires futureN >= 1
    ensures |X| == TotalCount(data, lookback, futureN)
    decreases |data|
  {
    if data == [] then []
    else AllWindows(data[..|data| - 1], lookback, futureN) + Windows(data[|data| - 1], lookback, futureN)
  }

  /** `y` after the nested loop: the targets of every series, series by series. */
  function AllTargets(data: seq<Rows>, lookback: nat, futureN: nat, close: nat): (y: seq<Cell>)
    requires futureN >= 1 && AllHaveColumn(data, close)
    ensures |y| == TotalCount(data, lookback, futureN)
    decreases |data|
  {
    if data == [] then []
    else AllTargets(data[..|data| - 1], lookback, futureN, close) + Targets(data[|data| - 1], lookback, futureN, close)
  }

  /** The sum over the series of `max(0, L_s - lookback - futureN + 1)`. */
  function TotalCount(data: seq<Rows>, lookback: nat, futureN: nat): nat
    decreases |data|
  {
    if data == [] then 0
    else TotalCount(data[..|data| - 1], lookback, futureN) + WindowCount(|data[|data| - 1]|, lookback, futureN)
  }

  /**
   * Window k of series s sits at index `TotalCount(data[..s]) + k` of X, and
   * its target at the same index of y.
   */
  lemma {:induction false} SampleAt(data: seq<Rows>, lookback: nat, futureN: nat, close: nat, s: nat, k: nat)
    requires futureN >= 1 && AllHaveColumn(data, close)
    requires s < |data| && k < WindowCount(|data[s]|, lookback, futureN)
    ensures TotalCount(data[..s], lookback, futureN) + k < |AllWindows(data, lookback, futureN)|
    ensures AllWindows(data, lookback, futureN)[TotalCount(data[..s], lookback, futureN) + k]
         == WindowAt(data[s], k, lookback, futureN)
    ensures AllTargets(data, lookback, futureN, close)[TotalCount(data[..s], lookback, futureN) + k]
         == TargetAt(data[s], k, lookback, futureN, close)
    decreases |data|
  {
    var p := data[..|data| - 1];
    if s == |data| - 1 {
      assert data[..s] == p;
    } else {
      assert p[s] == data[s] && p[..s] == data[..s];
      SampleAt(p, lookback, futureN, close, s, k);
    }
  }

  /**
   * Every index j of X comes from one window of one series: no window spans two
   * series, and X[j], y[j] come from the same loop iteration.
   */
  lemma {:induction false} SampleOrigin(data: seq<Rows>, lookback: nat, futureN: nat, close: nat, j: nat)
    returns (s: nat, k: nat)
    requires futureN >= 1 && AllHaveColumn(data, close)
    requires j < |AllWindows(data, lookback, futureN)|
    ensures s < |data| && k < WindowCount(|data[s]|, lookback, futureN)
    ensures j == TotalCount(data[..s], lookback, futureN) + k
    ensures AllWindows(data, lookback, futureN)[j] == WindowAt(data[s], k, lookback, futureN)
    ensures AllTargets(data, lookback, futureN, close)[j] == TargetAt(data[s], k, lookback, futureN, close)
    decreases |data|
  {
    var p := data[..|data| - 1];
    if j < TotalCount(p, lookback, futureN) {
      s, k := SampleOrigin(p, lookback, futureN, close, j);
      assert p[s] == data[s] && p[..s] == data[..s];
    } else {
      s, k := |data| - 1, j - TotalCount(p, lookback, futureN);
      assert data[..s] == p;
    }
    SampleAt(data, lookback, futureN, close, s, k);
  }

  /** Since only NaN-free series reach the windowing, every window and target holds numbers. */
  lemma DatasetIsNumeric(data: seq<Rows>, lookback: nat, futureN: nat, close: nat)
    requires futureN >= 1 && AllHaveColumn(data, close)
    requires forall s :: 0 <= s < |data| ==> Clean(data[s])
    ensures forall j :: 0 <= j < |AllWindows(data, lookback, futureN)| ==> Clean(AllWindows(data, lookback, futureN)[j])
    ensures forall j :: 0 <= j < |AllTargets(data, lookback, futureN, close)| ==> AllTargets(data, lookback, futureN, close)[j].Num?
  {
    forall j | 0 <= j < |AllWindows(data, lookback, futureN)|
      ensures Clean(AllWindows(data, lookback, futureN)[j])
      ensures AllTargets(data, lookback, futureN, close)[j].Num?
    {
      var s, k := SampleOrigin(data, lookback, futureN, close, j);
      CleanWindows(data[s], lookback, futureN, close, k);
    }
  }

  /** The nested loop over `data` that appends every window to X and its target to y. */
  method BuildDataset(data: seq<Rows>, lookback: nat, futureN: nat, close: nat) returns (X: seq<Window>, y: seq<Cell>)
    requires futureN >= 1 && AllHaveColumn(data, close)
    ensures X == AllWindows(data, lookback, futureN)
    ensures y == AllTargets(data, lookback, futureN, close)
  {
    X, y := [], [];
    for s := 0 to |data|
      invariant X == AllWindows(data[..s], lookback, futureN)
      invariant y == AllTargets(data[..s], lookback, futureN, close)
    {
      var pairCorr := data[s];
      ghost var ws := Windows(pairCorr, lookback, futureN);
      ghost var ts := Targets(pairCorr, lookback, futureN, close);
      var i: int := lookback;
      while i < |pairCorr| - futureN + 1
        invariant lookback <= i && i - lookback <= |ws|
        invariant X == AllWindows(data[..s], lookback, futureN) + ws[..i - lookback]
        invariant y == AllTargets(data[..s], lookback, futureN, close) + ts[..i - lookback]
      {
        assert ws[..i - lookback + 1] == ws[..i - lookback] + [ws[i - lookback]];
        assert ts[..i - lookback + 1] == ts[..i - lookback] + [ts[i - lookback]];
        X := X + [pairCorr[i - lookback .. i]];
        y := y + [pairCorr[i + futureN - 1][close]];
        i := i + 1;
      }
      assert ws[..i - lookback] == ws && ts[..i - lookback] == ts;
      assert data[..s + 1][..s] == data[..s];
    }
    assert data[..|data|] == data;
  }

  // ---------------------------------------------------------------- split

  /** `int(n * 0.7)` and `int(n * (0.7 + 0.15))`, taken as exact fractions. */
  function CutPoints(n: nat): (cuts: (nat, nat))
    ensures cuts.0 <= cuts.1 <= n
  {
    (n * 7 / 10, n * 17 / 20)
  }

  /** `xs[:a]`, `xs[a:b]`, `xs[b:]`. */
  function Split<T>(xs: seq<T>, a: int, b: int): (parts: (seq<T>, seq<T>, seq<T>))
    ensures parts.0 <= xs
    ensures |parts.2| <= |xs| && parts.2 == xs[|xs| - |parts.2|..]
    ensures |parts.1| <= |xs|
  {
    (PySlice.Slice(xs, 0, a), PySlice.Slice(xs, a, b), PySlice.Slice(xs, b, |xs|))
  }

  /**
   * Cutting X and y at the same points (computed from `len(X)`) keeps every
   * part of y paired with the same part of X, element by element, and the three
   * parts of each concatenate back to the whole.
   */
  lemma SplitKeepsPairs<T, U>(xs: seq<T>, ys: seq<U>, a: int, b: int)
    requires |xs| == |ys| && 0 <= a <= b <= |xs|
    ensures Split(xs, a, b).0 + Split(xs, a, b).1 + Split(xs, a, b).2 == xs
    ensures Split(ys, a, b).0 + Split(ys, a, b).1 + Split(ys, a, b).2 == ys
    ensures |Split(xs, a, b).0| == |Split(ys, a, b).0| == a
    ensures |Split(xs, a, b).1| == |Split(ys, a, b).1| == b - a
    ensures |Split(xs, a, b).2| == |Split(ys, a, b).2| == |xs| - b
    ensures forall j :: 0 <= j < a ==> Split(xs, a, b).0[j] == xs[j] && Split(ys, a, b).0[j] == ys[j]
    ensures forall j :: 0 <= j < b - a ==> Split(xs, a, b).1[j] == xs[a + j] && Split(ys, a, b).1[j] == ys[a + j]
    ensures forall j :: 0 <= j < |xs| - b ==> Split(xs, a, b).2[j] == xs[b + j] && Split(ys, a, b).2[j] == ys[b + j]
  {
    PySlice.ThreeWayCut(xs, a, b);
    PySlice.ThreeWayCut(ys, a, b);
  }

  /** Every kept series, by position, is NaN-free. */
  lemma KeptSeriesClean(listing: seq<CsvFrame>)
    ensures forall s :: 0 <= s < |KeepClean(listing)| ==> Clean(KeepClean(listing)[s])
  {
    var data := KeepClean(listing);
    KeptAreCleanAndListed(listing);
    forall s | 0 <= s < |data|
      ensures Clean(data[s])
    {
      assert data[s] in data;
    }
  }

  /**
   * The data preparation of the script end to end: load and filter the files,
   * build X and y, and cut both at `CutPoints(len(X))`.
   */
  method PrepareSplits(listing: seq<CsvFrame>, lookback: nat, close: nat)
    returns (trainX: seq<Window>, trainY: seq<Cell>, valX: seq<Window>, valY: seq<Cell>, testX: seq<Window>, testY: seq<Cell>)
    requires AllHaveColumn(KeepClean(listing), close)
    ensures trainX + valX + testX == AllWindows(KeepClean(listing), lookback, FutureN)
    ensures trainY + valY + testY == AllTargets(KeepClean(listing), lookback, FutureN, close)
    ensures |trainX| == |trainY| == CutPoints(|AllWindows(KeepClean(listing), lookback, FutureN)|).0
    ensures |valX| == |valY| == CutPoints(|AllWindows(KeepClean(listing), lookback, FutureN)|).1
                                 - CutPoints(|AllWindows(KeepClean(listing), lookback, FutureN)|).0
    ensures |testX| == |testY| == |AllWindows(KeepClean(listing), lookback, FutureN)|
                                  - CutPoints(|AllWindows(KeepClean(listing), lookback, FutureN)|).1
    ensures forall j :: 0 <= j < |trainY| ==> trainY[j].Num?
    ensures forall j :: 0 <= j < |valY| ==> valY[j].Num?
    ensures forall j :: 0 <= j < |testY| ==> testY[j].Num?
  {
    var data, dates := LoadSeries(listing);
    KeptSeriesClean(listing);
    var X, y := BuildDataset(data, lookback, FutureN, close);
    DatasetIsNumeric(data, lookback, FutureN, close);
    var cuts := CutPoints(|X|);
    var a, b := cuts.0, cuts.1;
    SplitKeepsPairs(X, y, a, b);
    var xParts, yParts := Split(X, a, b), Split(y, a, b);
    trainX, valX, testX := xParts.0, xParts.1, xParts.2;
    trainY, valY, testY := yParts.0, yParts.1, yParts.2;
  }
}
