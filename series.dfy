/**
 * Series as the scripts see them after `reset_index(drop=True)`: rows in file
 * order, each row holding one cell per column. The lookback windows built by
 * both scripts (`for i in range(lookback, len(rows) - future_n + 1)`) are
 * specified here once.
 */
module Series {

  /** A cell read from a CSV: a number, or NaN where the value is missing. */
  datatype Cell = Num(value: real) | NaN

  type Row = seq<Cell>

  type Rows = seq<Row>

  /** A window: `lookback` consecutive rows with every column. */
  type Window = seq<Row>

  /** A value of a CSV's `date` index column. */
  type Date = string

  /** The horizon `future_n`, fixed to 1 in both scripts. */
  const FutureN: nat := 1

  /** No cell of the series is NaN (the negation of `np.isnan(df).any().any()`). */
  predicate Clean(rows: Rows)
  {
    forall i, c :: 0 <= i < |rows| && 0 <= c < |rows[i]| ==> rows[i][c].Num?
  }

  /** Every row has a column at position `col` (where `close` sits). */
  predicate HasColumn(rows: Rows, col: nat)
  {
    forall i :: 0 <= i < |rows| ==> col < |rows[i]|
  }

  /** Number of iterations of `range(lookback, len - futureN + 1)`. */
  function WindowCount(len: nat, lookback: nat, futureN: nat): nat
  {
    if len + 1 >= lookback + futureN then len + 1 - lookback - futureN else 0
  }

  /** The count is `max(0, L - lookback - futureN + 1)`, which is `L - lookback` for one step ahead. */
  lemma WindowCountOneStep(len: nat, lookback: nat)
    requires len >= lookback
    ensures WindowCount(len, lookback, FutureN) == len - lookback
  {
  }

  /**
   * Window k is the slice `rows[i - lookback:i]` taken at `i = lookback + k`, and
   * its target row `i + futureN - 1` lies inside the series.
   */
  function WindowAt(rows: Rows, k: nat, lookback: nat, futureN: nat): (w: Window)
    requires futureN >= 1 && k < WindowCount(|rows|, lookback, futureN)
    ensures k + lookback + futureN - 1 < |rows|
    ensures |w| == lookback
    ensures forall t :: 0 <= t < lookback ==> w[t] == rows[k + t]
  {
    rows[k .. k + lookback]
  }

  /** The `close` cell `rows[i + futureN - 1:i + futureN]['close']` that window k is paired with. */
  function TargetAt(rows: Rows, k: nat, lookback: nat, futureN: nat, close: nat): Cell
    requires futureN >= 1 && k < WindowCount(|rows|, lookback, futureN)
    requires HasColumn(rows, close)
  {
    rows[k + lookback + futureN - 1][close]
  }

  /** All windows of one series, in increasing start row. */
  function Windows(rows: Rows, lookback: nat, futureN: nat): (ws: seq<Window>)
    requires futureN >= 1
    ensures |ws| == WindowCount(|rows|, lookback, futureN)
    ensures forall k :: 0 <= k < |ws| ==> ws[k] == WindowAt(rows, k, lookback, futureN)
  {
    seq(WindowCount(|rows|, lookback, futureN), k requires 0 <= k < WindowCount(|rows|, lookback, futureN) =>
      WindowAt(rows, k, lookback, futureN))
  }

  /** The targets of one series, paired index by index with `Windows`. */
  function Targets(rows: Rows, lookback: nat, futureN: nat, close: nat): (ys: seq<Cell>)
    requires futureN >= 1 && HasColumn(rows, close)
    ensures |ys| == WindowCount(|rows|, lookback, futureN)
    ensures forall k :: 0 <= k < |ys| ==> ys[k] == TargetAt(rows, k, lookback, futureN, close)
  {
    seq(WindowCount(|rows|, lookback, futureN), k requires 0 <= k < WindowCount(|rows|, lookback, futureN) =>
      TargetAt(rows, k, lookback, futureN, close))
  }

  /** Windows and targets cut from a NaN-free series hold numbers only. */
  lemma CleanWindows(rows: Rows, lookback: nat, futureN: nat, close: nat, k: nat)
    requires Clean(rows) && HasColumn(rows, close)
    requires futureN >= 1 && k < WindowCount(|rows|, lookback, futureN)
    ensures Clean(WindowAt(rows, k, lookback, futureN))
    ensures TargetAt(rows, k, lookback, futureN, close).Num?
  {
    var w: Window := WindowAt(rows, k, lookback, futureN);
    forall t: nat, c: nat | t < |w| && c < |w[t]|
      ensures w[t][c].Num?
    {
      assert w[t] == rows[k + t];
    }
  }
}
