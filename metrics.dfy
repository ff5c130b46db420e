/**
 * Mean squared and mean absolute error as the textbook definitions over reals,
 * standing in for `sklearn.metrics.mean_squared_error` and
 * `mean_absolute_error`. Those raise ValueError when the two inputs differ in
 * length or are empty; that is None here.
 */
module Metrics {
  import opened Wrappers

  function Abs(x: real): (r: real)
    ensures r >= 0.0 && (r == 0.0 <==> x == 0.0)
  {
    if x < 0.0 then -x else x
  }

  /** `a * b`: the product a square is made of. */
  function Product(a: real, b: real): real
  {
    a * b
  }

  /** Two factors of the same strict sign have a positive product. */
  lemma SameSignProduct(a: real, b: real)
    requires (a > 0.0 && b > 0.0) || (a < 0.0 && b < 0.0)
    ensures Product(a, b) > 0.0
  {
  }

  /** The square of a difference: never negative, and zero exactly for a zero difference. */
  function Square(x: real): (r: real)
    ensures r >= 0.0
    ensures r == 0.0 <==> x == 0.0
  {
    if x != 0.0 then SameSignProduct(x, x); Product(x, x)
    else Product(x, x)
  }

  /** Sum of the squared differences, element by element. */
  function SumSquaredError(truth: seq<real>, pred: seq<real>): (r: real)
    requires |truth| == |pred|
    ensures r >= 0.0
    decreases |truth|
  {
    if truth == [] then 0.0
    else Square(truth[0] - pred[0]) + SumSquaredError(truth[1..], pred[1..])
  }

  /** Sum of the absolute differences, element by element. */
  function SumAbsoluteError(truth: seq<real>, pred: seq<real>): (r: real)
    requires |truth| == |pred|
    ensures r >= 0.0
    decreases |truth|
  {
    if truth == [] then 0.0
    else Abs(truth[0] - pred[0]) + SumAbsoluteError(truth[1..], pred[1..])
  }

  function MeanSquaredError(truth: seq<real>, pred: seq<real>): (r: Option<real>)
    ensures r.Some? <==> |truth| == |pred| && |truth| > 0
    ensures r.Some? ==> r.value >= 0.0
  {
    if |truth| != |pred| || |truth| == 0 then None
    else Some(SumSquaredError(truth, pred) / (|truth| as real))
  }

  function MeanAbsoluteError(truth: seq<real>, pred: seq<real>): (r: Option<real>)
    ensures r.Some? <==> |truth| == |pred| && |truth| > 0
    ensures r.Some? ==> r.value >= 0.0
  {
    if |truth| != |pred| || |truth| == 0 then None
    else Some(SumAbsoluteError(truth, pred) / (|truth| as real))
  }

  /** The absolute errors sum to zero exactly when the two sequences are equal. */
  lemma {:induction false} AbsoluteSumVanishesIffEqual(truth: seq<real>, pred: seq<real>)
    requires |truth| == |pred|
    ensures SumAbsoluteError(truth, pred) == 0.0 <==> truth == pred
    decreases |truth|
  {
    if truth != [] {
      AbsoluteSumVanishesIffEqual(truth[1..], pred[1..]);
      if truth[0] == pred[0] && truth[1..] == pred[1..] {
        assert truth == [truth[0]] + truth[1..] && pred == [pred[0]] + pred[1..];
      }
    }
  }

  /** The squared errors sum to zero exactly when the two sequences are equal. */
  lemma {:induction false} SquaredSumVanishesIffEqual(truth: seq<real>, pred: seq<real>)
    requires |truth| == |pred|
    ensures SumSquaredError(truth, pred) == 0.0 <==> truth == pred
    decreases |truth|
  {
    if truth != [] {
      SquaredSumVanishesIffEqual(truth[1..], pred[1..]);
      if truth[0] == pred[0] && truth[1..] == pred[1..] {
        assert truth == [truth[0]] + truth[1..] && pred == [pred[0]] + pred[1..];
      }
    }
  }

  /** A mean of non-negative terms is zero exactly when their sum is. */
  lemma MeanVanishesIffSum(sum: real, n: nat)
    requires sum >= 0.0 && n > 0
    ensures sum / (n as real) == 0.0 <==> sum == 0.0
  {
    if sum > 0.0 {
      assert sum / (n as real) > 0.0;
    }
  }

  /** Both errors are zero exactly when the prediction is exact. */
  lemma ZeroErrorOfExact(truth: seq<real>, pred: seq<real>)
    requires |truth| == |pred| && |truth| > 0
    ensures MeanSquaredError(truth, pred) == Some(0.0) <==> truth == pred
    ensures MeanAbsoluteError(truth, pred) == Some(0.0) <==> truth == pred
  {
    SquaredSumVanishesIffEqual(truth, pred);
    MeanVanishesIffSum(SumSquaredError(truth, pred), |truth|);
    AbsoluteSumVanishesIffEqual(truth, pred);
    MeanVanishesIffSum(SumAbsoluteError(truth, pred), |truth|);
  }
}
