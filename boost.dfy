/**
 * The squared-error (L2) loss of gradient boosting: the gradient is the
 * vector of residuals y - fx, and the constant that best fits a region is
 * the mean of those residuals.
 */
module Boost {
  import opened Wrappers

  /** The sum of the values. */
  function Total(s: seq<real>): real
  {
    if |s| == 0 then 0.0 else Total(s[..|s| - 1]) + s[|s| - 1]
  }

  /** The mean of the values; None for no values (the mean of nothing is NaN). */
  function Mean(s: seq<real>): Option<real>
  {
    if |s| == 0 then None else Some(Total(s) / |s| as real)
  }

  /** The residuals of the first |y| fitted values. */
  function Residuals(y: seq<real>, fx: seq<real>): seq<real>
    requires |fx| >= |y|
  {
    seq(|y|, i requires 0 <= i < |y| => y[i] - fx[i])
  }

  /**
   * The gradient of the loss: a new vector with one residual y[i] - fx[i]
   * per row of y, built by appending.
   */
  method Gradient(y: seq<real>, fx: seq<real>) returns (delta: seq<real>)
    requires |fx| >= |y|
    ensures |delta| == |y|
    ensures forall i :: 0 <= i < |y| ==> delta[i] == y[i] - fx[i]
    ensures delta == Residuals(y, fx)
  {
    delta := [];
    var i := 0;
    while i < |y|
      invariant 0 <= i <= |y|
      invariant |delta| == i
      invariant forall j :: 0 <= j < i ==> delta[j] == y[j] - fx[j]
    {
      delta := delta + [y[i] - fx[i]];
      i := i + 1;
    }
  }

  /** The best constant for the region: the mean of the gradient. */
  method FindMinimum(y: seq<real>, fx: seq<real>) returns (m: Option<real>)
    requires |fx| >= |y|
    ensures m == Mean(Residuals(y, fx))
    ensures m.None? <==> |y| == 0
  {
    var delta := Gradient(y, fx);
    m := Mean(delta);
  }

  /** The total of the residuals is the total of y less the total of the matching fitted values. */
  lemma {:induction false} TotalOfResiduals(y: seq<real>, fx: seq<real>)
    requires |fx| >= |y|
    ensures Total(Residuals(y, fx)) == Total(y) - Total(fx[..|y|])
  {
    if |y| > 0 {
      var n := |y| - 1;
      assert Residuals(y, fx)[..n] == Residuals(y[..n], fx);
      assert fx[..|y|][..n] == fx[..n];
      TotalOfResiduals(y[..n], fx);
    }
  }

  /** For equally long non-empty inputs the best constant is mean(y) - mean(fx). */
  lemma MinimumIsDifferenceOfMeans(y: seq<real>, fx: seq<real>)
    requires |fx| == |y| > 0
    ensures Mean(Residuals(y, fx)) == Some(Mean(y).value - Mean(fx).value)
  {
    TotalOfResiduals(y, fx);
    assert fx[..|y|] == fx;
    var n := |y| as real;
    assert (Total(y) - Total(fx)) / n == Total(y) / n - Total(fx) / n;
  }

  /** A sequence of zeros totals zero. */
  lemma {:induction false} TotalOfZeros(s: seq<real>)
    requires forall i :: 0 <= i < |s| ==> s[i] == 0.0
    ensures Total(s) == 0.0
  {
    if |s| > 0 {
      TotalOfZeros(s[..|s| - 1]);
    }
  }

  /** A perfect fit leaves nothing to correct: every residual and the best constant are 0. */
  lemma PerfectFit(y: seq<real>)
    requires |y| > 0
    ensures forall i :: 0 <= i < |y| ==> Residuals(y, y)[i] == 0.0
    ensures Mean(Residuals(y, y)) == Some(0.0)
  {
    TotalOfZeros(Residuals(y, y));
  }
}
