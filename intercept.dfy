/**
 * The frame filter that prepends an intercept column: a numeric column of
 * ones named "intercept", used by linear-regression-like learners. A frame
 * whose first column already is the intercept passes through unchanged.
 */
module Formula {
  import opened Wrappers

  /** A column of a frame: numeric values, or the labels of a nominal column. */
  datatype Column = Numeric(values: seq<real>) | Nominal(labels: seq<string>)

  /** A frame: a row count and its named columns. */
  datatype Frame = Frame(rowCount: nat, names: seq<string>, vars: seq<Column>)

  datatype FrameError = NoColumns // the first column name is read, so a frame needs one

  const InterceptName: string := "intercept"

  predicate WellFormed(df: Frame)
  {
    |df.names| == |df.vars|
  }

  /** A numeric column of n ones. */
  function Ones(n: nat): Column
  {
    Numeric(seq(n, _ => 1.0))
  }

  /** The frame with an intercept column first, unless it already starts with one. */
  function WithIntercept(df: Frame): Result<Frame, FrameError>
  {
    if |df.names| == 0 then Failure(NoColumns)
    else if df.names[0] == InterceptName then Success(df)
    else Success(Frame(df.rowCount, [InterceptName] + df.names, [Ones(df.rowCount)] + df.vars))
  }

  /**
   * Builds the new frame: the intercept column first, then every column of
   * df under its own name, in order.
   */
  method Apply(df: Frame) returns (r: Result<Frame, FrameError>)
    requires WellFormed(df)
    ensures r == WithIntercept(df)
  {
    if |df.names| == 0 {
      return Failure(NoColumns);
    }
    if df.names[0] == InterceptName {
      return Success(df);
    }
    var vars := [Ones(df.rowCount)];
    var names := [InterceptName];
    var i := 0;
    while i < |df.names|
      invariant 0 <= i <= |df.names|
      invariant vars == [Ones(df.rowCount)] + df.vars[..i]
      invariant names == [InterceptName] + df.names[..i]
    {
      vars := vars + [df.vars[i]];
      names := names + [df.names[i]];
      assert df.vars[..i + 1] == df.vars[..i] + [df.vars[i]];
      assert df.names[..i + 1] == df.names[..i] + [df.names[i]];
      i := i + 1;
    }
    assert df.vars[..i] == df.vars;
    assert df.names[..i] == df.names;
    return Success(Frame(df.rowCount, names, vars));
  }

  /** A frame without columns is refused; any other frame is accepted. */
  lemma FailsOnlyWithoutColumns(df: Frame)
    ensures WithIntercept(df).Failure? <==> |df.names| == 0
  {
  }

  /**
   * The result starts with the intercept: ones over every row; the original
   * columns follow under their own names, in order; the row count is kept.
   */
  lemma InterceptPrepended(df: Frame)
    requires WellFormed(df) && |df.names| > 0 && df.names[0] != InterceptName
    ensures var out := WithIntercept(df).value;
            && WellFormed(out)
            && out.rowCount == df.rowCount
            && |out.vars| == |df.vars| + 1
            && out.names[0] == InterceptName
            && out.vars[0].Numeric? && |out.vars[0].values| == df.rowCount
            && (forall j :: 0 <= j < df.rowCount ==> out.vars[0].values[j] == 1.0)
            && (forall i :: 0 <= i < |df.vars| ==> out.vars[i + 1] == df.vars[i] && out.names[i + 1] == df.names[i])
  {
  }

  /** A frame that already starts with the intercept is returned as it is. */
  lemma InterceptKept(df: Frame)
    requires |df.names| > 0 && df.names[0] == InterceptName
    ensures WithIntercept(df) == Success(df)
  {
  }

  /** Applying the filter twice is applying it once. */
  lemma Idempotent(df: Frame)
    requires WellFormed(df)
    ensures WithIntercept(df).Success? ==> WithIntercept(WithIntercept(df).value) == WithIntercept(df)
  {
    if |df.names| > 0 && df.names[0] != InterceptName {
      var out := WithIntercept(df).value;
      assert out.names[0] == InterceptName;
    }
  }
}
