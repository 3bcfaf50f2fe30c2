/**
 * The confusion matrix of a classifier: counts of (actual, predicted) label
 * pairs over the rows where both labels are present, the accuracy, and, for a
 * two-label problem, precision, recall and the F1 score.
 */
module Eval {
  import opened Wrappers
  import opened Sums

  /**
   * A nominal variable: its level dictionary (level 0 is the missing level
   * "?") and, per row, the index of the row's level.
   */
  datatype Var = Var(nominal: bool, levels: seq<string>, indexes: seq<int>)

  function RowCount(v: Var): nat
  {
    |v.indexes|
  }

  /** The level index of row i, 0 (missing) outside the variable. */
  function Idx(v: Var, i: int): int
  {
    if 0 <= i < |v.indexes| then v.indexes[i] else 0
  }

  /** Every row holds a level of the dictionary, and the dictionary holds the missing level. */
  predicate WellFormed(v: Var)
  {
    && |v.levels| >= 1
    && forall i :: 0 <= i < |v.indexes| ==> 0 <= v.indexes[i] < |v.levels|
  }

  datatype ConfusionError = ActualNotNominal | PredictNotNominal | LevelCountMismatch | LevelsDiffer

  /** What validation accepts: two nominal variables with the same level dictionary. */
  predicate Compatible(actual: Var, predict: Var)
  {
    actual.nominal && predict.nominal && actual.levels == predict.levels
  }

  /** The pairs the matrix can be built from: compatible, well formed, with a prediction for every row. */
  predicate Ready(actual: Var, predict: Var)
  {
    && Compatible(actual, predict)
    && WellFormed(actual)
    && WellFormed(predict)
    && RowCount(predict) >= RowCount(actual)
  }

  /** The checks of the constructor, in their order; passes exactly on compatible variables. */
  method Validate(actual: Var, predict: Var) returns (o: Outcome<ConfusionError>)
    ensures o.Pass? <==> Compatible(actual, predict)
    ensures !actual.nominal ==> o == Fail(ActualNotNominal)
    ensures actual.nominal && !predict.nominal ==> o == Fail(PredictNotNominal)
    ensures (actual.nominal && predict.nominal && |actual.levels| != |predict.levels|)
              ==> o == Fail(LevelCountMismatch)
    ensures (actual.nominal && predict.nominal && |actual.levels| == |predict.levels|
              && actual.levels != predict.levels) ==> o == Fail(LevelsDiffer)
  {
    if !actual.nominal {
      return Fail(ActualNotNominal);
    }
    if !predict.nominal {
      return Fail(PredictNotNominal);
    }
    if |actual.levels| != |predict.levels| {
      return Fail(LevelCountMismatch);
    }
    var i := 0;
    while i < |actual.levels|
      invariant 0 <= i <= |actual.levels|
      invariant actual.levels[..i] == predict.levels[..i]
    {
      if actual.levels[i] != predict.levels[i] {
        return Fail(LevelsDiffer);
      }
      assert actual.levels[..i + 1] == actual.levels[..i] + [actual.levels[i]];
      assert predict.levels[..i + 1] == predict.levels[..i] + [predict.levels[i]];
      i := i + 1;
    }
    assert actual.levels == actual.levels[..i];
    assert predict.levels == predict.levels[..i];
    return Pass;
  }

  // ---------------------------------------------------------------------
  // Counting over the first n rows
  // ---------------------------------------------------------------------

  /** Row i has both an actual and a predicted label. */
  predicate Complete(a: Var, p: Var, i: int)
  {
    Idx(a, i) != 0 && Idx(p, i) != 0
  }

  /** Rows among the first n with actual label r + 1 and predicted label c + 1. */
  function CellCount(a: Var, p: Var, n: nat, r: int, c: int): int
  {
    SumInt(n, i => if Complete(a, p, i) && Idx(a, i) == r + 1 && Idx(p, i) == c + 1 then 1 else 0)
  }

  /** Rows among the first n with both labels present. */
  function CompleteCount(a: Var, p: Var, n: nat): int
  {
    SumInt(n, i => if Complete(a, p, i) then 1 else 0)
  }

  /** Complete rows among the first n whose prediction is right. */
  function AgreeCount(a: Var, p: Var, n: nat): int
  {
    SumInt(n, i => if Complete(a, p, i) && Idx(a, i) == Idx(p, i) then 1 else 0)
  }

  /** Complete rows among the first n whose prediction is wrong. */
  function DisagreeCount(a: Var, p: Var, n: nat): int
  {
    SumInt(n, i => if Complete(a, p, i) && Idx(a, i) != Idx(p, i) then 1 else 0)
  }

  /** Complete rows among the first n whose actual label is r + 1. */
  function ActualCount(a: Var, p: Var, n: nat, r: int): int
  {
    SumInt(n, i => if Complete(a, p, i) && Idx(a, i) == r + 1 then 1 else 0)
  }

  /** Complete rows among the first n whose predicted label is c + 1. */
  function PredictCount(a: Var, p: Var, n: nat, c: int): int
  {
    SumInt(n, i => if Complete(a, p, i) && Idx(p, i) == c + 1 then 1 else 0)
  }

  /** Sum of row r of the k-by-k matrix. */
  function RowTotal(a: Var, p: Var, n: nat, k: nat, r: int): int
  {
    SumInt(k, c => CellCount(a, p, n, r, c))
  }

  /** Sum of the first i rows of column c. */
  function ColPartial(a: Var, p: Var, n: nat, i: nat, c: int): int
  {
    SumInt(i, r => CellCount(a, p, n, r, c))
  }

  /** Sum of column c of the k-by-k matrix. */
  function ColTotal(a: Var, p: Var, n: nat, k: nat, c: int): int
  {
    ColPartial(a, p, n, k, c)
  }

  /** Sum of the first i row totals. */
  function GrandPartial(a: Var, p: Var, n: nat, k: nat, i: nat): int
  {
    SumInt(i, r => RowTotal(a, p, n, k, r))
  }

  /** Sum of all cells of the k-by-k matrix. */
  function GrandTotal(a: Var, p: Var, n: nat, k: nat): int
  {
    GrandPartial(a, p, n, k, k)
  }

  /** Sum of the first t diagonal cells. */
  function Trace(a: Var, p: Var, n: nat, t: nat): int
  {
    SumInt(t, r => CellCount(a, p, n, r, r))
  }

  /** Every label among the first n rows is a level of a k-level problem (plus the missing level). */
  ghost predicate InRange(a: Var, p: Var, n: nat, k: nat)
  {
    forall i :: 0 <= i < n ==> 0 <= Idx(a, i) <= k && 0 <= Idx(p, i) <= k
  }

  lemma ReadyInRange(a: Var, p: Var)
    requires Ready(a, p)
    ensures InRange(a, p, RowCount(a), |a.levels| - 1)
  {
    forall i | 0 <= i < RowCount(a)
      ensures 0 <= Idx(a, i) <= |a.levels| - 1 && 0 <= Idx(p, i) <= |a.levels| - 1
    {
      assert 0 <= p.indexes[i] < |p.levels|;
    }
  }

  /** One more row adds one to the cell of its label pair, and nothing elsewhere. */
  lemma CellStep(a: Var, p: Var, n: nat, r: int, c: int)
    ensures CellCount(a, p, n + 1, r, c)
            == CellCount(a, p, n, r, c) + (if Complete(a, p, n) && Idx(a, n) == r + 1 && Idx(p, n) == c + 1 then 1 else 0)
  {
  }

  /** A row total of the matrix counts the complete rows with that actual label. */
  lemma {:induction false} RowTotalIsActualCount(a: Var, p: Var, n: nat, k: nat, r: int)
    requires InRange(a, p, n, k)
    ensures RowTotal(a, p, n, k, r) == ActualCount(a, p, n, r)
  {
    if n == 0 {
      SumIntZero(k, c => CellCount(a, p, 0, r, c));
    } else {
      var i := n - 1;
      RowTotalIsActualCount(a, p, i, k, r);
      var hit := Complete(a, p, i) && Idx(a, i) == r + 1;
      var c0 := if hit then Idx(p, i) - 1 else -1;
      forall c | 0 <= c < k
        ensures CellCount(a, p, n, r, c) == CellCount(a, p, i, r, c) + (if c == c0 then 1 else 0)
      {
        CellStep(a, p, i, r, c);
      }
      SumIntBump(k, c0, c => CellCount(a, p, i, r, c), c => CellCount(a, p, n, r, c));
    }
  }

  /** A column total of the matrix counts the complete rows with that predicted label. */
  lemma {:induction false} ColTotalIsPredictCount(a: Var, p: Var, n: nat, k: nat, c: int)
    requires InRange(a, p, n, k)
    ensures ColTotal(a, p, n, k, c) == PredictCount(a, p, n, c)
  {
    if n == 0 {
      SumIntZero(k, r => CellCount(a, p, 0, r, c));
    } else {
      var i := n - 1;
      ColTotalIsPredictCount(a, p, i, k, c);
      var hit := Complete(a, p, i) && Idx(p, i) == c + 1;
      var r0 := if hit then Idx(a, i) - 1 else -1;
      forall r | 0 <= r < k
        ensures CellCount(a, p, n, r, c) == CellCount(a, p, i, r, c) + (if r == r0 then 1 else 0)
      {
        CellStep(a, p, i, r, c);
      }
      SumIntBump(k, r0, r => CellCount(a, p, i, r, c), r => CellCount(a, p, n, r, c));
    }
  }

  /** Summing the per-label counts gives the number of complete rows. */
  lemma {:induction false} ActualCountsSum(a: Var, p: Var, n: nat, k: nat)
    requires InRange(a, p, n, k)
    ensures SumInt(k, r => ActualCount(a, p, n, r)) == CompleteCount(a, p, n)
  {
    if n == 0 {
      SumIntZero(k, r => ActualCount(a, p, 0, r));
    } else {
      var i := n - 1;
      ActualCountsSum(a, p, i, k);
      var r0 := if Complete(a, p, i) then Idx(a, i) - 1 else -1;
      forall r | 0 <= r < k
        ensures ActualCount(a, p, n, r) == ActualCount(a, p, i, r) + (if r == r0 then 1 else 0)
      {
      }
      SumIntBump(k, r0, r => ActualCount(a, p, i, r), r => ActualCount(a, p, n, r));
    }
  }

  /** The grand total of the matrix is the number of complete rows. */
  lemma GrandTotalIsComplete(a: Var, p: Var, n: nat, k: nat)
    requires InRange(a, p, n, k)
    ensures GrandTotal(a, p, n, k) == CompleteCount(a, p, n)
  {
    forall r | 0 <= r < k
      ensures RowTotal(a, p, n, k, r) == ActualCount(a, p, n, r)
    {
      RowTotalIsActualCount(a, p, n, k, r);
    }
    SumIntExt(k, r => RowTotal(a, p, n, k, r), r => ActualCount(a, p, n, r));
    ActualCountsSum(a, p, n, k);
  }

  /** The trace of the matrix is the number of correctly predicted rows. */
  lemma {:induction false} TraceIsAgreement(a: Var, p: Var, n: nat, k: nat)
    requires InRange(a, p, n, k)
    ensures Trace(a, p, n, k) == AgreeCount(a, p, n)
  {
    if n == 0 {
      SumIntZero(k, r => CellCount(a, p, 0, r, r));
    } else {
      var i := n - 1;
      TraceIsAgreement(a, p, i, k);
      var hit := Complete(a, p, i) && Idx(a, i) == Idx(p, i);
      var r0 := if hit then Idx(a, i) - 1 else -1;
      forall r | 0 <= r < k
        ensures CellCount(a, p, n, r, r) == CellCount(a, p, i, r, r) + (if r == r0 then 1 else 0)
      {
        CellStep(a, p, i, r, r);
      }
      SumIntBump(k, r0, r => CellCount(a, p, i, r, r), r => CellCount(a, p, n, r, r));
    }
  }

  /** Complete rows split into right and wrong predictions, and there are at most n of them. */
  lemma CountsSplit(a: Var, p: Var, n: nat)
    ensures AgreeCount(a, p, n) + DisagreeCount(a, p, n) == CompleteCount(a, p, n)
    ensures 0 <= AgreeCount(a, p, n) <= CompleteCount(a, p, n) <= n
    ensures 0 <= DisagreeCount(a, p, n)
  {
    var agree := i => if Complete(a, p, i) && Idx(a, i) == Idx(p, i) then 1 else 0;
    var disagree := i => if Complete(a, p, i) && Idx(a, i) != Idx(p, i) then 1 else 0;
    var complete := i => if Complete(a, p, i) then 1 else 0;
    SumIntAdd(n, agree, disagree, complete);
    SumIntCount(n, agree);
    SumIntCount(n, disagree);
    SumIntCount(n, complete);
  }

  // ---------------------------------------------------------------------
  // Scores
  // ---------------------------------------------------------------------

  /** The fraction of right predictions; 0 when there is no complete row. */
  function AccuracyOf(accepted: int, complete: int): real
  {
    if complete == 0 then 0.0 else accepted as real / complete as real
  }

  /** A quotient of counts; None stands for the NaN of 0/0. */
  function Ratio(num: int, den: int): Option<real>
  {
    if den == 0 then None else Some(num as real / den as real)
  }

  lemma AccuracyBounds(accepted: int, complete: int)
    requires 0 <= accepted <= complete
    ensures 0.0 <= AccuracyOf(accepted, complete) <= 1.0
    ensures complete > 0 ==> AccuracyOf(accepted, complete) * complete as real == accepted as real
    ensures complete > 0 ==> (AccuracyOf(accepted, complete) == 1.0 <==> accepted == complete)
  {
    if complete > 0 {
      QuotientBound(accepted as real, complete as real);
      if AccuracyOf(accepted, complete) == 1.0 {
        assert accepted as real == 1.0 * complete as real;
      }
    }
  }

  lemma QuotientBound(x: real, y: real)
    requires 0.0 <= x <= y && y > 0.0
    ensures 0.0 <= x / y <= 1.0
  {
  }

  /** A ratio of a part to a whole that contains it lies in [0, 1], and is NaN only for 0/0. */
  lemma RatioBounds(part: int, rest: int)
    requires part >= 0 && rest >= 0
    ensures Ratio(part, part + rest).None? <==> part == 0 && rest == 0
    ensures Ratio(part, part + rest).Some? ==> 0.0 <= Ratio(part, part + rest).value <= 1.0
  {
    if part + rest > 0 {
      QuotientBound(part as real, (part + rest) as real);
    }
  }

  /** Precision of the first label: true positives over all predictions of it. */
  function Precision(tp: int, fp: int): Option<real>
  {
    Ratio(tp, tp + fp)
  }

  /** Recall of the first label: true positives over all its actual cases. */
  function Recall(tp: int, fn: int): Option<real>
  {
    Ratio(tp, tp + fn)
  }

  /** F1 score of the first label. */
  function F1(tp: int, fp: int, fn: int): Option<real>
  {
    Ratio(2 * tp, 2 * tp + fp + fn)
  }

  /** With at least one true positive, F1 is the harmonic mean of precision and recall. */
  lemma F1IsHarmonicMean(tp: int, fp: int, fn: int)
    requires tp > 0 && fp >= 0 && fn >= 0
    ensures Precision(tp, fp).Some? && Recall(tp, fn).Some? && F1(tp, fp, fn).Some?
    ensures var pr, rc := Precision(tp, fp).value, Recall(tp, fn).value;
            pr + rc > 0.0 && F1(tp, fp, fn).value == 2.0 * pr * rc / (pr + rc)
  {
    var t, f, g := tp as real, fp as real, fn as real;
    var pr, rc := t / (t + f), t / (t + g);
    assert pr * (t + f) == t;
    assert rc * (t + g) == t;
    assert pr > 0.0 && rc > 0.0;
    var h := 2.0 * pr * rc / (pr + rc);
    assert h * (pr + rc) == 2.0 * pr * rc;
    // Multiply through by (t + f)(t + g): pr + rc = t(2t + f + g) / ((t + f)(t + g)).
    assert (pr + rc) * ((t + f) * (t + g)) == t * (2.0 * t + f + g);
    assert 2.0 * pr * rc * ((t + f) * (t + g)) == 2.0 * t * t;
    assert h * (2.0 * t + f + g) == 2.0 * t;
    assert F1(tp, fp, fn).value == 2.0 * t / (2.0 * t + f + g);
  }

  // ---------------------------------------------------------------------
  // The confusion matrix object
  // ---------------------------------------------------------------------

  class Confusion {
    const actual: Var
    const predict: Var
    const factors: seq<string>
    const cmf: array2<int>
    const binary: bool
    const percents: bool
    var acc: real
    var f1: Option<real>
    var precision: Option<real>
    var recall: Option<real>
    var completeCases: int
    var acceptedCases: int
    var errorCases: int

    /** The rows the matrix is built over. */
    function Rows(): nat
    {
      RowCount(actual)
    }

    /** Number of labels, without the missing level (which a well-formed dictionary holds). */
    function Labels(): nat
    {
      if |factors| == 0 then 0 else |factors| - 1
    }

    /** The scores of a two-label problem, computed from the first label's counts. */
    ghost predicate BinaryScores()
      reads this
    {
      var tp := CellCount(actual, predict, Rows(), 0, 0);
      var fp := CellCount(actual, predict, Rows(), 1, 0);
      var fn := CellCount(actual, predict, Rows(), 0, 1);
      && f1 == F1(tp, fp, fn)
      && precision == Precision(tp, fp)
      && recall == Recall(tp, fn)
    }

    /** The counts, and the accepted cases, accuracy and scores derived from them. */
    ghost predicate Valid()
      reads this, cmf
    {
      Counted() && Derived()
    }

    /** The quantities the counting pass derives from the diagonal and the complete-case count. */
    ghost predicate Derived()
      reads this
    {
      && acceptedCases == Trace(actual, predict, Rows(), Labels())
      && errorCases == completeCases - acceptedCases
      && acc == AccuracyOf(acceptedCases, completeCases)
      && (binary ==> BinaryScores())
      && (!binary ==> f1 == Some(0.0) && precision == Some(0.0) && recall == Some(0.0))
    }

    constructor (actual: Var, predict: Var, percents: bool)
      requires Ready(actual, predict)
      ensures Valid()
      ensures this.actual == actual && this.predict == predict && this.percents == percents
      ensures factors == actual.levels && binary == (|actual.levels| == 3)
      ensures cmf.Length0 == |actual.levels| - 1 && cmf.Length1 == |actual.levels| - 1
      ensures fresh(cmf)
    {
      this.actual := actual;
      this.predict := predict;
      factors := actual.levels;
      cmf := new int[|actual.levels| - 1, |actual.levels| - 1]((_, _) => 0);
      this.percents := percents;
      binary := |actual.levels| == 3;
      acc, f1, precision, recall := 0.0, Some(0.0), Some(0.0), Some(0.0);
      completeCases, acceptedCases, errorCases := 0, 0, 0;
      new;
      Compute();
    }

    /** The state the constructor leaves before counting: an all-zero matrix of the right shape. */
    ghost predicate Fresh()
      reads this, cmf
    {
      && Ready(actual, predict) && factors == actual.levels
      && cmf.Length0 == Labels() && cmf.Length1 == Labels()
      && binary == (|factors| == 3)
      && (forall r, c :: 0 <= r < cmf.Length0 && 0 <= c < cmf.Length1 ==> cmf[r, c] == 0)
      && completeCases == 0
      && (!binary ==> f1 == Some(0.0) && precision == Some(0.0) && recall == Some(0.0))
    }

    /** The cells and the complete-case count hold the counts over all rows. */
    ghost predicate Counted()
      reads this`completeCases, cmf
    {
      && Ready(actual, predict) && factors == actual.levels
      && cmf.Length0 == Labels() && cmf.Length1 == Labels()
      && binary == (|factors| == 3)
      && (forall r, c :: 0 <= r < cmf.Length0 && 0 <= c < cmf.Length1 ==>
            cmf[r, c] == CellCount(actual, predict, Rows(), r, c))
      && completeCases == CompleteCount(actual, predict, Rows())
    }

    /** Counts every complete row into the cell of its (actual, predicted) pair. */
    method CountRows()
      requires Fresh()
      modifies this`completeCases, cmf
      ensures Counted()
    {
      var i := 0;
      while i < RowCount(actual)
        invariant 0 <= i <= RowCount(actual)
        invariant forall r, c :: 0 <= r < cmf.Length0 && 0 <= c < cmf.Length1 ==>
                    cmf[r, c] == CellCount(actual, predict, i, r, c)
        invariant completeCases == CompleteCount(actual, predict, i)
      {
        var ai, pi := actual.indexes[i], predict.indexes[i];
        assert 0 <= pi < |predict.levels|;
        label before:
        if ai != 0 && pi != 0 {
          completeCases := completeCases + 1;
          cmf[ai - 1, pi - 1] := cmf[ai - 1, pi - 1] + 1;
        }
        forall r, c | 0 <= r < cmf.Length0 && 0 <= c < cmf.Length1
          ensures cmf[r, c] == CellCount(actual, predict, i + 1, r, c)
        {
          assert old@before(cmf[r, c]) == CellCount(actual, predict, i, r, c);
          CellStep(actual, predict, i, r, c);
        }
        i := i + 1;
      }
    }

    /** Sum of the diagonal cells: the rows predicted right. */
    method DiagonalSum() returns (s: int)
      requires Counted()
      ensures s == Trace(actual, predict, Rows(), Labels())
      ensures s == AgreeCount(actual, predict, Rows())
    {
      s := 0;
      var t := 0;
      while t < cmf.Length0
        invariant 0 <= t <= cmf.Length0
        invariant s == Trace(actual, predict, Rows(), t)
      {
        s := s + cmf[t, t];
        t := t + 1;
      }
      ReadyInRange(actual, predict);
      TraceIsAgreement(actual, predict, Rows(), Labels());
    }

    /** Derives accepted and error cases, accuracy and the two-label scores from the counts. */
    method Derive()
      requires Counted()
      requires !binary ==> f1 == Some(0.0) && precision == Some(0.0) && recall == Some(0.0)
      modifies this`acceptedCases, this`errorCases, this`acc, this`f1, this`precision, this`recall
      ensures Counted() && Derived()
    {
      DeriveCounts();
      DeriveScores();
    }

    /** Accepted and error cases from the diagonal, and the accuracy. */
    method DeriveCounts()
      requires Counted()
      modifies this`acceptedCases, this`errorCases, this`acc
      ensures acceptedCases == Trace(actual, predict, Rows(), Labels())
      ensures errorCases == completeCases - acceptedCases
      ensures acc == AccuracyOf(acceptedCases, completeCases)
    {
      var s := DiagonalSum();
      acceptedCases := s;
      errorCases := completeCases - acceptedCases;
      if completeCases == 0 {
        acc := 0.0;
      } else {
        acc := s as real / completeCases as real;
      }
    }

    /** In the two-label case, the F1 score, precision and recall of the first label. */
    method DeriveScores()
      requires Counted()
      modifies this`f1, this`precision, this`recall
      ensures binary ==> BinaryScores()
      ensures !binary ==> f1 == old(f1) && precision == old(precision) && recall == old(recall)
    {
      if binary {
        var tp, fp, fn := cmf[0, 0], cmf[1, 0], cmf[0, 1];
        f1 := Ratio(2 * tp, 2 * tp + fp + fn);
        precision := Ratio(tp, tp + fp);
        recall := Ratio(tp, tp + fn);
      }
    }

    /** Counts the rows, then derives the scores. */
    method Compute()
      requires Fresh()
      modifies this, cmf
      ensures Valid()
    {
      CountRows();
      Derive();
    }

    /** The fraction of complete rows predicted right (0 with no complete row). */
    function Accuracy(): (r: real)
      reads this, cmf
      requires Valid()
      ensures 0.0 <= r <= 1.0
      ensures completeCases == 0 ==> r == 0.0
      ensures completeCases > 0 ==>
                r * CompleteCount(actual, predict, Rows()) as real == AgreeCount(actual, predict, Rows()) as real
    {
      TraceIsAgreement(actual, predict, Rows(), Labels());
      CountsSplit(actual, predict, Rows());
      ReadyInRange(actual, predict);
      AccuracyBounds(acceptedCases, completeCases);
      acc
    }

    /** The fraction of complete rows predicted wrong. */
    function Error(): (r: real)
      reads this, cmf
      requires Valid()
      ensures r == 1.0 - Accuracy()
      ensures 0.0 <= r <= 1.0
      ensures completeCases > 0 ==>
                (r == 0.0 <==> AgreeCount(actual, predict, Rows()) == CompleteCount(actual, predict, Rows()))
    {
      ReadyInRange(actual, predict);
      TraceIsAgreement(actual, predict, Rows(), Labels());
      CountsSplit(actual, predict, Rows());
      AccuracyBounds(acceptedCases, completeCases);
      1.0 - acc
    }

    /** Number of complete rows predicted right. */
    function AcceptedCases(): (r: int)
      reads this, cmf
      requires Valid()
      ensures r == AgreeCount(actual, predict, Rows())
      ensures 0 <= r <= CompleteCases()
    {
      ReadyInRange(actual, predict);
      TraceIsAgreement(actual, predict, Rows(), Labels());
      CountsSplit(actual, predict, Rows());
      acceptedCases
    }

    /** Number of complete rows predicted wrong. */
    function ErrorCases(): (r: int)
      reads this, cmf
      requires Valid()
      ensures r == DisagreeCount(actual, predict, Rows())
      ensures r >= 0 && r + AcceptedCases() == CompleteCases()
    {
      ReadyInRange(actual, predict);
      TraceIsAgreement(actual, predict, Rows(), Labels());
      CountsSplit(actual, predict, Rows());
      errorCases
    }

    /** Number of rows with both labels present. */
    function CompleteCases(): (r: int)
      reads this, cmf
      requires Valid()
      ensures r == CompleteCount(actual, predict, Rows())
      ensures 0 <= r <= Rows()
    {
      CountsSplit(actual, predict, Rows());
      completeCases
    }

    /** Adds row i of the matrix into the running totals. */
    method AddRow(i: int, rows0: seq<int>, cols0: seq<int>, grand0: int)
      returns (rows: seq<int>, cols: seq<int>, grand: int)
      requires Valid() && 0 <= i < Labels()
      requires |rows0| == Labels() && |cols0| == Labels()
      ensures rows == rows0[i := rows0[i] + RowTotal(actual, predict, Rows(), Labels(), i)]
      ensures |cols| == Labels()
      ensures forall c :: 0 <= c < Labels() ==> cols[c] == cols0[c] + CellCount(actual, predict, Rows(), i, c)
      ensures grand == grand0 + RowTotal(actual, predict, Rows(), Labels(), i)
    {
      var k := cmf.Length1;
      var n := Rows();
      rows, cols, grand := rows0, cols0, grand0;
      var j := 0;
      while j < k
        invariant 0 <= j <= k
        invariant rows == rows0[i := rows0[i] + SumInt(j, c => CellCount(actual, predict, n, i, c))]
        invariant |cols| == k
        invariant forall c :: 0 <= c < j ==> cols[c] == cols0[c] + CellCount(actual, predict, n, i, c)
        invariant forall c :: j <= c < k ==> cols[c] == cols0[c]
        invariant grand == grand0 + SumInt(j, c => CellCount(actual, predict, n, i, c))
      {
        var v := cmf[i, j];
        grand := grand + v;
        rows := rows[i := rows[i] + v];
        cols := cols[j := cols[j] + v];
        j := j + 1;
      }
    }

    /** The row totals, column totals and grand total of the matrix, as printed beside and under it. */
    method Totals() returns (rowTotals: seq<int>, colTotals: seq<int>, grandTotal: int)
      requires Valid()
      ensures |rowTotals| == Labels() && |colTotals| == Labels()
      ensures forall r :: 0 <= r < Labels() ==>
                rowTotals[r] == RowTotal(actual, predict, Rows(), Labels(), r)
                && rowTotals[r] == ActualCount(actual, predict, Rows(), r)
      ensures forall c :: 0 <= c < Labels() ==>
                colTotals[c] == ColTotal(actual, predict, Rows(), Labels(), c)
                && colTotals[c] == PredictCount(actual, predict, Rows(), c)
      ensures grandTotal == GrandTotal(actual, predict, Rows(), Labels())
      ensures grandTotal == completeCases
    {
      var k := cmf.Length0;
      var n := Rows();
      rowTotals := seq(k, _ => 0);
      colTotals := seq(k, _ => 0);
      grandTotal := 0;
      var i := 0;
      while i < k
        invariant 0 <= i <= k
        invariant |rowTotals| == k && |colTotals| == k
        invariant forall r :: 0 <= r < i ==> rowTotals[r] == RowTotal(actual, predict, n, k, r)
        invariant forall r :: i <= r < k ==> rowTotals[r] == 0
        invariant forall c :: 0 <= c < k ==> colTotals[c] == ColPartial(actual, predict, n, i, c)
        invariant grandTotal == GrandPartial(actual, predict, n, k, i)
      {
        rowTotals, colTotals, grandTotal := AddRow(i, rowTotals, colTotals, grandTotal);
        i := i + 1;
      }
      ReadyInRange(actual, predict);
      forall r | 0 <= r < k
        ensures rowTotals[r] == ActualCount(actual, predict, n, r)
      {
        RowTotalIsActualCount(actual, predict, n, k, r);
      }
      forall c | 0 <= c < k
        ensures colTotals[c] == PredictCount(actual, predict, n, c)
      {
        ColTotalIsPredictCount(actual, predict, n, k, c);
      }
      GrandTotalIsComplete(actual, predict, n, k);
    }
  }

  /** Validates the pair and builds its confusion matrix, or reports why it cannot. */
  method From(actual: Var, predict: Var, percents: bool) returns (r: Result<Confusion, ConfusionError>)
    requires WellFormed(actual) && WellFormed(predict) && RowCount(predict) >= RowCount(actual)
    ensures r.Success? <==> Compatible(actual, predict)
    ensures !actual.nominal ==> r == Failure(ActualNotNominal)
    ensures actual.nominal && !predict.nominal ==> r == Failure(PredictNotNominal)
    ensures (actual.nominal && predict.nominal && |actual.levels| != |predict.levels|)
              ==> r == Failure(LevelCountMismatch)
    ensures (actual.nominal && predict.nominal && |actual.levels| == |predict.levels|
              && actual.levels != predict.levels) ==> r == Failure(LevelsDiffer)
    ensures r.Success? ==> r.value.Valid() && r.value.actual == actual && r.value.predict == predict
  {
    var o := Validate(actual, predict);
    if o.Fail? {
      return Failure(o.error);
    }
    var c := new Confusion(actual, predict, percents);
    return Success(c);
  }
}
