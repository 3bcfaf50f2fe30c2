/**
 * The bookkeeping of the classification forest: the bootstrap split of the
 * rows into a training sample and the out-of-bag rest, the number of runs and
 * the weak predictors built for them, and the two ways of combining the trees'
 * densities into class densities (one vote per tree, or the summed densities).
 * Training a weak learner, predicting with it and drawing the random sample
 * are outside the model: their results are parameters.
 */
module Forest {
  import opened Wrappers
  import opened Sums
  import opened Matrices
  import opened Densities

  // ---------------------------------------------------------------------
  // Bootstrap samples
  // ---------------------------------------------------------------------

  /** Rows (and their weights) a weak learner trains on, and the out-of-bag rows it is scored on. */
  datatype Samples = Samples(train: seq<nat>, trainWeights: seq<real>, oob: seq<nat>, oobWeights: seq<real>)

  /** The rows 0..n-1 in order. */
  function AllRows(n: nat): seq<nat>
  {
    seq(n, i requires 0 <= i < n => i as nat)
  }

  /** The rows below i that the sample never drew, ascending. */
  function Absent(sample: seq<nat>, i: nat): (r: seq<nat>)
    ensures forall k :: 0 <= k < |r| ==> r[k] < i
  {
    if i == 0 then []
    else Absent(sample, i - 1) + (if (i - 1) as nat in sample then [] else [(i - 1) as nat])
  }

  /** The weights of the given rows, row by row. */
  function WeightsOf(weights: seq<real>, rows: seq<nat>): seq<real>
    requires forall k :: 0 <= k < |rows| ==> rows[k] < |weights|
  {
    seq(|rows|, k requires 0 <= k < |rows| => weights[rows[k]])
  }

  /** The out-of-bag rows below i are listed in ascending order. */
  lemma {:induction false} AbsentAscending(sample: seq<nat>, i: nat)
    ensures forall k, l :: 0 <= k < l < |Absent(sample, i)| ==> Absent(sample, i)[k] < Absent(sample, i)[l]
  {
    if i > 0 {
      AbsentAscending(sample, i - 1);
      var prev := Absent(sample, i - 1);
      var last: seq<nat> := if (i - 1) as nat in sample then [] else [(i - 1) as nat];
      assert Absent(sample, i) == prev + last;
      assert forall k :: 0 <= k < |prev| ==> prev[k] < i - 1;
    }
  }

  /** The out-of-bag rows below i are exactly the rows below i that were not drawn. */
  lemma {:induction false} AbsentMembers(sample: seq<nat>, i: nat)
    ensures forall x: nat :: x in Absent(sample, i) <==> x < i && x !in sample
  {
    if i > 0 {
      AbsentMembers(sample, i - 1);
      var last: seq<nat> := if (i - 1) as nat in sample then [] else [(i - 1) as nat];
      assert Absent(sample, i) == Absent(sample, i - 1) + last;
      forall x: nat
        ensures x in Absent(sample, i) <==> x < i && x !in sample
      {
        assert x in Absent(sample, i) <==> x in Absent(sample, i - 1) || x in last;
      }
    }
  }

  /** The out-of-bag rows are below i, ascending, and exactly the rows below i not drawn. */
  lemma {:induction false} AbsentRows(sample: seq<nat>, i: nat)
    ensures forall k :: 0 <= k < |Absent(sample, i)| ==> Absent(sample, i)[k] < i
    ensures forall k, l :: 0 <= k < l < |Absent(sample, i)| ==> Absent(sample, i)[k] < Absent(sample, i)[l]
    ensures forall x: nat :: x in Absent(sample, i) <==> x < i && x !in sample
  {
    AbsentAscending(sample, i);
    AbsentMembers(sample, i);
  }

  /**
   * The training rows and the out-of-bag rows never share a row, and
   * between them they hold every row of the frame and no other.
   */
  lemma SamplePartitions(sample: seq<nat>, n: nat)
    requires forall k :: 0 <= k < |sample| ==> sample[k] < n
    ensures forall x: nat :: x in sample ==> x !in Absent(sample, n)
    ensures forall x: nat :: x < n <==> x in sample || x in Absent(sample, n)
  {
    AbsentRows(sample, n);
  }

  /**
   * Splits the n rows for one weak learner. With no sampling the learner
   * trains on every row with the original weights and nothing is out of
   * bag; otherwise it trains on the drawn sample (duplicates kept, in draw
   * order) and the rows never drawn are out of bag.
   */
  method ProduceSamples(n: nat, weights: seq<real>, sampling: real, sample: seq<nat>) returns (s: Samples)
    requires |weights| >= n
    requires forall k :: 0 <= k < |sample| ==> sample[k] < n
    ensures sampling <= 0.0 ==> s == Samples(AllRows(n), weights, [], [])
    ensures sampling > 0.0 ==>
              && s.train == sample
              && s.trainWeights == WeightsOf(weights, sample)
              && s.oob == Absent(sample, n)
              && s.oobWeights == WeightsOf(weights, s.oob)
  {
    if sampling <= 0.0 {
      return Samples(AllRows(n), weights, [], []);
    }
    var train, trainWeights, rows := DrawTrain(weights, sample);
    var oob, oobWeights := CollectOob(n, weights, sample, rows);
    return Samples(train, trainWeights, oob, oobWeights);
  }

  /** The training rows in draw order with their weights, and the set of rows drawn. */
  method DrawTrain(weights: seq<real>, sample: seq<nat>) returns (train: seq<nat>, trainWeights: seq<real>, rows: set<nat>)
    requires forall k :: 0 <= k < |sample| ==> sample[k] < |weights|
    ensures train == sample && trainWeights == WeightsOf(weights, sample)
    ensures forall x :: x in rows <==> x in sample
  {
    train, trainWeights, rows := [], [], {};
    var k := 0;
    while k < |sample|
      invariant 0 <= k <= |sample|
      invariant forall x :: x in rows <==> x in sample[..k]
      invariant train == sample[..k]
      invariant trainWeights == WeightsOf(weights, sample[..k])
    {
      var row := sample[k];
      rows := rows + {row};
      train := train + [row];
      trainWeights := trainWeights + [weights[row]];
      assert sample[..k + 1] == sample[..k] + [row];
      k := k + 1;
    }
    assert sample[..k] == sample;
  }

  /** The rows below n that were not drawn, ascending, with their weights. */
  method CollectOob(n: nat, weights: seq<real>, sample: seq<nat>, rows: set<nat>) returns (oob: seq<nat>, oobWeights: seq<real>)
    requires |weights| >= n
    requires forall x :: x in rows <==> x in sample
    ensures oob == Absent(sample, n) && oobWeights == WeightsOf(weights, oob)
  {
    oob, oobWeights := [], [];
    var i := 0;
    while i < n
      invariant 0 <= i <= n
      invariant oob == Absent(sample, i)
      invariant oobWeights == WeightsOf(weights, oob)
    {
      if i in rows {
        i := i + 1;
        continue;
      }
      oob := oob + [i];
      oobWeights := oobWeights + [weights[i]];
      i := i + 1;
    }
  }

  // ---------------------------------------------------------------------
  // The forest object: runs and predictors
  // ---------------------------------------------------------------------

  datatype ForestError = NotSingleTarget // forests learn exactly one target variable

  /** What training the i-th weak learner yields: the predictor, its out-of-bag row count and error. */
  datatype WeakFit<M> = WeakFit(model: M, oobRows: nat, oobError: real)

  /** The predictors of weak fits lo..hi-1. */
  function Built<M>(build: nat -> WeakFit<M>, lo: nat, hi: int): seq<M>
  {
    if hi <= lo then [] else seq(hi - lo, k requires 0 <= k < hi - lo => build(lo + k).model)
  }

  /** Out-of-bag rows of weak fits lo..hi-1 (none unless out-of-bag scoring is on). */
  function OobRows<M>(build: nat -> WeakFit<M>, lo: nat, hi: int, on: bool): real
  {
    if !on || hi <= lo then 0.0 else SumRange(lo, hi, i => if i >= 0 then build(i).oobRows as real else 0.0)
  }

  /** Out-of-bag errors of weak fits lo..hi-1 (none unless out-of-bag scoring is on). */
  function OobErrors<M>(build: nat -> WeakFit<M>, lo: nat, hi: int, on: bool): real
  {
    if !on || hi <= lo then 0.0 else SumRange(lo, hi, i => if i >= 0 then build(i).oobError else 0.0)
  }

  /** The average out-of-bag error; None stands for the NaN or infinity of a division by zero. */
  function OobAverage(errors: real, rows: real): Option<real>
  {
    if rows == 0.0 then None else Some(errors / rows)
  }

  class CForest<M> {
    var runs: int
    var oobCompute: bool
    var totalOobInstances: real
    var totalOobError: real
    var oobError: Option<real>
    var predictors: seq<M>
    var targetVar: Option<string>
    var dictionary: Option<seq<string>>

    /** A new forest: no runs, no predictors, nothing learned, out-of-bag error undefined. */
    constructor ()
      ensures runs == 0 && !oobCompute && predictors == []
      ensures totalOobInstances == 0.0 && totalOobError == 0.0 && oobError == None
      ensures targetVar == None && dictionary == None
    {
      runs := 0;
      oobCompute := false;
      totalOobInstances := 0.0;
      totalOobError := 0.0;
      oobError := None;
      predictors := [];
      targetVar := None;
      dictionary := None;
    }

    method WithRuns(r: int)
      modifies this`runs
      ensures runs == r
    {
      runs := r;
    }

    method WithOobError(on: bool)
      modifies this`oobCompute
      ensures oobCompute == on
    {
      oobCompute := on;
    }

    /** The forest has learned once: it knows its target and the target's dictionary. */
    predicate Learned()
      reads this
    {
      targetVar.Some? && dictionary.Some?
    }

    /** Trains the weak learner number |predictors| and records it, with its out-of-bag score if enabled. */
    method BuildWeakPredictor(build: nat -> WeakFit<M>)
      modifies this`predictors, this`totalOobInstances, this`totalOobError
      ensures predictors == old(predictors) + [build(|old(predictors)|).model]
      ensures totalOobInstances == old(totalOobInstances)
                + (if oobCompute then build(|old(predictors)|).oobRows as real else 0.0)
      ensures totalOobError == old(totalOobError)
                + (if oobCompute then build(|old(predictors)|).oobError else 0.0)
    {
      var fit := build(|predictors|);
      if oobCompute {
        totalOobInstances := totalOobInstances + fit.oobRows as real;
        totalOobError := totalOobError + fit.oobError;
      }
      predictors := predictors + [fit.model];
    }

    /** Builds weak predictors until there are `runs` of them, keeping the ones there are. */
    method BuildUpTo(build: nat -> WeakFit<M>)
      modifies this`predictors, this`totalOobInstances, this`totalOobError
      ensures predictors == old(predictors) + Built(build, |old(predictors)|, runs)
      ensures totalOobInstances == old(totalOobInstances) + OobRows(build, |old(predictors)|, runs, oobCompute)
      ensures totalOobError == old(totalOobError) + OobErrors(build, |old(predictors)|, runs, oobCompute)
    {
      var lo := |predictors|;
      var i := lo;
      while i < runs
        invariant lo <= i && (runs >= lo ==> i <= runs) && (runs < lo ==> i == lo)
        invariant |predictors| == i
        invariant predictors == old(predictors) + Built(build, lo, i)
        invariant totalOobInstances == old(totalOobInstances) + OobRows(build, lo, i, oobCompute)
        invariant totalOobError == old(totalOobError) + OobErrors(build, lo, i, oobCompute)
      {
        BuildWeakPredictor(build);
        OobStep(build, lo, i, oobCompute);
        assert Built(build, lo, i + 1) == Built(build, lo, i) + [build(i).model];
        i := i + 1;
      }
      assert i == runs || runs < lo;
    }

    /**
     * Learns the forest: refuses anything but one target; otherwise records
     * the target, drops the old predictors, restarts the out-of-bag totals and
     * builds `runs` new predictors.
     */
    method Learn(targets: seq<string>, dict: seq<string>, build: nat -> WeakFit<M>) returns (o: Outcome<ForestError>)
      modifies this
      ensures |targets| != 1 ==> o == Fail(NotSingleTarget) && unchanged(this)
      ensures |targets| == 1 ==>
                && o == Pass && Learned()
                && targetVar == Some(targets[0]) && dictionary == Some(dict)
                && runs == old(runs) && oobCompute == old(oobCompute)
                && predictors == Built(build, 0, runs)
                && totalOobInstances == OobRows(build, 0, runs, oobCompute)
                && totalOobError == OobErrors(build, 0, runs, oobCompute)
                && oobError == (if oobCompute then OobAverage(totalOobError, totalOobInstances) else old(oobError))
    {
      if |targets| != 1 {
        return Fail(NotSingleTarget);
      }
      targetVar := Some(targets[0]);
      dictionary := Some(dict);
      predictors := [];
      totalOobInstances := 0.0;
      totalOobError := 0.0;
      BuildUpTo(build);
      if oobCompute {
        oobError := OobAverage(totalOobError, totalOobInstances);
      }
      return Pass;
    }

    /**
     * Learns more runs: on a learned forest the runs grow by `additionalRuns`
     * and predictors are added until there are `runs` of them; on an unlearned
     * one the runs become `additionalRuns` and the forest learns from scratch.
     */
    method LearnFurther(targets: seq<string>, dict: seq<string>, additionalRuns: int, build: nat -> WeakFit<M>)
      returns (o: Outcome<ForestError>)
      modifies this
      ensures old(Learned()) ==>
                && o == Pass
                && runs == old(runs) + additionalRuns
                && predictors == old(predictors) + Built(build, |old(predictors)|, runs)
                && targetVar == old(targetVar) && dictionary == old(dictionary)
                && totalOobInstances == old(totalOobInstances) + OobRows(build, |old(predictors)|, runs, oobCompute)
                && totalOobError == old(totalOobError) + OobErrors(build, |old(predictors)|, runs, oobCompute)
                && oobCompute == old(oobCompute) && oobError == old(oobError)
      ensures !old(Learned()) ==> runs == additionalRuns && oobCompute == old(oobCompute)
      ensures !old(Learned()) && |targets| != 1 ==>
                && o == Fail(NotSingleTarget)
                && targetVar == old(targetVar) && dictionary == old(dictionary)
                && predictors == old(predictors)
                && totalOobInstances == old(totalOobInstances) && totalOobError == old(totalOobError)
                && oobError == old(oobError)
      ensures !old(Learned()) && |targets| == 1 ==>
                && o == Pass && Learned()
                && targetVar == Some(targets[0]) && dictionary == Some(dict)
                && predictors == Built(build, 0, runs)
                && totalOobInstances == OobRows(build, 0, runs, oobCompute)
                && totalOobError == OobErrors(build, 0, runs, oobCompute)
                && oobError == (if oobCompute then OobAverage(totalOobError, totalOobInstances) else old(oobError))
    {
      if Learned() {
        runs := runs + additionalRuns;
      } else {
        runs := additionalRuns;
        o := Learn(targets, dict, build);
        return;
      }
      BuildUpTo(build);
      return Pass;
    }
  }

  /** One more weak fit extends the out-of-bag totals by its own figures. */
  lemma OobStep<M>(build: nat -> WeakFit<M>, lo: nat, i: nat, on: bool)
    requires lo <= i
    ensures OobRows(build, lo, i + 1, on) == OobRows(build, lo, i, on) + (if on then build(i).oobRows as real else 0.0)
    ensures OobErrors(build, lo, i + 1, on) == OobErrors(build, lo, i, on) + (if on then build(i).oobError else 0.0)
  {
    if on {
      SumRangeSnoc(lo, i, j => if j >= 0 then build(j).oobRows as real else 0.0);
      SumRangeSnoc(lo, i, j => if j >= 0 then build(j).oobError else 0.0);
    }
  }

  lemma {:induction false} SumRangeSnoc(lo: nat, hi: nat, f: int -> real)
    requires lo <= hi
    ensures SumRange(lo, hi + 1, f) == SumRange(lo, hi, f) + f(hi)
    decreases hi - lo
  {
    if lo < hi {
      SumRangeSnoc(lo + 1, hi, f);
    }
  }

  /** After learning, there is one predictor per run (none for a non-positive run count). */
  lemma PredictorsPerRun<M>(build: nat -> WeakFit<M>, runs: int)
    ensures |Built(build, 0, runs)| == if runs > 0 then runs else 0
    ensures forall k :: 0 <= k < |Built(build, 0, runs)| ==> Built(build, 0, runs)[k] == build(k).model
  {
  }

  // ---------------------------------------------------------------------
  // Combining the trees' densities
  // ---------------------------------------------------------------------

  /** Sets the class of each row below classes.Length to the best label of its density row. */
  method AssignClasses(densities: array2<real>, classes: array<int>, best: seq<real> -> nat)
    requires classes.Length <= densities.Length0
    modifies classes
    ensures forall i :: 0 <= i < classes.Length ==> classes[i] == best(TableRow(densities, i))
  {
    var i := 0;
    while i < classes.Length
      invariant 0 <= i <= classes.Length
      invariant forall r :: 0 <= r < i ==> classes[r] == best(TableRow(densities, r))
    {
      var row := ReadRow(densities, i);
      classes[i] := best(row);
      i := i + 1;
    }
  }

  /**
   * VOTING: each tree adds one vote per row, in the cell of the label its
   * density row ranks best; then each row's class is its best label.
   */
  method Voting(k: nat, trees: seq<Matrix>, classes: array<int>, densities: array2<real>, best: seq<real> -> nat)
    requires densities.Length1 == k && TreesFit(trees, densities.Length0, k) && PicksLabel(best, k)
    requires classes.Length <= densities.Length0
    modifies densities, classes
    ensures forall r, j :: 0 <= r < densities.Length0 && 0 <= j < k ==>
              densities[r, j] == old(densities[r, j]) + Votes(trees, best, k, |trees|, r, j)
    ensures forall i :: 0 <= i < classes.Length ==> classes[i] == best(TableRow(densities, i))
  {
    AddAllVotes(densities, trees, k, best);
    AssignClasses(densities, classes, best);
  }

  /**
   * DISTRIBUTION_SUM: each tree's density matrix is added into the table;
   * then each row's class is its best label.
   */
  method DistributionSum(k: nat, trees: seq<Matrix>, classes: array<int>, densities: array2<real>, best: seq<real> -> nat)
    requires densities.Length1 == k && TreesFit(trees, densities.Length0, k)
    requires classes.Length <= densities.Length0
    modifies densities, classes
    ensures forall r, j :: 0 <= r < densities.Length0 && 0 <= j < k ==>
              densities[r, j] == old(densities[r, j]) + DensitySum(trees, |trees|, r, j)
    ensures forall i :: 0 <= i < classes.Length ==> classes[i] == best(TableRow(densities, i))
  {
    AddAllDensities(densities, trees, k);
    AssignClasses(densities, classes, best);
  }
}
