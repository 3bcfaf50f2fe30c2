/**
 * The two bagging modes of the ensemble classifiers. VOTING counts, per row,
 * one vote per tree for the label it ranks best among labels 1.. (label 0 is
 * the missing level); DISTRIBUTION restarts the table from zero and adds each
 * tree's density row scaled to sum to one. Both then normalize every row and
 * set its class to the row's best label. Ranking and normalizing a density
 * vector are outside the model: they are parameters.
 */
module Bagging {
  import opened Sums
  import opened Matrices
  import opened Densities

  /** The density vector a row is turned into before normalizing: all labels, or labels 1.. only. */
  function View(v: seq<real>, tailOnly: bool): seq<real>
  {
    if tailOnly then TailOnly(v) else v
  }

  /** Row i of the table after the votes of all trees. */
  function VotedRow(base: seq<real>, trees: seq<Matrix>, vote: seq<real> -> nat, k: nat, i: int): seq<real>
    requires |base| == k
  {
    seq(k, j requires 0 <= j < k => base[j] + Votes(trees, vote, k, |trees|, i, j))
  }

  /** Row i of the table after the shares of all trees. */
  function SharedRow(trees: seq<Matrix>, k: nat, i: nat): seq<real>
    requires NonZeroTotals(trees, i + 1, k)
  {
    seq(k, j => ShareSum(trees, k, |trees|, i, j))
  }

  /** Every tree has a density row of k cells for each of the `rows` rows. */
  predicate TreesCover(trees: seq<Matrix>, rows: nat, k: nat)
  {
    forall u :: 0 <= u < |trees| ==> |trees[u]| >= rows && forall i :: 0 <= i < |trees[u]| ==> |trees[u][i]| == k
  }

  /** The tree's vote for a row: the best of labels 1.. of its density row. */
  function TailVote(best: seq<real> -> nat): seq<real> -> nat
  {
    v => best(TailOnly(v))
  }

  lemma TailVotePicks(best: seq<real> -> nat, k: nat)
    requires PicksLabel(best, k)
    ensures PicksLabel(TailVote(best), k)
  {
    forall v: seq<real> | |v| == k
      ensures TailVote(best)(v) < k
    {
      assert |TailOnly(v)| == k;
    }
  }

  // ---------------------------------------------------------------------
  // Steps
  // ---------------------------------------------------------------------

  /** Sets every cell of the table to 0. */
  method ZeroTable(a: array2<real>)
    modifies a
    ensures forall r, j :: 0 <= r < a.Length0 && 0 <= j < a.Length1 ==> a[r, j] == 0.0
  {
    var i := 0;
    while i < a.Length0
      invariant 0 <= i <= a.Length0
      invariant forall r, j :: 0 <= r < a.Length0 && 0 <= j < a.Length1 ==>
                  a[r, j] == if r < i then 0.0 else old(a[r, j])
    {
      var j := 0;
      while j < a.Length1
        invariant 0 <= j <= a.Length1
        invariant forall r, c :: 0 <= r < a.Length0 && 0 <= c < a.Length1 ==>
                    a[r, c] == if r < i || (r == i && c < j) then 0.0 else old(a[r, c])
      {
        a[i, j] := 0.0;
        j := j + 1;
      }
      i := i + 1;
    }
  }

  /** The total density of row i of the tree, summed cell by cell. */
  method RowTotalOf(d: Matrix, i: nat, k: nat) returns (t: real)
    ensures t == RowTotal(d, i, k)
  {
    t := 0.0;
    var j := 0;
    while j < k
      invariant 0 <= j <= k
      invariant t == Sum(j, c => At(d, i, c))
    {
      t := t + At(d, i, j);
      j := j + 1;
    }
  }

  /** Adds each of the tree's rows, divided by its total, into the table. */
  method AddShares(a: array2<real>, d: Matrix, k: nat)
    requires a.Length1 == k && |d| >= a.Length0
    requires forall i :: 0 <= i < a.Length0 ==> RowTotal(d, i, k) != 0.0
    modifies a
    ensures forall r, j :: 0 <= r < a.Length0 && 0 <= j < k ==>
              a[r, j] == old(a[r, j]) + Share(d, r, j, k)
  {
    var i := 0;
    while i < a.Length0
      invariant 0 <= i <= a.Length0
      invariant forall r, j :: 0 <= r < a.Length0 && 0 <= j < k ==>
                  a[r, j] == old(a[r, j]) + (if r < i then Share(d, r, j, k) else 0.0)
    {
      var t := RowTotalOf(d, i, k);
      AddToRow(a, i, seq(k, j => At(d, i, j) / t));
      i := i + 1;
    }
  }

  /** Adds every tree's shares into the table, tree by tree. */
  method AddAllShares(a: array2<real>, trees: seq<Matrix>, k: nat)
    requires a.Length1 == k && TreesCover(trees, a.Length0, k) && NonZeroTotals(trees, a.Length0, k)
    modifies a
    ensures forall r, j :: 0 <= r < a.Length0 && 0 <= j < k ==>
              a[r, j] == old(a[r, j]) + ShareSum(trees, k, |trees|, r, j)
  {
    var u := 0;
    while u < |trees|
      invariant 0 <= u <= |trees|
      invariant forall r, j :: 0 <= r < a.Length0 && 0 <= j < k ==>
                  a[r, j] == old(a[r, j]) + ShareSum(trees, k, u, r, j)
    {
      AddShares(a, trees[u], k);
      u := u + 1;
    }
  }

  /**
   * For each row below classes.Length: builds its density vector (all
   * labels, or labels 1.. only), normalizes it, writes it back to the cells
   * it was built from, and sets the row's class to its best label.
   */
  method FinishRows(a: array2<real>, classes: array<int>, tailOnly: bool,
                    normalize: seq<real> -> seq<real>, best: seq<real> -> nat)
    requires classes.Length <= a.Length0 && KeepsLength(normalize)
    modifies a, classes
    ensures forall r, j :: 0 <= r < a.Length0 && 0 <= j < a.Length1 ==>
              a[r, j] == if r < classes.Length && (!tailOnly || 1 <= j)
                         then old(normalize(View(TableRow(a, r), tailOnly))[j])
                         else old(a[r, j])
    ensures forall i :: 0 <= i < classes.Length ==>
              classes[i] == old(best(normalize(View(TableRow(a, i), tailOnly))))
  {
    var from := if tailOnly then 1 else 0;
    var i := 0;
    while i < classes.Length
      invariant 0 <= i <= classes.Length
      invariant forall r, j :: 0 <= r < a.Length0 && 0 <= j < a.Length1 ==>
                  a[r, j] == if r < i && from <= j
                             then old(normalize(View(TableRow(a, r), tailOnly))[j])
                             else old(a[r, j])
      invariant forall r :: 0 <= r < i ==>
                  classes[r] == old(best(normalize(View(TableRow(a, r), tailOnly))))
    {
      var row := ReadRow(a, i);
      assert row == old(TableRow(a, i));
      var dv := View(row, tailOnly);
      var nv := normalize(dv);
      assert |nv| == |dv| == a.Length1;
      WriteRow(a, i, nv, from);
      classes[i] := best(nv);
      i := i + 1;
    }
  }

  // ---------------------------------------------------------------------
  // The two modes
  // ---------------------------------------------------------------------

  /**
   * VOTING: each tree adds one vote per row for the best of labels 1.. of its
   * density row; then every row below classes.Length is normalized over labels
   * 1.. (cell 0 is left as it is) and gets its best label as class.
   */
  method Voting(k: nat, trees: seq<Matrix>, classes: array<int>, densities: array2<real>,
                best: seq<real> -> nat, normalize: seq<real> -> seq<real>)
    requires densities.Length1 == k && TreesFit(trees, densities.Length0, k)
    requires PicksLabel(best, k) && KeepsLength(normalize)
    requires classes.Length <= densities.Length0
    modifies densities, classes
    ensures forall r, j :: 0 <= r < densities.Length0 && 0 <= j < k ==>
              densities[r, j] ==
                if r < classes.Length && 1 <= j
                then normalize(TailOnly(VotedRow(old(TableRow(densities, r)), trees, TailVote(best), k, r)))[j]
                else old(densities[r, j]) + Votes(trees, TailVote(best), k, |trees|, r, j)
    ensures forall i :: 0 <= i < classes.Length ==>
              classes[i] == best(normalize(TailOnly(VotedRow(old(TableRow(densities, i)), trees, TailVote(best), k, i))))
  {
    TailVotePicks(best, k);
    ghost var before := Rows(densities);
    AddAllVotes(densities, trees, k, TailVote(best));
    VotedRows(densities, before, trees, TailVote(best), k);
    FinishRows(densities, classes, true, normalize, best);
  }

  /** All rows of the table, as density vectors. */
  ghost function Rows(a: array2<real>): seq<seq<real>>
    reads a
  {
    seq(a.Length0, r requires 0 <= r < a.Length0 reads a => TableRow(a, r))
  }

  /** The table rows after the votes, as vectors. */
  lemma VotedRows(a: array2<real>, before: seq<seq<real>>, trees: seq<Matrix>, vote: seq<real> -> nat, k: nat)
    requires a.Length1 == k && |before| == a.Length0
    requires forall r :: 0 <= r < a.Length0 ==> |before[r]| == k
    requires forall r, j :: 0 <= r < a.Length0 && 0 <= j < k ==>
               a[r, j] == before[r][j] + Votes(trees, vote, k, |trees|, r, j)
    ensures forall r :: 0 <= r < a.Length0 ==> TableRow(a, r) == VotedRow(before[r], trees, vote, k, r)
  {
  }

  /**
   * DISTRIBUTION: the table restarts from zero; each tree adds every row of
   * its density matrix divided by the row's total; then every row below
   * classes.Length is normalized over all labels and gets its best label.
   */
  method Distribution(k: nat, trees: seq<Matrix>, classes: array<int>, densities: array2<real>,
                      best: seq<real> -> nat, normalize: seq<real> -> seq<real>)
    requires densities.Length1 == k && TreesCover(trees, densities.Length0, k)
    requires NonZeroTotals(trees, densities.Length0, k) && KeepsLength(normalize)
    requires classes.Length <= densities.Length0
    modifies densities, classes
    ensures forall r, j :: 0 <= r < densities.Length0 && 0 <= j < k ==>
              densities[r, j] ==
                if r < classes.Length then normalize(SharedRow(trees, k, r))[j] else ShareSum(trees, k, |trees|, r, j)
    ensures forall i :: 0 <= i < classes.Length ==> classes[i] == best(normalize(SharedRow(trees, k, i)))
  {
    ZeroTable(densities);
    AddAllShares(densities, trees, k);
    SharedRows(densities, trees, k);
    FinishRows(densities, classes, false, normalize, best);
  }

  /** The table rows after the shares, as vectors. */
  lemma SharedRows(a: array2<real>, trees: seq<Matrix>, k: nat)
    requires a.Length1 == k && NonZeroTotals(trees, a.Length0, k)
    requires forall r, j :: 0 <= r < a.Length0 && 0 <= j < k ==> a[r, j] == 0.0 + ShareSum(trees, k, |trees|, r, j)
    ensures forall r :: 0 <= r < a.Length0 ==> TableRow(a, r) == SharedRow(trees, k, r)
  {
  }

  /**
   * Before normalization, with non-zero row totals, every row of the
   * DISTRIBUTION table sums to the number of trees.
   */
  lemma SharedRowSumsToTrees(trees: seq<Matrix>, k: nat, i: nat)
    requires NonZeroTotals(trees, i + 1, k)
    ensures Sum(k, j => Get(SharedRow(trees, k, i), j)) == |trees| as real
  {
    SumExt(k, j => Get(SharedRow(trees, k, i), j), j => ShareSum(trees, k, |trees|, i, j));
    SharesPerRow(trees, k, |trees|, i);
  }

  function Get(v: seq<real>, j: int): real
  {
    if 0 <= j < |v| then v[j] else 0.0
  }

  /**
   * Before normalization, across all labels the VOTING table gains in row i
   * exactly one vote per tree that has row i.
   */
  lemma VotedRowGainsOnePerTree(base: seq<real>, trees: seq<Matrix>, best: seq<real> -> nat, k: nat, i: int)
    requires |base| == k && PicksLabel(best, k)
    ensures Sum(k, j => Get(VotedRow(base, trees, TailVote(best), k, i), j))
            == Sum(k, j => Get(base, j)) + TreesWithRow(trees, |trees|, i)
  {
    TailVotePicks(best, k);
    SumAdd(k, j => Get(base, j), j => Votes(trees, TailVote(best), k, |trees|, i, j),
           j => Get(VotedRow(base, trees, TailVote(best), k, i), j));
    VotesPerRow(trees, TailVote(best), k, |trees|, i);
  }
}
