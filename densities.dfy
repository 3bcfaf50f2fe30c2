/**
 * Density tables shared by the ensemble classifiers: a rows-by-labels table
 * of class densities (updated in place), the per-tree density matrices it is
 * accumulated from, and the vote and share each tree contributes to a cell.
 */
module Densities {
  import opened Sums
  import opened Matrices

  /** Row i of a table, as the density vector of its cells. */
  function TableRow(a: array2<real>, i: int): seq<real>
    reads a
    requires 0 <= i < a.Length0
  {
    seq(a.Length1, j requires 0 <= j < a.Length1 reads a => a[i, j])
  }

  /** Row i of a tree's density matrix, over k labels (0 past its end). */
  function TreeRow(d: Matrix, i: int, k: nat): seq<real>
  {
    seq(k, j => At(d, i, j))
  }

  /** The tree at position u, or an empty one outside the list. */
  function TreeAt(trees: seq<Matrix>, u: int): Matrix
  {
    if 0 <= u < |trees| then trees[u] else []
  }

  /** The density vector built from labels 1.. only: label 0 (missing) stays 0. */
  function TailOnly(v: seq<real>): seq<real>
  {
    seq(|v|, j requires 0 <= j < |v| => if j == 0 then 0.0 else v[j])
  }

  /** A best-index choice over density vectors of k labels always picks a label. */
  ghost predicate PicksLabel(best: seq<real> -> nat, k: nat)
  {
    forall v: seq<real> :: |v| == k ==> best(v) < k
  }

  /** A normalization keeps the length of the density vector. */
  ghost predicate KeepsLength(normalize: seq<real> -> seq<real>)
  {
    forall v: seq<real> :: |normalize(v)| == |v|
  }

  /** A tree density matrix with at most `rows` rows of k cells each. */
  predicate TreeFits(d: Matrix, rows: nat, k: nat)
  {
    |d| <= rows && forall i :: 0 <= i < |d| ==> |d[i]| == k
  }

  predicate TreesFit(trees: seq<Matrix>, rows: nat, k: nat)
  {
    forall u :: 0 <= u < |trees| ==> TreeFits(trees[u], rows, k)
  }

  // ---------------------------------------------------------------------
  // What one tree contributes to a cell
  // ---------------------------------------------------------------------

  /** One vote in cell (i, j) when the tree has row i and its vote for that row is j. */
  function VoteOf(d: Matrix, vote: seq<real> -> nat, k: nat, i: int, j: int): real
  {
    if 0 <= i < |d| && vote(TreeRow(d, i, k)) == j then 1.0 else 0.0
  }

  /** Votes of the first t trees in cell (i, j). */
  function Votes(trees: seq<Matrix>, vote: seq<real> -> nat, k: nat, t: nat, i: int, j: int): real
  {
    Sum(t, u => VoteOf(TreeAt(trees, u), vote, k, i, j))
  }

  /** Densities of the first t trees summed in cell (i, j). */
  function DensitySum(trees: seq<Matrix>, t: nat, i: int, j: int): real
  {
    Sum(t, u => At(TreeAt(trees, u), i, j))
  }

  /** The total density of row i of a tree over k labels. */
  function RowTotal(d: Matrix, i: int, k: nat): real
  {
    Sum(k, j => At(d, i, j))
  }

  /** The tree's density in cell (i, j) divided by its row total. */
  function Share(d: Matrix, i: int, j: int, k: nat): real
    requires RowTotal(d, i, k) != 0.0
  {
    At(d, i, j) / RowTotal(d, i, k)
  }

  /** Every row below `rows` of every tree has a non-zero total. */
  predicate NonZeroTotals(trees: seq<Matrix>, rows: nat, k: nat)
  {
    forall u, i :: 0 <= u < |trees| && 0 <= i < rows ==> RowTotal(trees[u], i, k) != 0.0
  }

  /** Shares of the first t trees summed in cell (i, j). */
  function ShareSum(trees: seq<Matrix>, k: nat, t: nat, i: int, j: int): real
    requires 0 <= i && NonZeroTotals(trees, i + 1, k)
  {
    Sum(t, u => if 0 <= u < |trees| then Share(trees[u], i, j, k) else 0.0)
  }

  /** Summing an indicator of c over 0..k-1 counts whether c is among them. */
  lemma {:induction false} SumIndicator(k: nat, c: int)
    ensures Sum(k, j => if c == j then 1.0 else 0.0) == if 0 <= c < k then 1.0 else 0.0
  {
    if k > 0 {
      SumIndicator(k - 1, c);
    }
  }

  /** A tree casts exactly one vote for each of its rows, and none for rows it lacks. */
  lemma OneVotePerRow(d: Matrix, vote: seq<real> -> nat, k: nat, i: int)
    requires PicksLabel(vote, k)
    ensures Sum(k, j => VoteOf(d, vote, k, i, j)) == if 0 <= i < |d| then 1.0 else 0.0
  {
    var c := if 0 <= i < |d| then vote(TreeRow(d, i, k)) as int else -1;
    SumExt(k, j => VoteOf(d, vote, k, i, j), j => if c == j then 1.0 else 0.0);
    SumIndicator(k, c);
  }

  /** How many of the first t trees have row i. */
  function TreesWithRow(trees: seq<Matrix>, t: nat, i: int): real
  {
    Sum(t, u => if 0 <= i < |TreeAt(trees, u)| then 1.0 else 0.0)
  }

  /** Across all labels, the votes of the first t trees in row i number those of them that have row i. */
  lemma {:induction false} VotesPerRow(trees: seq<Matrix>, vote: seq<real> -> nat, k: nat, t: nat, i: int)
    requires PicksLabel(vote, k)
    ensures Sum(k, j => Votes(trees, vote, k, t, i, j)) == TreesWithRow(trees, t, i)
  {
    if t == 0 {
      SumZero(k, j => Votes(trees, vote, k, 0, i, j));
    } else {
      VotesPerRow(trees, vote, k, t - 1, i);
      OneVotePerRow(TreeAt(trees, t - 1), vote, k, i);
      SumAdd(k, j => Votes(trees, vote, k, t - 1, i, j), j => VoteOf(TreeAt(trees, t - 1), vote, k, i, j),
             j => Votes(trees, vote, k, t, i, j));
    }
  }

  /** A row of shares sums to one. */
  lemma SharesSumToOne(d: Matrix, i: int, k: nat)
    requires RowTotal(d, i, k) != 0.0
    ensures Sum(k, j => Share(d, i, j, k)) == 1.0
  {
    var t := RowTotal(d, i, k);
    forall j | 0 <= j < k
      ensures Share(d, i, j, k) == (1.0 / t) * At(d, i, j)
    {
    }
    SumScale(k, 1.0 / t, j => At(d, i, j), j => Share(d, i, j, k));
  }

  /** With non-zero row totals, the accumulated shares of the first t trees in row i sum to t. */
  lemma {:induction false} SharesPerRow(trees: seq<Matrix>, k: nat, t: nat, i: nat)
    requires t <= |trees| && NonZeroTotals(trees, i + 1, k)
    ensures Sum(k, j => ShareSum(trees, k, t, i, j)) == t as real
  {
    if t == 0 {
      SumZero(k, j => ShareSum(trees, k, 0, i, j));
    } else {
      SharesPerRow(trees, k, t - 1, i);
      SharesSumToOne(trees[t - 1], i, k);
      SumAdd(k, j => ShareSum(trees, k, t - 1, i, j), j => Share(trees[t - 1], i, j, k),
             j => ShareSum(trees, k, t, i, j));
    }
  }

  // ---------------------------------------------------------------------
  // In-place table updates
  // ---------------------------------------------------------------------

  /** Reads row i of the table into a density vector. */
  method ReadRow(a: array2<real>, i: nat) returns (v: seq<real>)
    requires i < a.Length0
    ensures v == TableRow(a, i)
  {
    v := [];
    var j := 0;
    while j < a.Length1
      invariant 0 <= j <= a.Length1
      invariant |v| == j && forall c :: 0 <= c < j ==> v[c] == a[i, c]
    {
      v := v + [a[i, j]];
      j := j + 1;
    }
  }

  /** Adds v to row i of the table, cell by cell. */
  method AddToRow(a: array2<real>, i: nat, v: seq<real>)
    requires i < a.Length0 && |v| == a.Length1
    modifies a
    ensures forall r, j :: 0 <= r < a.Length0 && 0 <= j < a.Length1 ==>
              a[r, j] == old(a[r, j]) + (if r == i then v[j] else 0.0)
  {
    var j := 0;
    while j < a.Length1
      invariant 0 <= j <= a.Length1
      invariant forall r, c :: 0 <= r < a.Length0 && 0 <= c < a.Length1 ==>
                  a[r, c] == old(a[r, c]) + (if r == i && c < j then v[c] else 0.0)
    {
      a[i, j] := a[i, j] + v[j];
      j := j + 1;
    }
  }

  /** Overwrites the cells from..k-1 of row i with v, leaving everything else. */
  method WriteRow(a: array2<real>, i: nat, v: seq<real>, from: nat)
    requires i < a.Length0 && |v| == a.Length1
    modifies a
    ensures forall r, j :: 0 <= r < a.Length0 && 0 <= j < a.Length1 ==>
              a[r, j] == if r == i && from <= j then v[j] else old(a[r, j])
  {
    var j := from;
    while j < a.Length1
      invariant from <= j
      invariant forall r, c :: 0 <= r < a.Length0 && 0 <= c < a.Length1 ==>
                  a[r, c] == if r == i && from <= c < j then v[c] else old(a[r, c])
    {
      a[i, j] := v[j];
      j := j + 1;
    }
  }

  /** Adds one vote for each row of the tree, in the cell of the label its vote picks. */
  method AddVotes(a: array2<real>, d: Matrix, k: nat, vote: seq<real> -> nat)
    requires a.Length1 == k && TreeFits(d, a.Length0, k) && PicksLabel(vote, k)
    modifies a
    ensures forall r, j :: 0 <= r < a.Length0 && 0 <= j < k ==>
              a[r, j] == old(a[r, j]) + VoteOf(d, vote, k, r, j)
  {
    var i := 0;
    while i < |d|
      invariant 0 <= i <= |d|
      invariant forall r, j :: 0 <= r < a.Length0 && 0 <= j < k ==>
                  a[r, j] == old(a[r, j]) + (if r < i then VoteOf(d, vote, k, r, j) else 0.0)
    {
      var row := TreeRow(d, i, k);
      var best := vote(row);
      a[i, best] := a[i, best] + 1.0;
      i := i + 1;
    }
  }

  /** Adds the tree's density matrix into the table, row by row. */
  method AddDensities(a: array2<real>, d: Matrix, k: nat)
    requires a.Length1 == k && TreeFits(d, a.Length0, k)
    modifies a
    ensures forall r, j :: 0 <= r < a.Length0 && 0 <= j < k ==>
              a[r, j] == old(a[r, j]) + At(d, r, j)
  {
    var i := 0;
    while i < |d|
      invariant 0 <= i <= |d|
      invariant forall r, j :: 0 <= r < a.Length0 && 0 <= j < k ==>
                  a[r, j] == old(a[r, j]) + (if r < i then At(d, r, j) else 0.0)
    {
      AddToRow(a, i, TreeRow(d, i, k));
      i := i + 1;
    }
  }

  /** Adds every tree's votes into the table, tree by tree. */
  method AddAllVotes(a: array2<real>, trees: seq<Matrix>, k: nat, vote: seq<real> -> nat)
    requires a.Length1 == k && TreesFit(trees, a.Length0, k) && PicksLabel(vote, k)
    modifies a
    ensures forall r, j :: 0 <= r < a.Length0 && 0 <= j < k ==>
              a[r, j] == old(a[r, j]) + Votes(trees, vote, k, |trees|, r, j)
  {
    var u := 0;
    while u < |trees|
      invariant 0 <= u <= |trees|
      invariant forall r, j :: 0 <= r < a.Length0 && 0 <= j < k ==>
                  a[r, j] == old(a[r, j]) + Votes(trees, vote, k, u, r, j)
    {
      AddVotes(a, trees[u], k, vote);
      forall r, j | 0 <= r < a.Length0 && 0 <= j < k
        ensures Votes(trees, vote, k, u + 1, r, j) == Votes(trees, vote, k, u, r, j) + VoteOf(trees[u], vote, k, r, j)
      {
        assert TreeAt(trees, u) == trees[u];
      }
      u := u + 1;
    }
  }

  /** Adds every tree's density matrix into the table, tree by tree. */
  method AddAllDensities(a: array2<real>, trees: seq<Matrix>, k: nat)
    requires a.Length1 == k && TreesFit(trees, a.Length0, k)
    modifies a
    ensures forall r, j :: 0 <= r < a.Length0 && 0 <= j < k ==>
              a[r, j] == old(a[r, j]) + DensitySum(trees, |trees|, r, j)
  {
    var u := 0;
    while u < |trees|
      invariant 0 <= u <= |trees|
      invariant forall r, j :: 0 <= r < a.Length0 && 0 <= j < k ==>
                  a[r, j] == old(a[r, j]) + DensitySum(trees, u, r, j)
    {
      AddDensities(a, trees[u], k);
      assert TreeAt(trees, u) == trees[u];
      u := u + 1;
    }
  }
}
