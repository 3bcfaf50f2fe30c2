/**
 * The two triangular solves of the LU solver, working on the packed factors: forward
 * substitution with the unit lower factor (the entries of LU below the diagonal) and back
 * substitution with the upper factor (the entries on and above it).  Only the first n rows of the
 * right-hand side take part; the rows below are carried through unchanged.
 */
module Substitution {
  import opened Sums
  import opened Matrices

  // ---------------------------------------------------------------------------------------------
  // Forward substitution: L * Y = B(piv, :)
  // ---------------------------------------------------------------------------------------------

  /**
   * How many terms of row r's dot product have been subtracted from entry (r, c) after the
   * updates of stage k up to row i, column jj.
   */
  function FwdDepth(r: int, c: int, k: nat, i: int, jj: int): nat
  {
    if k < r < i || (r == i && c < jj) then k + 1
    else if r < k then (if r < 0 then 0 else r)
    else k
  }

  /** Invariant of the forward solve. */
  ghost predicate ForwardInv(lu: Matrix, bp: Matrix, x: Matrix, n: nat, nx: nat, k: nat, i: int, jj: int)
  {
    forall r, c :: 0 <= r < n && 0 <= c < nx ==>
      At(x, r, c) == At(bp, r, c) - InnerSum(lu, x, r, c, FwdDepth(r, c, k, i, jj))
  }

  /** The forward invariant only depends on the depth of each entry. */
  lemma ForwardRelabel(lu: Matrix, bp: Matrix, x: Matrix, n: nat, nx: nat,
                       k: nat, i: int, jj: int, k2: nat, i2: int, jj2: int)
    requires ForwardInv(lu, bp, x, n, nx, k, i, jj)
    requires forall r, c :: 0 <= r < n && 0 <= c < nx ==> FwdDepth(r, c, k, i, jj) == FwdDepth(r, c, k2, i2, jj2)
    ensures ForwardInv(lu, bp, x, n, nx, k2, i2, jj2)
  {
  }

  /** One update X[i][jj] -= X[k][jj] * LU[i][k] of the forward solve, seen from entry (r, c). */
  lemma ForwardEntry(lu: Matrix, bp: Matrix, x: Matrix, m: nat, n: nat, nx: nat,
                     k: nat, i: nat, jj: nat, r: nat, c: nat)
    requires IsMatrix(lu, m, n) && IsMatrix(x, m, nx) && n <= m
    requires k < i < n && jj < nx && r < n && c < nx
    requires At(x, r, c) == At(bp, r, c) - InnerSum(lu, x, r, c, FwdDepth(r, c, k, i, jj))
    ensures var x2 := Set(x, i, jj, x[i][jj] - x[k][jj] * lu[i][k]);
      At(x2, r, c) == At(bp, r, c) - InnerSum(lu, x2, r, c, FwdDepth(r, c, k, i, jj + 1))
  {
    var x2 := Set(x, i, jj, x[i][jj] - x[k][jj] * lu[i][k]);
    var d := FwdDepth(r, c, k, i, jj + 1);
    assert d <= k + 1;
    InnerSumFrame(lu, x2, r, lu, x, r, c, d);
    if r == i && c == jj {
      assert FwdDepth(r, c, k, i, jj) == k;
      assert InnerSum(lu, x, i, jj, k + 1) == InnerSum(lu, x, i, jj, k) + At(lu, i, k) * At(x, k, jj);
    } else {
      assert FwdDepth(r, c, k, i, jj) == d;
    }
  }

  /** One update X[i][jj] -= X[k][jj] * LU[i][k] of the forward solve. */
  lemma ForwardStep(lu: Matrix, bp: Matrix, x: Matrix, m: nat, n: nat, nx: nat, k: nat, i: nat, jj: nat)
    requires IsMatrix(lu, m, n) && IsMatrix(x, m, nx) && n <= m
    requires k < i < n && jj < nx
    requires ForwardInv(lu, bp, x, n, nx, k, i, jj)
    ensures ForwardInv(lu, bp, Set(x, i, jj, x[i][jj] - x[k][jj] * lu[i][k]), n, nx, k, i, jj + 1)
  {
    forall r: nat, c: nat | r < n && c < nx
      ensures var x2 := Set(x, i, jj, x[i][jj] - x[k][jj] * lu[i][k]);
        At(x2, r, c) == At(bp, r, c) - InnerSum(lu, x2, r, c, FwdDepth(r, c, k, i, jj + 1))
    {
      ForwardEntry(lu, bp, x, m, n, nx, k, i, jj, r, c);
    }
  }

  /** Row i of stage k of the forward solve: X[i][.] -= X[k][.] * LU[i][k]. */
  method ForwardRow(lu: Matrix, bp: Matrix, x0: Matrix, m: nat, n: nat, nx: nat, k: nat, i: nat) returns (x: Matrix)
    requires IsMatrix(lu, m, n) && IsMatrix(bp, m, nx) && IsMatrix(x0, m, nx) && n <= m && k < i < n
    requires forall r :: n <= r < m ==> x0[r] == bp[r]
    requires ForwardInv(lu, bp, x0, n, nx, k, i, 0)
    ensures IsMatrix(x, m, nx) && forall r :: n <= r < m ==> x[r] == bp[r]
    ensures ForwardInv(lu, bp, x, n, nx, k, i + 1, 0)
  {
    x := x0;
    var j := 0;
    while j < nx
      invariant 0 <= j <= nx
      invariant IsMatrix(x, m, nx) && forall r :: n <= r < m ==> x[r] == bp[r]
      invariant ForwardInv(lu, bp, x, n, nx, k, i, j)
    {
      ForwardStep(lu, bp, x, m, n, nx, k, i, j);
      x := Set(x, i, j, x[i][j] - x[k][j] * lu[i][k]);
      j := j + 1;
    }
    ForwardRelabel(lu, bp, x, n, nx, k, i, nx, k, i + 1, 0);
  }

  /** Stage k of the forward solve: eliminates X[k][.] from every row below k. */
  method ForwardStage(lu: Matrix, bp: Matrix, x0: Matrix, m: nat, n: nat, nx: nat, k: nat) returns (x: Matrix)
    requires IsMatrix(lu, m, n) && IsMatrix(bp, m, nx) && IsMatrix(x0, m, nx) && n <= m && k < n
    requires forall r :: n <= r < m ==> x0[r] == bp[r]
    requires ForwardInv(lu, bp, x0, n, nx, k, k + 1, 0)
    ensures IsMatrix(x, m, nx) && forall r :: n <= r < m ==> x[r] == bp[r]
    ensures ForwardInv(lu, bp, x, n, nx, k + 1, k + 2, 0)
  {
    x := x0;
    var i := k + 1;
    while i < n
      invariant k + 1 <= i <= n
      invariant IsMatrix(x, m, nx) && forall r :: n <= r < m ==> x[r] == bp[r]
      invariant ForwardInv(lu, bp, x, n, nx, k, i, 0)
    {
      x := ForwardRow(lu, bp, x, m, n, nx, k, i);
      i := i + 1;
    }
    ForwardRelabel(lu, bp, x, n, nx, k, i, 0, k + 1, k + 2, 0);
  }

  /**
   * Forward substitution: for each k and each row i below it, subtracts X[k][.] * LU[i][k]
   * from row i.  Row r of the result then satisfies Y[r] = B'[r] - sum_{t<r} LU[r][t] * Y[t].
   */
  method ForwardSubstitute(lu: Matrix, bp: Matrix, m: nat, n: nat, nx: nat) returns (x: Matrix)
    requires IsMatrix(lu, m, n) && IsMatrix(bp, m, nx) && n <= m
    ensures IsMatrix(x, m, nx)
    ensures forall r :: n <= r < m ==> x[r] == bp[r]
    ensures forall r, c :: 0 <= r < n && 0 <= c < nx ==> x[r][c] == bp[r][c] - InnerSum(lu, x, r, c, r)
  {
    x := bp;
    var k := 0;
    while k < n
      invariant 0 <= k <= n
      invariant IsMatrix(x, m, nx) && forall r :: n <= r < m ==> x[r] == bp[r]
      invariant ForwardInv(lu, bp, x, n, nx, k, k + 1, 0)
    {
      x := ForwardStage(lu, bp, x, m, n, nx, k);
      k := k + 1;
    }
    ForwardRelabel(lu, bp, x, n, nx, k, k + 1, 0, n, n + 1, 0);
    forall r, c | 0 <= r < n && 0 <= c < nx
      ensures x[r][c] == bp[r][c] - InnerSum(lu, x, r, c, r)
    {
      assert FwdDepth(r, c, n, n + 1, 0) == r;
      assert At(x, r, c) == x[r][c] && At(bp, r, c) == bp[r][c];
    }
  }

  // ---------------------------------------------------------------------------------------------
  // Back substitution: U * X = Y
  // ---------------------------------------------------------------------------------------------

  /** LU[r][lo] * X[lo][c] + ... + LU[r][n-1] * X[n-1][c]. */
  function RowTail(lu: Matrix, x: Matrix, r: int, c: int, lo: nat, n: nat): real
  {
    SumRange(lo, n, t => At(lu, r, t) * At(x, t, c))
  }

  /** Row r of U * X equals row r of Y at column c. */
  predicate Finished(lu: Matrix, y: Matrix, x: Matrix, n: nat, r: nat, c: int)
  {
    At(lu, r, r) * At(x, r, c) + RowTail(lu, x, r, c, r + 1, n) == At(y, r, c)
  }

  /** Entry (r, c) still holds Y[r][c] minus the terms of its dot product from column lo on. */
  predicate Pending(lu: Matrix, y: Matrix, x: Matrix, n: nat, r: int, c: int, lo: nat)
  {
    At(x, r, c) == At(y, r, c) - RowTail(lu, x, r, c, lo, n)
  }

  /** Entry (r, c) has not yet been reduced by column k. */
  predicate PendingAfter(lu: Matrix, y: Matrix, x: Matrix, n: nat, r: int, c: int, k: nat)
  {
    Pending(lu, y, x, n, r, c, k + 1)
  }

  /** Invariant while row k is divided by its pivot, up to column jj. */
  ghost predicate DivideInv(lu: Matrix, y: Matrix, x: Matrix, n: nat, nx: nat, k: nat, jj: nat)
  {
    && (forall r: nat, c :: k < r < n && 0 <= c < nx ==> Finished(lu, y, x, n, r, c))
    && (forall c :: 0 <= c < jj && c < nx ==> Finished(lu, y, x, n, k, c))
    && (forall c :: jj <= c < nx ==> PendingAfter(lu, y, x, n, k, c, k))
    && (forall r, c :: 0 <= r < k && 0 <= c < nx ==> PendingAfter(lu, y, x, n, r, c, k))
  }

  /** Invariant while column k is eliminated from the rows above it, up to row i, column jj. */
  ghost predicate ElimInv(lu: Matrix, y: Matrix, x: Matrix, n: nat, nx: nat, k: nat, i: nat, jj: nat)
  {
    && (forall r: nat, c :: k <= r < n && 0 <= c < nx ==> Finished(lu, y, x, n, r, c))
    && (forall r, c :: 0 <= r < i && 0 <= c < nx ==> Pending(lu, y, x, n, r, c, k))
    && (i < k ==> forall c :: 0 <= c < jj && c < nx ==> Pending(lu, y, x, n, i, c, k))
    && (i < k ==> forall c :: jj <= c < nx ==> PendingAfter(lu, y, x, n, i, c, k))
    && (forall r, c :: i < r < k && 0 <= c < nx ==> PendingAfter(lu, y, x, n, r, c, k))
  }

  /** Writing a row above lo leaves the tail from lo on alone. */
  lemma RowTailSet(lu: Matrix, x: Matrix, i0: nat, j0: nat, v: real, r: int, c: int, lo: nat, n: nat)
    requires i0 < |x| && j0 < |x[i0]| && i0 < lo
    ensures RowTail(lu, Set(x, i0, j0, v), r, c, lo, n) == RowTail(lu, x, r, c, lo, n)
  {
    var x2 := Set(x, i0, j0, v);
    SumRangeExt(lo, n, t => At(lu, r, t) * At(x2, t, c), t => At(lu, r, t) * At(x, t, c));
  }

  /** A finished entry at or below the written row, other than the written entry, stays finished. */
  lemma FinishedFrame(lu: Matrix, y: Matrix, x: Matrix, n: nat, i0: nat, j0: nat, v: real, r: nat, c: int)
    requires i0 < |x| && j0 < |x[i0]| && i0 <= r && (r != i0 || c != j0)
    ensures Finished(lu, y, Set(x, i0, j0, v), n, r, c) == Finished(lu, y, x, n, r, c)
  {
    RowTailSet(lu, x, i0, j0, v, r, c, r + 1, n);
  }

  /** A pending entry whose tail starts below the written row, other than the written entry, stays pending. */
  lemma PendingFrame(lu: Matrix, y: Matrix, x: Matrix, n: nat, i0: nat, j0: nat, v: real, r: int, c: int, lo: nat)
    requires i0 < |x| && j0 < |x[i0]| && i0 < lo && (r != i0 || c != j0)
    ensures Pending(lu, y, Set(x, i0, j0, v), n, r, c, lo) == Pending(lu, y, x, n, r, c, lo)
  {
    RowTailSet(lu, x, i0, j0, v, r, c, lo, n);
  }

  /** One division X[k][jj] /= LU[k][k] of the back solve. */
  lemma DivideStep(lu: Matrix, y: Matrix, x: Matrix, m: nat, n: nat, nx: nat, k: nat, jj: nat)
    requires IsMatrix(lu, m, n) && IsMatrix(x, m, nx) && n <= m
    requires k < n && jj < nx && lu[k][k] != 0.0
    requires DivideInv(lu, y, x, n, nx, k, jj)
    ensures DivideInv(lu, y, Set(x, k, jj, x[k][jj] / lu[k][k]), n, nx, k, jj + 1)
  {
    var d := lu[k][k];
    var v := x[k][jj] / d;
    var x2 := Set(x, k, jj, v);
    forall r: nat, c | k < r < n && 0 <= c < nx
      ensures Finished(lu, y, x2, n, r, c)
    {
      FinishedFrame(lu, y, x, n, k, jj, v, r, c);
    }
    forall c | 0 <= c < jj + 1 && c < nx
      ensures Finished(lu, y, x2, n, k, c)
    {
      if c == jj {
        RowTailSet(lu, x, k, jj, v, k, c, k + 1, n);
        assert PendingAfter(lu, y, x, n, k, c, k);
        assert d * v == x[k][jj];
      } else {
        FinishedFrame(lu, y, x, n, k, jj, v, k, c);
      }
    }
    forall c | jj + 1 <= c < nx
      ensures PendingAfter(lu, y, x2, n, k, c, k)
    {
      assert PendingAfter(lu, y, x, n, k, c, k);
      PendingFrame(lu, y, x, n, k, jj, v, k, c, k + 1);
    }
    forall r, c | 0 <= r < k && 0 <= c < nx
      ensures PendingAfter(lu, y, x2, n, r, c, k)
    {
      assert PendingAfter(lu, y, x, n, r, c, k);
      PendingFrame(lu, y, x, n, k, jj, v, r, c, k + 1);
    }
  }

  /** One update X[i][jj] -= X[k][jj] * LU[i][k] of the back solve, for a row i above k. */
  lemma ElimStep(lu: Matrix, y: Matrix, x: Matrix, m: nat, n: nat, nx: nat, k: nat, i: nat, jj: nat)
    requires IsMatrix(lu, m, n) && IsMatrix(x, m, nx) && n <= m
    requires i < k < n && jj < nx
    requires ElimInv(lu, y, x, n, nx, k, i, jj)
    ensures ElimInv(lu, y, Set(x, i, jj, x[i][jj] - x[k][jj] * lu[i][k]), n, nx, k, i, jj + 1)
  {
    var v := x[i][jj] - x[k][jj] * lu[i][k];
    var x2 := Set(x, i, jj, v);
    forall r: nat, c | k <= r < n && 0 <= c < nx
      ensures Finished(lu, y, x2, n, r, c)
    {
      FinishedFrame(lu, y, x, n, i, jj, v, r, c);
    }
    forall r, c | 0 <= r < i && 0 <= c < nx
      ensures Pending(lu, y, x2, n, r, c, k)
    {
      PendingFrame(lu, y, x, n, i, jj, v, r, c, k);
    }
    forall c | 0 <= c < jj + 1 && c < nx
      ensures Pending(lu, y, x2, n, i, c, k)
    {
      if c == jj {
        RowTailSet(lu, x, i, jj, v, i, c, k, n);
        assert PendingAfter(lu, y, x, n, i, c, k);
        assert RowTail(lu, x, i, jj, k, n) == At(lu, i, k) * At(x, k, jj) + RowTail(lu, x, i, jj, k + 1, n);
      } else {
        PendingFrame(lu, y, x, n, i, jj, v, i, c, k);
      }
    }
    forall c | jj + 1 <= c < nx
      ensures PendingAfter(lu, y, x2, n, i, c, k)
    {
      assert PendingAfter(lu, y, x, n, i, c, k);
      PendingFrame(lu, y, x, n, i, jj, v, i, c, k + 1);
    }
    forall r, c | i < r < k && 0 <= c < nx
      ensures PendingAfter(lu, y, x2, n, r, c, k)
    {
      assert PendingAfter(lu, y, x, n, r, c, k);
      PendingFrame(lu, y, x, n, i, jj, v, r, c, k + 1);
    }
  }

  /**
   * Back substitution: for k = n-1 down to 0, divides row k by LU[k][k] and subtracts
   * X[k][.] * LU[i][k] from each row i above it.  Row r of the result then satisfies
   * LU[r][r] * X[r] + sum_{t>r} LU[r][t] * X[t] = Y[r].
   */
  method BackSubstitute(lu: Matrix, y: Matrix, m: nat, n: nat, nx: nat) returns (x: Matrix)
    requires IsMatrix(lu, m, n) && IsMatrix(y, m, nx) && n <= m
    requires forall r :: 0 <= r < n ==> lu[r][r] != 0.0
    ensures IsMatrix(x, m, nx)
    ensures forall r :: n <= r < m ==> x[r] == y[r]
    ensures forall r: nat, c :: r < n && 0 <= c < nx ==> Finished(lu, y, x, n, r, c)
  {
    x := y;
    var k: int := n - 1;
    while k >= 0
      invariant -1 <= k < n
      invariant IsMatrix(x, m, nx) && forall r :: n <= r < m ==> x[r] == y[r]
      invariant ElimInv(lu, y, x, n, nx, k + 1, k + 1, 0)
    {
      assert DivideInv(lu, y, x, n, nx, k, 0);
      var j := 0;
      while j < nx
        invariant 0 <= j <= nx
        invariant IsMatrix(x, m, nx) && forall r :: n <= r < m ==> x[r] == y[r]
        invariant DivideInv(lu, y, x, n, nx, k, j)
      {
        DivideStep(lu, y, x, m, n, nx, k, j);
        x := Set(x, k, j, x[k][j] / lu[k][k]);
        j := j + 1;
      }
      assert ElimInv(lu, y, x, n, nx, k, 0, 0);
      var i := 0;
      while i < k
        invariant 0 <= i <= k
        invariant IsMatrix(x, m, nx) && forall r :: n <= r < m ==> x[r] == y[r]
        invariant ElimInv(lu, y, x, n, nx, k, i, 0)
      {
        j := 0;
        while j < nx
          invariant 0 <= j <= nx
          invariant IsMatrix(x, m, nx) && forall r :: n <= r < m ==> x[r] == y[r]
          invariant ElimInv(lu, y, x, n, nx, k, i, j)
        {
          ElimStep(lu, y, x, m, n, nx, k, i, j);
          x := Set(x, i, j, x[i][j] - x[k][j] * lu[i][k]);
          j := j + 1;
        }
        assert ElimInv(lu, y, x, n, nx, k, i + 1, 0);
        i := i + 1;
      }
      k := k - 1;
    }
  }
}
