/**
 * LU decomposition with partial pivoting, computed by the "left-looking", dot-product
 * Crout/Doolittle algorithm.  For an m-by-n matrix A with m >= n it produces a packed matrix LU
 * holding a unit lower triangular L (below the diagonal) and an upper triangular U (on and above
 * it), and a pivot vector piv, such that A(piv, :) = L * U.
 */
module LU {
  import opened Wrappers
  import opened Sums
  import opened Matrices
  import opened Substitution

  /** The exceptions `det` and `solve` throw. */
  datatype LUError = NotSquare | RowMismatch | Singular

  function Abs(x: real): real
  {
    if x < 0.0 then -x else x
  }

  function Min(a: int, b: int): int
  {
    if a < b then a else b
  }

  // ---------------------------------------------------------------------------------------------
  // Pivot vectors
  // ---------------------------------------------------------------------------------------------

  /** 0, 1, ..., m-1: the pivot vector before any exchange. */
  function Identity(m: nat): (r: seq<nat>)
    ensures |r| == m && forall i :: 0 <= i < m ==> r[i] == i
  {
    if m == 0 then [] else Identity(m - 1) + [m - 1]
  }

  /** `piv` lists each of 0..m-1 exactly once. */
  predicate IsPermutation(piv: seq<nat>, m: nat)
  {
    multiset(piv) == multiset(Identity(m))
  }

  /** `s` with its entries at i and j exchanged. */
  function SwapEntries(s: seq<nat>, i: nat, j: nat): seq<nat>
    requires i < |s| && j < |s|
  {
    s[i := s[j]][j := s[i]]
  }

  predicate ValidSwaps(swaps: seq<(nat, nat)>, m: nat)
  {
    forall k :: 0 <= k < |swaps| ==> swaps[k].0 < m && swaps[k].1 < m
  }

  /** The result of applying the exchanges `swaps`, in order, to `s`. */
  function ApplySwaps(s: seq<nat>, swaps: seq<(nat, nat)>): (r: seq<nat>)
    requires ValidSwaps(swaps, |s|)
    ensures |r| == |s|
  {
    if swaps == [] then s
    else
      var last := swaps[|swaps| - 1];
      SwapEntries(ApplySwaps(s, swaps[..|swaps| - 1]), last.0, last.1)
  }

  /** (-1)^k. */
  function Parity(k: nat): int
  {
    if k % 2 == 0 then 1 else -1
  }

  lemma {:induction false} IdentityCount(m: nat, v: nat)
    ensures multiset(Identity(m))[v] == if v < m then 1 else 0
  {
    if m > 0 {
      var prev := Identity(m - 1);
      IdentityCount(m - 1, v);
      var last: seq<nat> := [m - 1];
      assert Identity(m) == prev + last;
      assert multiset(prev + last) == multiset(prev) + multiset(last);
      assert multiset(last)[v] == if v == m - 1 then 1 else 0;
    }
  }

  /** A permutation of 0..m-1 has m entries, all below m, covers every index, and repeats none. */
  lemma PermutationFacts(piv: seq<nat>, m: nat)
    requires IsPermutation(piv, m)
    ensures |piv| == m
    ensures forall i :: 0 <= i < |piv| ==> piv[i] < m
    ensures forall v :: 0 <= v < m ==> v in piv
    ensures forall i, k :: 0 <= i < k < |piv| ==> piv[i] != piv[k]
  {
    assert |multiset(piv)| == |multiset(Identity(m))|;
    forall i | 0 <= i < |piv|
      ensures piv[i] < m
    {
      assert piv[i] in multiset(piv);
      IdentityCount(m, piv[i]);
    }
    forall v | 0 <= v < m
      ensures v in piv
    {
      IdentityCount(m, v);
      assert v in multiset(piv);
    }
    forall i, k | 0 <= i < k < |piv|
      ensures piv[i] != piv[k]
    {
      if piv[i] == piv[k] {
        var v := piv[i];
        assert piv == piv[..i] + [v] + piv[i + 1..k] + [v] + piv[k + 1..];
        assert multiset(piv)[v] >= 2;
        IdentityCount(m, v);
        assert false;
      }
    }
  }

  /** Exchanging two entries keeps a permutation a permutation. */
  lemma SwapKeepsPermutation(piv: seq<nat>, m: nat, i: nat, j: nat)
    requires IsPermutation(piv, m) && i < |piv| && j < |piv|
    ensures IsPermutation(SwapEntries(piv, i, j), m)
  {
    var s1 := piv[i := piv[j]];
    assert multiset(s1) == multiset(piv) - multiset{piv[i]} + multiset{piv[j]};
    assert multiset(s1[j := piv[i]]) == multiset(s1) - multiset{s1[j]} + multiset{piv[i]};
  }

  // ---------------------------------------------------------------------------------------------
  // The packed factors
  // ---------------------------------------------------------------------------------------------

  /** The unit lower triangular factor, m-by-n: LU below the diagonal, 1 on it, 0 above. */
  function LFactor(lu: Matrix, m: nat, n: nat): (l: Matrix)
    ensures IsMatrix(l, m, n)
  {
    seq(m, i => seq(n, j => if i > j then At(lu, i, j) else if i == j then 1.0 else 0.0))
  }

  /** The upper triangular factor, n-by-n: LU on and above the diagonal, 0 below. */
  function UFactor(lu: Matrix, n: nat): (u: Matrix)
    ensures IsMatrix(u, n, n)
  {
    seq(n, i => seq(n, j => if i <= j then At(lu, i, j) else 0.0))
  }

  /** Entry (i, c) of L * U, read off the packed matrix. */
  function Recon(lu: Matrix, i: int, c: int): real
  {
    InnerSum(lu, lu, i, c, if Min(i, c) < 0 then 0 else Min(i, c))
      + (if i <= c then At(lu, i, c) else At(lu, i, c) * At(lu, c, c))
  }

  /** No diagonal entry of U is zero. */
  predicate Nonsingular(lu: Matrix, n: nat)
  {
    forall j :: 0 <= j < n ==> At(lu, j, j) != 0.0
  }

  /** LU[0][0] * ... * LU[k-1][k-1]. */
  function DiagProduct(lu: Matrix, k: nat): real
  {
    if k == 0 then 1.0 else DiagProduct(lu, k - 1) * At(lu, k - 1, k - 1)
  }

  /** Entry (i, t) of L, read off the packed matrix. */
  lemma LEntry(lu: Matrix, m: nat, n: nat, i: int, t: int)
    requires 0 <= i < m && 0 <= t < n
    ensures At(LFactor(lu, m, n), i, t) == if t < i then At(lu, i, t) else if t == i then 1.0 else 0.0
  {
  }

  /** Entry (r, t) of U, read off the packed matrix. */
  lemma UEntry(lu: Matrix, n: nat, r: int, t: int)
    requires 0 <= r < n
    ensures At(UFactor(lu, n), r, t) == if r <= t < n then At(lu, r, t) else 0.0
  {
  }

  /** An inner sum whose terms vanish past k is the sum of its first k terms plus term k. */
  lemma {:induction false} InnerSumUpTo(l: Matrix, u: Matrix, i: int, c: int, n: nat, k: nat)
    requires k < n
    requires forall t :: k < t < n ==> At(l, i, t) * At(u, t, c) == 0.0
    ensures InnerSum(l, u, i, c, n) == InnerSum(l, u, i, c, k) + At(l, i, k) * At(u, k, c)
  {
    var g := t => At(l, i, t) * At(u, t, c);
    SumZeroTail(k + 1, n, g);
  }

  /** Row i of a unit lower and column c of an upper factor, given entry by entry, multiply to Recon. */
  lemma ReconOfFactors(lu: Matrix, l: Matrix, u: Matrix, n: nat, i: nat, c: nat)
    requires c < n
    requires forall t :: 0 <= t < n ==> At(l, i, t) == if t < i then At(lu, i, t) else if t == i then 1.0 else 0.0
    requires forall t :: 0 <= t < n ==> At(u, t, c) == if t <= c then At(lu, t, c) else 0.0
    ensures InnerSum(l, u, i, c, n) == Recon(lu, i, c)
  {
    var k := Min(i, c);
    forall t | k < t < n
      ensures At(l, i, t) * At(u, t, c) == 0.0
    {
      if i <= c {
        assert At(l, i, t) == 0.0;
      } else {
        assert At(u, t, c) == 0.0;
      }
    }
    InnerSumUpTo(l, u, i, c, n, k);
    InnerSumFrame(l, u, i, lu, lu, i, c, k);
    if i <= c {
      assert At(l, i, k) == 1.0 && At(u, k, c) == At(lu, i, c);
    } else {
      assert At(l, i, k) == At(lu, i, c) && At(u, k, c) == At(lu, c, c);
    }
  }

  /** The packed entries reproduce L * U. */
  lemma ReconIsProduct(lu: Matrix, m: nat, n: nat, i: nat, c: nat)
    requires i < m && c < n
    ensures InnerSum(LFactor(lu, m, n), UFactor(lu, n), i, c, n) == Recon(lu, i, c)
  {
    var l, u := LFactor(lu, m, n), UFactor(lu, n);
    forall t | 0 <= t < n
      ensures At(l, i, t) == if t < i then At(lu, i, t) else if t == i then 1.0 else 0.0
      ensures At(u, t, c) == if t <= c then At(lu, t, c) else 0.0
    {
      LEntry(lu, m, n, i, t);
      UEntry(lu, n, t, c);
    }
    ReconOfFactors(lu, l, u, n, i, c);
  }

  /** Main theorem: once every entry is reconstructed, A(piv, :) = L * U. */
  lemma LUTheorem(a: Matrix, lu: Matrix, piv: seq<nat>, m: nat, n: nat)
    requires IsMatrix(a, m, n) && |piv| == m && forall i :: 0 <= i < m ==> piv[i] < m
    requires forall i, c :: 0 <= i < m && 0 <= c < n ==> At(a, piv[i], c) == Recon(lu, i, c)
    ensures Mul(LFactor(lu, m, n), UFactor(lu, n), m, n, n) == RowPermute(a, piv)
  {
    var lhs, rhs := Mul(LFactor(lu, m, n), UFactor(lu, n), m, n, n), RowPermute(a, piv);
    forall i, c | 0 <= i < m && 0 <= c < n
      ensures lhs[i][c] == rhs[i][c]
    {
      ReconIsProduct(lu, m, n, i, c);
    }
    MatrixExt(lhs, rhs, m, n);
  }

  /** The determinant's product vanishes exactly when some pivot is zero. */
  lemma {:induction false} DiagProductZero(lu: Matrix, k: nat)
    ensures DiagProduct(lu, k) == 0.0 <==> !Nonsingular(lu, k)
  {
    if k > 0 {
      DiagProductZero(lu, k - 1);
      var d, x := DiagProduct(lu, k - 1), At(lu, k - 1, k - 1);
      assert d * x == 0.0 <==> d == 0.0 || x == 0.0;
      assert Nonsingular(lu, k) <==> Nonsingular(lu, k - 1) && x != 0.0;
    }
  }

  // ---------------------------------------------------------------------------------------------
  // Frame lemmas for the elimination
  // ---------------------------------------------------------------------------------------------

  /** Writing (i0, j0) leaves an inner sum alone when the sum reads neither that entry. */
  lemma InnerSumSet(lu: Matrix, i0: nat, j0: nat, v: real, r: int, c: int, k: nat)
    requires i0 < |lu| && j0 < |lu[i0]|
    requires !(r == i0 && j0 < k) && !(c == j0 && i0 < k)
    ensures InnerSum(Set(lu, i0, j0, v), Set(lu, i0, j0, v), r, c, k) == InnerSum(lu, lu, r, c, k)
  {
    var lu2 := Set(lu, i0, j0, v);
    InnerSumFrame(lu2, lu2, r, lu, lu, r, c, k);
  }

  /** `lu2` is `lu` with rows p and j exchanged. */
  predicate RowsExchanged(lu: Matrix, lu2: Matrix, p: nat, j: nat)
  {
    |lu2| == |lu| && p < |lu| && j < |lu| && lu2[p] == lu[j] && lu2[j] == lu[p]
    && forall i :: 0 <= i < |lu| && i != p && i != j ==> lu2[i] == lu[i]
  }

  /** The row of `lu` that row r of the exchanged matrix came from. */
  function Transposed(p: nat, j: nat, r: nat): nat
  {
    if r == p then j else if r == j then p else r
  }

  /** A row exchange below row c carries the reconstruction of column c along with the rows. */
  lemma ReconExchange(lu: Matrix, lu2: Matrix, p: nat, j: nat, r: nat, c: nat)
    requires RowsExchanged(lu, lu2, p, j) && c < j <= p
    ensures Recon(lu2, r, c) == Recon(lu, Transposed(p, j, r), c)
  {
    var r2 := Transposed(p, j, r);
    var k := Min(r, c);
    assert Min(r2, c) == k;
    forall t | 0 <= t < k
      ensures At(lu2, r, t) == At(lu, r2, t) && At(lu2, t, c) == At(lu, t, c)
    {
    }
    InnerSumFrame(lu2, lu2, r, lu, lu, r2, c, k);
  }

  /** The same for the partially reduced column j, whose sums stop at min(r, j). */
  lemma ReducedExchange(lu: Matrix, lu2: Matrix, p: nat, j: nat, r: nat)
    requires RowsExchanged(lu, lu2, p, j) && j <= p
    ensures InnerSum(lu2, lu2, r, j, Min(r, j)) == InnerSum(lu, lu, Transposed(p, j, r), j, Min(Transposed(p, j, r), j))
  {
    var r2 := Transposed(p, j, r);
    var k := Min(r, j);
    assert Min(r2, j) == k;
    InnerSumFrame(lu2, lu2, r, lu, lu, r2, j, k);
  }

  // ---------------------------------------------------------------------------------------------
  // Loop invariants of the elimination
  // ---------------------------------------------------------------------------------------------

  /** Columns before j are finished: each entry of A(piv, :) is reconstructed. */
  ghost predicate DoneCols(a: Matrix, lu: Matrix, piv: seq<nat>, m: nat, j: nat)
    requires |piv| == m
  {
    forall i, c :: 0 <= i < m && 0 <= c < j ==> At(a, piv[i], c) == Recon(lu, i, c)
  }

  /** Columns lo.. still hold the (row-permuted) input. */
  ghost predicate PendingCols(a: Matrix, lu: Matrix, piv: seq<nat>, m: nat, lo: nat, n: nat)
    requires |piv| == m
  {
    forall i, c :: 0 <= i < m && lo <= c < n ==> At(lu, i, c) == At(a, piv[i], c)
  }

  /** Partial pivoting keeps every multiplier of the finished columns within [-1, 1]. */
  ghost predicate BoundedMultipliers(lu: Matrix, m: nat, j: nat)
  {
    forall i, c :: 0 <= c < i < m && c < j ==> Abs(At(lu, i, c)) <= 1.0
  }

  /** Every row of column j has had the previous transformations applied. */
  ghost predicate ReducedRows(a: Matrix, lu: Matrix, piv: seq<nat>, m: nat, j: nat)
    requires |piv| == m
  {
    forall r :: 0 <= r < m ==> At(lu, r, j) + InnerSum(lu, lu, r, j, Min(r, j)) == At(a, piv[r], j)
  }

  /** `lu2` differs from `lu` at most in column j. */
  predicate SameOutsideColumn(lu: Matrix, lu2: Matrix, m: nat, n: nat, j: nat)
  {
    IsMatrix(lu, m, n) && IsMatrix(lu2, m, n)
    && forall r, c :: 0 <= r < m && 0 <= c < n && c != j ==> lu2[r][c] == lu[r][c]
  }

  /** Changing only column j preserves what the outer loop knows about the other columns. */
  lemma ColumnKeeps(a: Matrix, lu: Matrix, lu2: Matrix, piv: seq<nat>, m: nat, n: nat, j: nat)
    requires SameOutsideColumn(lu, lu2, m, n, j) && |piv| == m && j < n
    requires DoneCols(a, lu, piv, m, j) && PendingCols(a, lu, piv, m, j + 1, n)
    requires BoundedMultipliers(lu, m, j)
    ensures DoneCols(a, lu2, piv, m, j) && PendingCols(a, lu2, piv, m, j + 1, n)
    ensures BoundedMultipliers(lu2, m, j)
  {
    assert forall r, c :: c != j ==> At(lu2, r, c) == At(lu, r, c);
    forall i, c | 0 <= i < m && 0 <= c < j
      ensures At(a, piv[i], c) == Recon(lu2, i, c)
    {
      InnerSumFrame(lu2, lu2, i, lu, lu, i, c, Min(i, c));
    }
  }

  /** The exchanged pivot vector lists the rows in the exchanged order. */
  lemma SwapTransposes(piv: seq<nat>, m: nat, p: nat, j: nat)
    requires |piv| == m && p < m && j < m
    ensures forall r :: 0 <= r < m ==> SwapEntries(piv, p, j)[r] == piv[Transposed(p, j, r)]
  {
  }

  /** The exchange keeps the finished columns reconstructed. */
  lemma ExchangeDone(a: Matrix, lu: Matrix, lu2: Matrix, piv: seq<nat>, m: nat, j: nat, p: nat)
    requires |lu| == m && |piv| == m && j <= p < m && RowsExchanged(lu, lu2, p, j)
    requires DoneCols(a, lu, piv, m, j)
    ensures DoneCols(a, lu2, SwapEntries(piv, p, j), m, j)
  {
    var piv2 := SwapEntries(piv, p, j);
    SwapTransposes(piv, m, p, j);
    forall i, c | 0 <= i < m && 0 <= c < j
      ensures At(a, piv2[i], c) == Recon(lu2, i, c)
    {
      ReconExchange(lu, lu2, p, j, i, c);
    }
  }

  /** The exchange keeps the pending columns equal to the permuted input. */
  lemma ExchangePending(a: Matrix, lu: Matrix, lu2: Matrix, piv: seq<nat>, m: nat, n: nat, j: nat, p: nat)
    requires |lu| == m && |piv| == m && j <= p < m && RowsExchanged(lu, lu2, p, j)
    requires PendingCols(a, lu, piv, m, j + 1, n)
    ensures PendingCols(a, lu2, SwapEntries(piv, p, j), m, j + 1, n)
  {
    var piv2 := SwapEntries(piv, p, j);
    SwapTransposes(piv, m, p, j);
    forall i, c | 0 <= i < m && j + 1 <= c < n
      ensures At(lu2, i, c) == At(a, piv2[i], c)
    {
      assert lu2[i] == lu[Transposed(p, j, i)];
    }
  }

  /** The exchange keeps column j reduced, row by row. */
  lemma ExchangeReduced(a: Matrix, lu: Matrix, lu2: Matrix, piv: seq<nat>, m: nat, j: nat, p: nat)
    requires |lu| == m && |piv| == m && j <= p < m && RowsExchanged(lu, lu2, p, j)
    requires ReducedRows(a, lu, piv, m, j)
    ensures ReducedRows(a, lu2, SwapEntries(piv, p, j), m, j)
  {
    var piv2 := SwapEntries(piv, p, j);
    SwapTransposes(piv, m, p, j);
    forall r | 0 <= r < m
      ensures At(lu2, r, j) + InnerSum(lu2, lu2, r, j, Min(r, j)) == At(a, piv2[r], j)
    {
      ReducedExchange(lu, lu2, p, j, r);
    }
  }

  /** Rows j.. stay in rows j.., so the finished multipliers stay bounded and row p's entry dominates. */
  lemma ExchangeBounded(lu: Matrix, lu2: Matrix, m: nat, j: nat, p: nat)
    requires |lu| == m && j <= p < m && RowsExchanged(lu, lu2, p, j)
    requires BoundedMultipliers(lu, m, j)
    requires forall r :: j <= r < m ==> Abs(At(lu, r, j)) <= Abs(At(lu, p, j))
    ensures BoundedMultipliers(lu2, m, j)
    ensures forall r :: j <= r < m ==> Abs(At(lu2, r, j)) <= Abs(At(lu2, j, j))
  {
    forall i, c | 0 <= c < i < m && c < j
      ensures Abs(At(lu2, i, c)) <= 1.0
    {
      assert lu2[i] == lu[Transposed(p, j, i)];
      assert At(lu2, i, c) == At(lu, Transposed(p, j, i), c);
    }
    forall r | j <= r < m
      ensures Abs(At(lu2, r, j)) <= Abs(At(lu2, j, j))
    {
      assert lu2[r] == lu[Transposed(p, j, r)];
      assert At(lu2, r, j) == At(lu, Transposed(p, j, r), j);
      assert At(lu2, j, j) == At(lu, p, j);
    }
  }

  /** Exchanging rows p >= j keeps every invariant, with the pivots exchanged alongside. */
  lemma ExchangeKeeps(a: Matrix, lu: Matrix, lu2: Matrix, piv: seq<nat>, m: nat, n: nat, j: nat, p: nat)
    requires IsMatrix(lu, m, n) && |piv| == m && j <= p < m && j < n
    requires RowsExchanged(lu, lu2, p, j)
    requires DoneCols(a, lu, piv, m, j) && PendingCols(a, lu, piv, m, j + 1, n)
    requires BoundedMultipliers(lu, m, j) && ReducedRows(a, lu, piv, m, j)
    requires forall r :: j <= r < m ==> Abs(At(lu, r, j)) <= Abs(At(lu, p, j))
    ensures var piv2 := SwapEntries(piv, p, j);
      && IsMatrix(lu2, m, n)
      && DoneCols(a, lu2, piv2, m, j) && PendingCols(a, lu2, piv2, m, j + 1, n)
      && BoundedMultipliers(lu2, m, j) && ReducedRows(a, lu2, piv2, m, j)
      && forall r :: j <= r < m ==> Abs(At(lu2, r, j)) <= Abs(At(lu2, j, j))
  {
    forall i | 0 <= i < m
      ensures |lu2[i]| == n
    {
      assert lu2[i] == lu[Transposed(p, j, i)];
    }
    ExchangeDone(a, lu, lu2, piv, m, j, p);
    ExchangePending(a, lu, lu2, piv, m, n, j, p);
    ExchangeReduced(a, lu, lu2, piv, m, j, p);
    ExchangeBounded(lu, lu2, m, j, p);
  }

  lemma QuotientBound(a: real, b: real)
    requires 0.0 <= a <= b && b > 0.0
    ensures a / b <= 1.0
  {
  }

  /** Dividing by a divisor of at least the same magnitude gives a quotient within [-1, 1]. */
  lemma DivBound(x: real, d: real)
    requires d != 0.0 && Abs(x) <= Abs(d)
    ensures Abs(x / d) <= 1.0
  {
    QuotientBound(Abs(x), Abs(d));
    if d < 0.0 {
      assert x / d == -x / -d;
    }
    if x < 0.0 {
      assert x / d == -(-x / d);
    }
  }

  /** Column j after dividing by the pivot: the reduced entry (r, j) is reconstructed. */
  lemma FinishEntry(a: Matrix, lu: Matrix, lu2: Matrix, piv: seq<nat>, m: nat, n: nat, j: nat, r: nat)
    requires SameOutsideColumn(lu, lu2, m, n, j) && |piv| == m && j < m && j < n && r < m
    requires At(lu, r, j) + InnerSum(lu, lu, r, j, Min(r, j)) == At(a, piv[r], j)
    requires Abs(lu[r][j]) <= Abs(lu[j][j]) || r <= j
    requires forall t :: 0 <= t <= j ==> lu2[t][j] == lu[t][j]
    requires r > j ==> lu2[r][j] == if lu[j][j] != 0.0 then lu[r][j] / lu[j][j] else lu[r][j]
    ensures At(a, piv[r], j) == Recon(lu2, r, j)
    ensures r > j ==> Abs(lu2[r][j]) <= 1.0
  {
    var k := Min(r, j);
    forall t | 0 <= t < k
      ensures At(lu2, r, t) == At(lu, r, t) && At(lu2, t, j) == At(lu, t, j)
    {
    }
    InnerSumFrame(lu2, lu2, r, lu, lu, r, j, k);
    if r > j {
      var d := lu[j][j];
      assert k == j && At(lu2, j, j) == d;
      if d == 0.0 {
        assert lu[r][j] == 0.0;
      } else {
        assert lu2[r][j] * d == lu[r][j];
        DivBound(lu[r][j], d);
      }
    }
  }

  /**
   * Dividing the entries below the pivot by a pivot of maximal magnitude finishes column j:
   * its entries are reconstructed and its multipliers lie in [-1, 1].
   */
  lemma FinishColumn(a: Matrix, lu: Matrix, lu2: Matrix, piv: seq<nat>, m: nat, n: nat, j: nat)
    requires SameOutsideColumn(lu, lu2, m, n, j) && |piv| == m && j < m && j < n
    requires DoneCols(a, lu, piv, m, j) && PendingCols(a, lu, piv, m, j + 1, n)
    requires BoundedMultipliers(lu, m, j) && ReducedRows(a, lu, piv, m, j)
    requires forall r :: j <= r < m ==> Abs(lu[r][j]) <= Abs(lu[j][j])
    requires forall r :: 0 <= r <= j ==> lu2[r][j] == lu[r][j]
    requires forall r :: j < r < m ==>
      lu2[r][j] == if lu[j][j] != 0.0 then lu[r][j] / lu[j][j] else lu[r][j]
    ensures DoneCols(a, lu2, piv, m, j + 1) && PendingCols(a, lu2, piv, m, j + 1, n)
    ensures BoundedMultipliers(lu2, m, j + 1)
  {
    ColumnKeeps(a, lu, lu2, piv, m, n, j);
    forall r | 0 <= r < m
      ensures At(a, piv[r], j) == Recon(lu2, r, j)
      ensures r > j ==> Abs(At(lu2, r, j)) <= 1.0
    {
      FinishEntry(a, lu, lu2, piv, m, n, j, r);
    }
  }

  // ---------------------------------------------------------------------------------------------
  // The elimination
  // ---------------------------------------------------------------------------------------------

  /**
   * The pivot search: the first index in j..|col|-1 whose entry has the largest magnitude
   * (the comparison is strict, so later ties do not win).
   */
  method FindPivot(col: seq<real>, j: nat) returns (p: nat)
    requires j < |col|
    ensures j <= p < |col|
    ensures forall i :: j <= i < |col| ==> Abs(col[i]) <= Abs(col[p])
    ensures forall i :: j <= i < p ==> Abs(col[i]) < Abs(col[p])
  {
    p := j;
    var i := j + 1;
    while i < |col|
      invariant j + 1 <= i <= |col|
      invariant j <= p < i
      invariant forall k :: j <= k < i ==> Abs(col[k]) <= Abs(col[p])
      invariant forall k :: j <= k < p ==> Abs(col[k]) < Abs(col[p])
    {
      if Abs(col[i]) > Abs(col[p]) {
        p := i;
      }
      i := i + 1;
    }
  }

  /** Exchanges rows p and j of an n-column matrix, one column at a time. */
  method ExchangeRows(lu: Matrix, p: nat, j: nat, n: nat) returns (r: Matrix)
    requires IsMatrix(lu, |lu|, n) && p < |lu| && j < |lu|
    ensures IsMatrix(r, |lu|, n)
    ensures r[p] == lu[j] && r[j] == lu[p]
    ensures forall i :: 0 <= i < |lu| && i != p && i != j ==> r[i] == lu[i]
  {
    r := lu;
    var k := 0;
    while k < n
      invariant 0 <= k <= n
      invariant IsMatrix(r, |lu|, n)
      invariant forall i :: 0 <= i < |lu| && i != p && i != j ==> r[i] == lu[i]
      invariant forall c :: 0 <= c < n ==> r[p][c] == (if c < k then lu[j][c] else lu[p][c])
      invariant forall c :: 0 <= c < n ==> r[j][c] == (if c < k then lu[p][c] else lu[j][c])
    {
      var t := r[p][k];
      r := Set(r, p, k, r[j][k]);
      r := Set(r, j, k, t);
      k := k + 1;
    }
    assert r[p] == lu[j];
    assert r[j] == lu[p];
  }

  /** The invariant of the reduction loop after rows 0..i-1. */
  ghost predicate ReducedUpTo(lu0: Matrix, lu: Matrix, colj: seq<real>, m: nat, n: nat, j: nat, i: nat)
  {
    && j < n && SameOutsideColumn(lu0, lu, m, n, j) && |colj| == m
    && (forall r :: 0 <= r < m ==> colj[r] == lu[r][j])
    && (forall r :: 0 <= r < i && r < m ==> At(lu, r, j) + InnerSum(lu, lu, r, j, Min(r, j)) == At(lu0, r, j))
    && forall r :: i <= r < m ==> lu[r][j] == lu0[r][j]
  }

  /** Writing the reduced entry of row i keeps the other columns and the rows below i. */
  lemma ReduceStepFrame(lu0: Matrix, lu: Matrix, colj: seq<real>, m: nat, n: nat, j: nat, i: nat, v: real)
    requires j < n && i < m && ReducedUpTo(lu0, lu, colj, m, n, j, i)
    ensures var lu2 := Set(lu, i, j, v);
      && SameOutsideColumn(lu0, lu2, m, n, j)
      && (forall r :: 0 <= r < m ==> colj[i := v][r] == lu2[r][j])
      && forall r :: i + 1 <= r < m ==> lu2[r][j] == lu0[r][j]
  {
    var lu2 := Set(lu, i, j, v);
    forall r | 0 <= r < m && r != i
      ensures lu2[r] == lu[r]
    {
    }
  }

  /** Writing entry (i, j) leaves the reduced sums of column j for rows up to i unchanged. */
  lemma ReducedSumAfterSet(lu: Matrix, m: nat, n: nat, j: nat, i: nat, v: real, r: nat)
    requires IsMatrix(lu, m, n) && j < n && r <= i < m
    ensures var lu2 := Set(lu, i, j, v);
      && InnerSum(lu2, lu2, r, j, Min(r, j)) == InnerSum(lu, lu, r, j, Min(r, j))
      && At(lu2, r, j) == if r < i then At(lu, r, j) else v
  {
    InnerSumSet(lu, i, j, v, r, j, Min(r, j));
  }

  /** Writing the reduced entry of row i makes rows 0..i reduced. */
  lemma ReduceStepRows(lu0: Matrix, lu: Matrix, m: nat, n: nat, j: nat, i: nat, s: real)
    requires IsMatrix(lu, m, n) && j < n && i < m
    requires forall r :: 0 <= r < i ==> At(lu, r, j) + InnerSum(lu, lu, r, j, Min(r, j)) == At(lu0, r, j)
    requires At(lu0, i, j) == lu[i][j]
    requires s == InnerSum(lu, lu, i, j, Min(i, j))
    ensures var lu2 := Set(lu, i, j, lu[i][j] - s);
      forall r :: 0 <= r < i + 1 ==> At(lu2, r, j) + InnerSum(lu2, lu2, r, j, Min(r, j)) == At(lu0, r, j)
  {
    forall r | 0 <= r < i + 1
      ensures var lu2 := Set(lu, i, j, lu[i][j] - s);
        At(lu2, r, j) + InnerSum(lu2, lu2, r, j, Min(r, j)) == At(lu0, r, j)
    {
      ReducedSumAfterSet(lu, m, n, j, i, lu[i][j] - s, r);
    }
  }

  /** One row of "apply previous transformations" keeps the reduction loop's invariant. */
  lemma ReduceStep(lu0: Matrix, lu: Matrix, colj: seq<real>, m: nat, n: nat, j: nat, i: nat, s: real)
    requires j < n && i < m && ReducedUpTo(lu0, lu, colj, m, n, j, i)
    requires s == InnerSum(lu, lu, i, j, Min(i, j))
    ensures ReducedUpTo(lu0, Set(lu, i, j, lu[i][j] - s), colj[i := colj[i] - s], m, n, j, i + 1)
  {
    assert colj[i] - s == lu[i][j] - s;
    ReduceStepFrame(lu0, lu, colj, m, n, j, i, lu[i][j] - s);
    assert At(lu0, i, j) == lu0[i][j];
    ReduceStepRows(lu0, lu, m, n, j, i, s);
  }

  /** A copy of column j of `lu`. */
  method ColumnOf(lu: Matrix, m: nat, n: nat, j: nat) returns (colj: seq<real>)
    requires IsMatrix(lu, m, n) && j < n
    ensures |colj| == m && forall r :: 0 <= r < m ==> colj[r] == lu[r][j]
  {
    colj := seq(m, _ => 0.0);
    var i := 0;
    while i < m
      invariant 0 <= i <= m && |colj| == m
      invariant forall r :: 0 <= r < i ==> colj[r] == lu[r][j]
    {
      colj := colj[i := lu[i][j]];
      i := i + 1;
    }
  }

  /** The dot product of the first `kmax` entries of row i with the copy of column j. */
  method RowDotColumn(lu: Matrix, m: nat, n: nat, j: nat, i: nat, colj: seq<real>, kmax: nat) returns (s: real)
    requires IsMatrix(lu, m, n) && i < m && j < n && kmax <= j && kmax <= i
    requires |colj| == m && forall r :: 0 <= r < m ==> colj[r] == lu[r][j]
    ensures s == InnerSum(lu, lu, i, j, kmax)
  {
    s := 0.0;
    var k := 0;
    while k < kmax
      invariant 0 <= k <= kmax
      invariant s == InnerSum(lu, lu, i, j, k)
    {
      assert At(lu, i, k) == lu[i][k] && At(lu, k, j) == colj[k];
      s := s + lu[i][k] * colj[k];
      k := k + 1;
    }
  }

  /** Row i of "apply previous transformations": LU[i][j] = LUcolj[i] -= s. */
  method ReduceRow(ghost lu0: Matrix, lu: Matrix, colj: seq<real>, m: nat, n: nat, j: nat, i: nat)
    returns (lu2: Matrix, colj2: seq<real>)
    requires j < n && i < m && ReducedUpTo(lu0, lu, colj, m, n, j, i)
    ensures ReducedUpTo(lu0, lu2, colj2, m, n, j, i + 1)
  {
    var s := RowDotColumn(lu, m, n, j, i, colj, Min(i, j));
    ReduceStep(lu0, lu, colj, m, n, j, i, s);
    colj2 := colj[i := colj[i] - s];
    lu2 := Set(lu, i, j, colj2[i]);
  }

  /**
   * "Apply previous transformations" to column j: copies the column, then for each row i
   * subtracts the dot product of row i's first min(i, j) entries with the column's copy.
   * Returns the updated matrix and the final copy of the column.
   */
  method ReduceColumn(lu0: Matrix, m: nat, n: nat, j: nat) returns (lu: Matrix, colj: seq<real>)
    requires IsMatrix(lu0, m, n) && j < n
    ensures SameOutsideColumn(lu0, lu, m, n, j) && |colj| == m
    ensures forall r :: 0 <= r < m ==> colj[r] == lu[r][j]
    ensures forall r :: 0 <= r < m ==>
      At(lu, r, j) + InnerSum(lu, lu, r, j, Min(r, j)) == At(lu0, r, j)
  {
    lu := lu0;
    colj := ColumnOf(lu0, m, n, j);
    var i := 0;
    while i < m
      invariant 0 <= i <= m
      invariant ReducedUpTo(lu0, lu, colj, m, n, j, i)
    {
      lu, colj := ReduceRow(lu0, lu, colj, m, n, j, i);
      i := i + 1;
    }
  }

  /** "Compute multipliers": divides the entries below a non-zero pivot by it. */
  method ScaleBelowPivot(lu0: Matrix, m: nat, n: nat, j: nat) returns (lu: Matrix)
    requires IsMatrix(lu0, m, n) && j < m && j < n && lu0[j][j] != 0.0
    ensures SameOutsideColumn(lu0, lu, m, n, j)
    ensures forall r :: 0 <= r <= j ==> lu[r][j] == lu0[r][j]
    ensures forall r :: j < r < m ==> lu[r][j] == lu0[r][j] / lu0[j][j]
  {
    lu := lu0;
    var i := j + 1;
    while i < m
      invariant j + 1 <= i <= m
      invariant SameOutsideColumn(lu0, lu, m, n, j)
      invariant forall r :: 0 <= r < m ==> lu[r][j] == if j < r < i then lu0[r][j] / lu0[j][j] else lu0[r][j]
    {
      lu := Set(lu, i, j, lu[i][j] / lu[j][j]);
      i := i + 1;
    }
  }

  /** Recording one more exchange keeps the pivot vector, the exchanges and the sign in step. */
  lemma RecordSwap(piv: seq<nat>, swaps: seq<(nat, nat)>, m: nat, p: nat, j: nat)
    requires |piv| == m && p < m && j < m
    requires IsPermutation(piv, m) && ValidSwaps(swaps, m) && piv == ApplySwaps(Identity(m), swaps)
    ensures IsPermutation(SwapEntries(piv, p, j), m) && ValidSwaps(swaps + [(p, j)], m)
    ensures SwapEntries(piv, p, j) == ApplySwaps(Identity(m), swaps + [(p, j)])
    ensures Parity(|swaps + [(p, j)]|) == -Parity(|swaps|)
  {
    SwapKeepsPermutation(piv, m, p, j);
    var swaps2 := swaps + [(p, j)];
    assert swaps2[..|swaps2| - 1] == swaps;
  }

  /** "Find pivot and exchange if necessary", with the sign of the permutation kept alongside. */
  method PivotColumn(ghost a: Matrix, lu: Matrix, piv: seq<nat>, pivsign: int, ghost swaps: seq<(nat, nat)>,
                     colj: seq<real>, m: nat, n: nat, j: nat)
    returns (lu2: Matrix, piv2: seq<nat>, pivsign2: int, ghost swaps2: seq<(nat, nat)>)
    requires IsMatrix(lu, m, n) && |piv| == m && j < n <= m
    requires |colj| == m && forall r :: 0 <= r < m ==> colj[r] == lu[r][j]
    requires IsPermutation(piv, m) && ValidSwaps(swaps, m) && piv == ApplySwaps(Identity(m), swaps)
    requires |swaps| <= j && pivsign == Parity(|swaps|)
    requires DoneCols(a, lu, piv, m, j) && PendingCols(a, lu, piv, m, j + 1, n)
    requires BoundedMultipliers(lu, m, j) && ReducedRows(a, lu, piv, m, j)
    ensures IsMatrix(lu2, m, n) && |piv2| == m
    ensures IsPermutation(piv2, m) && ValidSwaps(swaps2, m) && piv2 == ApplySwaps(Identity(m), swaps2)
    ensures |swaps2| <= j + 1 && pivsign2 == Parity(|swaps2|)
    ensures DoneCols(a, lu2, piv2, m, j) && PendingCols(a, lu2, piv2, m, j + 1, n)
    ensures BoundedMultipliers(lu2, m, j) && ReducedRows(a, lu2, piv2, m, j)
    ensures forall r :: j <= r < m ==> Abs(lu2[r][j]) <= Abs(lu2[j][j])
  {
    var p := FindPivot(colj, j);
    assert forall r :: j <= r < m ==> Abs(At(lu, r, j)) <= Abs(At(lu, p, j));
    lu2, piv2, pivsign2, swaps2 := lu, piv, pivsign, swaps;
    if p != j {
      lu2 := ExchangeRows(lu, p, j, n);
      ExchangeKeeps(a, lu, lu2, piv, m, n, j, p);
      RecordSwap(piv, swaps, m, p, j);
      swaps2 := swaps + [(p, j)];
      piv2 := SwapEntries(piv, p, j);
      pivsign2 := -pivsign;
    }
    assert forall r :: j <= r < m ==> At(lu2, r, j) == lu2[r][j];
  }

  /**
   * The constructor's elimination.  Returns the packed factors, the pivot vector and its sign;
   * the ghost `swaps` lists the row exchanges performed, in order.
   */
  method Decompose(a: Matrix, m: nat, n: nat)
    returns (lu: Matrix, piv: seq<nat>, pivsign: int, ghost swaps: seq<(nat, nat)>)
    requires IsMatrix(a, m, n) && m >= n
    ensures IsMatrix(lu, m, n) && |piv| == m && IsPermutation(piv, m)
    ensures ValidSwaps(swaps, m) && piv == ApplySwaps(Identity(m), swaps)
    ensures |swaps| <= n && pivsign == Parity(|swaps|)
    ensures forall i, c :: 0 <= i < m && 0 <= c < n ==> At(a, piv[i], c) == Recon(lu, i, c)
    ensures forall i, c :: 0 <= c < i < m && c < n ==> Abs(lu[i][c]) <= 1.0
  {
    lu := a;
    piv := Identity(m);
    pivsign := 1;
    swaps := [];
    var j := 0;
    while j < n
      invariant 0 <= j <= n
      invariant IsMatrix(lu, m, n) && |piv| == m
      invariant IsPermutation(piv, m)
      invariant ValidSwaps(swaps, m) && piv == ApplySwaps(Identity(m), swaps)
      invariant |swaps| <= j && pivsign == Parity(|swaps|)
      invariant DoneCols(a, lu, piv, m, j)
      invariant PendingCols(a, lu, piv, m, j, n)
      invariant BoundedMultipliers(lu, m, j)
    {
      var lu1, colj := ReduceColumn(lu, m, n, j);
      ColumnKeeps(a, lu, lu1, piv, m, n, j);
      lu := lu1;

      // Find pivot and exchange if necessary.
      lu, piv, pivsign, swaps := PivotColumn(a, lu, piv, pivsign, swaps, colj, m, n, j);

      // Compute multipliers.
      var lu3 := lu;
      if lu[j][j] != 0.0 {
        lu3 := ScaleBelowPivot(lu, m, n, j);
      }
      FinishColumn(a, lu, lu3, piv, m, n, j);
      lu := lu3;
      j := j + 1;
    }
    forall i, c | 0 <= c < i < m && c < n
      ensures Abs(lu[i][c]) <= 1.0
    {
      assert At(lu, i, c) == lu[i][c];
    }
  }

  // ---------------------------------------------------------------------------------------------
  // Solving with the factors
  // ---------------------------------------------------------------------------------------------

  lemma ZeroFactor(a: real, b: real)
    requires a == 0.0
    ensures a * b == 0.0
  {
  }

  lemma EqualFactors(a: real, a2: real, b: real)
    requires a == a2
    ensures a * b == a2 * b
  {
  }

  /** Row r of an upper factor, given entry by entry, applied to X. */
  lemma UpperOfFactor(lu: Matrix, u: Matrix, x: Matrix, n: nat, r: nat, c: int)
    requires r < n
    requires forall t :: 0 <= t < n ==> At(u, r, t) == if r <= t then At(lu, r, t) else 0.0
    ensures InnerSum(u, x, r, c, n) == At(lu, r, r) * At(x, r, c) + RowTail(lu, x, r, c, r + 1, n)
  {
    var g := t => At(u, r, t) * At(x, t, c);
    var h := t => At(lu, r, t) * At(x, t, c);
    forall t | 0 <= t < r
      ensures g(t) == 0.0
    {
      ZeroFactor(At(u, r, t), At(x, t, c));
    }
    forall t | r <= t < n
      ensures g(t) == h(t)
    {
      EqualFactors(At(u, r, t), At(lu, r, t), At(x, t, c));
    }
    UpperSplit(n, r, g, h);
  }

  /** A sum whose first r terms vanish and whose later terms agree with h is term r of h plus the rest of h. */
  lemma UpperSplit(n: nat, r: nat, g: int -> real, h: int -> real)
    requires r < n
    requires forall t :: 0 <= t < r ==> g(t) == 0.0
    requires forall t :: r <= t < n ==> g(t) == h(t)
    ensures Sum(n, g) == h(r) + SumRange(r + 1, n, h)
  {
    SumSplit(r, n, g);
    SumZero(r, g);
    SumRangeExt(r, n, g, h);
  }

  /** Row r of U * X, read off the packed matrix. */
  lemma UpperProduct(lu: Matrix, x: Matrix, n: nat, r: nat, c: int)
    requires r < n
    ensures InnerSum(UFactor(lu, n), x, r, c, n) == At(lu, r, r) * At(x, r, c) + RowTail(lu, x, r, c, r + 1, n)
  {
    var u := UFactor(lu, n);
    forall t | 0 <= t < n
      ensures At(u, r, t) == if r <= t then At(lu, r, t) else 0.0
    {
      UEntry(lu, n, r, t);
    }
    UpperOfFactor(lu, u, x, n, r, c);
  }

  /** Row r < n of L * Y, read off the packed matrix. */
  lemma {:induction false} LowerProduct(lu: Matrix, y: Matrix, m: nat, n: nat, r: nat, c: int)
    requires r < n <= m
    ensures InnerSum(LFactor(lu, m, n), y, r, c, n) == InnerSum(lu, y, r, c, r) + At(y, r, c)
  {
    var l := LFactor(lu, m, n);
    var g := t => At(l, r, t) * At(y, t, c);
    SumZeroTail(r + 1, n, g);
    SumExt(r, g, t => At(lu, r, t) * At(y, t, c));
  }

  /** The two substitutions together solve L * (U * X) = B' on the first n rows. */
  lemma SubstitutionSolves(lu: Matrix, bp: Matrix, y: Matrix, x: Matrix, m: nat, n: nat, nx: nat)
    requires n <= m && IsMatrix(y, m, nx) && IsMatrix(x, m, nx) && IsMatrix(bp, m, nx)
    requires forall r, c :: 0 <= r < n && 0 <= c < nx ==> y[r][c] == bp[r][c] - InnerSum(lu, y, r, c, r)
    requires forall r: nat, c :: r < n && 0 <= c < nx ==> Finished(lu, y, x, n, r, c)
    ensures forall r, c :: 0 <= r < n && 0 <= c < nx ==>
      InnerSum(LFactor(lu, m, n), Mul(UFactor(lu, n), x, n, n, nx), r, c, n) == bp[r][c]
  {
    var ux := Mul(UFactor(lu, n), x, n, n, nx);
    forall t, c | 0 <= t < n && 0 <= c < nx
      ensures At(ux, t, c) == At(y, t, c)
    {
      assert Finished(lu, y, x, n, t, c);
      UpperProduct(lu, x, n, t, c);
    }
    forall r, c | 0 <= r < n && 0 <= c < nx
      ensures InnerSum(LFactor(lu, m, n), ux, r, c, n) == bp[r][c]
    {
      var l := LFactor(lu, m, n);
      InnerSumFrame(l, ux, r, l, y, r, c, n);
      LowerProduct(lu, y, m, n, r, c);
    }
  }

  /**
   * For a square matrix, factors with A(piv, :) = L * U and an X with L * (U * X) = B(piv, :)
   * give A * X = B.
   */
  lemma SolvesSystem(a: Matrix, lu: Matrix, piv: seq<nat>, b: Matrix, x: Matrix, n: nat, nx: nat)
    requires IsMatrix(a, n, n) && IsMatrix(b, n, nx) && IsMatrix(x, n, nx)
    requires IsPermutation(piv, n) && |piv| == n && forall i :: 0 <= i < n ==> piv[i] < n
    requires Mul(LFactor(lu, n, n), UFactor(lu, n), n, n, n) == RowPermute(a, piv)
    requires forall r, c :: 0 <= r < n && 0 <= c < nx ==>
      InnerSum(LFactor(lu, n, n), Mul(UFactor(lu, n), x, n, n, nx), r, c, n) == b[piv[r]][c]
    ensures Mul(a, x, n, n, nx) == b
  {
    PermutationFacts(piv, n);
    var l, u := LFactor(lu, n, n), UFactor(lu, n);
    var lux := Mul(l, Mul(u, x, n, n, nx), n, n, nx);
    MatrixExt(lux, RowPermute(b, piv), n, nx);
    MulAssoc(l, u, x, n, n, n, nx);
    MulRowPermute(a, x, piv, n, nx);
    var ax := Mul(a, x, n, n, nx);
    assert RowPermute(ax, piv) == RowPermute(b, piv);
    forall v | 0 <= v < n
      ensures ax[v] == b[v]
    {
      assert v in piv;
      var i :| 0 <= i < |piv| && piv[i] == v;
      assert RowPermute(ax, piv)[i] == ax[v];
      assert RowPermute(b, piv)[i] == b[v];
    }
  }

  /** The computed determinant is zero exactly when the matrix is singular. */
  lemma DetVanishes(lu: Matrix, n: nat, k: nat)
    ensures (Parity(k) as real * DiagProduct(lu, n) == 0.0) <==> !Nonsingular(lu, n)
  {
    DiagProductZero(lu, n);
  }

  // ---------------------------------------------------------------------------------------------
  // The decomposition object
  // ---------------------------------------------------------------------------------------------

  /** The LU decomposition of an m-by-n matrix with m >= n, and the operations built on it. */
  class LUDecomposition {
    /** The packed factors. */
    const LU: Matrix
    const m: nat
    const n: nat
    const pivsign: int
    const piv: seq<nat>
    /** The decomposed matrix and the row exchanges performed, for the specification only. */
    ghost const A: Matrix
    ghost const swaps: seq<(nat, nat)>

    /** The decomposition invariant: A(piv, :) = L * U, with pivsign the sign of piv. */
    ghost predicate Valid()
    {
      && IsMatrix(A, m, n) && IsMatrix(LU, m, n) && m >= n
      && |piv| == m && IsPermutation(piv, m) && (forall i :: 0 <= i < m ==> piv[i] < m)
      && ValidSwaps(swaps, m) && piv == ApplySwaps(Identity(m), swaps)
      && |swaps| <= n && pivsign == Parity(|swaps|)
      && Mul(LFactor(LU, m, n), UFactor(LU, n), m, n, n) == RowPermute(A, piv)
    }

    /** Decomposes `a`, a `rows`-by-`cols` matrix. */
    constructor (a: Matrix, rows: nat, cols: nat)
      requires IsMatrix(a, rows, cols) && rows >= cols
      ensures Valid() && A == a && m == rows && n == cols
      ensures forall i, c :: 0 <= c < i < m && c < n ==> Abs(LU[i][c]) <= 1.0
    {
      var lu, p, s;
      ghost var sw;
      lu, p, s, sw := Decompose(a, rows, cols);
      PermutationFacts(p, rows);
      LUTheorem(a, lu, p, rows, cols);
      LU, m, n, pivsign, piv := lu, rows, cols, s, p;
      A, swaps := a, sw;
    }

    /** U, and hence A, is nonsingular exactly when no diagonal entry of U is zero. */
    method IsNonsingular() returns (r: bool)
      requires Valid()
      ensures r <==> Nonsingular(LU, n)
    {
      var j := 0;
      while j < n
        invariant 0 <= j <= n
        invariant forall t :: 0 <= t < j ==> At(LU, t, t) != 0.0
      {
        assert At(LU, j, j) == LU[j][j];
        if LU[j][j] == 0.0 {
          return false;
        }
        j := j + 1;
      }
      return true;
    }

    /** The unit lower triangular factor L (m-by-n). */
    method GetL() returns (l: Matrix)
      requires Valid()
      ensures l == LFactor(LU, m, n)
    {
      ghost var target := LFactor(LU, m, n);
      l := Zeros(m, n);
      var i := 0;
      while i < m
        invariant 0 <= i <= m && IsMatrix(l, m, n)
        invariant forall r, c :: 0 <= r < m && 0 <= c < n ==> l[r][c] == if r < i then target[r][c] else 0.0
      {
        var j := 0;
        while j <= i && j < n
          invariant 0 <= j <= n && j <= i + 1 && IsMatrix(l, m, n)
          invariant forall r, c :: 0 <= r < m && 0 <= c < n ==>
            l[r][c] == if r < i || (r == i && c < j) then target[r][c] else 0.0
        {
          if i > j {
            l := Set(l, i, j, LU[i][j]);
          } else {
            l := Set(l, i, j, 1.0);
          }
          j := j + 1;
        }
        i := i + 1;
      }
      MatrixExt(l, target, m, n);
    }

    /** The upper triangular factor U (n-by-n). */
    method GetU() returns (u: Matrix)
      requires Valid()
      ensures u == UFactor(LU, n)
    {
      ghost var target := UFactor(LU, n);
      u := Zeros(n, n);
      var i := 0;
      while i < n
        invariant 0 <= i <= n && IsMatrix(u, n, n)
        invariant forall r, c :: 0 <= r < n && 0 <= c < n ==> u[r][c] == if r < i then target[r][c] else 0.0
      {
        var j := i;
        while j < n
          invariant i <= j <= n && IsMatrix(u, n, n)
          invariant forall r, c :: 0 <= r < n && 0 <= c < n ==>
            u[r][c] == if r < i || (r == i && c < j) then target[r][c] else 0.0
        {
          if i <= j {
            u := Set(u, i, j, LU[i][j]);
          }
          j := j + 1;
        }
        i := i + 1;
      }
      MatrixExt(u, target, n, n);
    }

    /** A copy of the pivot vector. */
    method GetPivot() returns (p: seq<nat>)
      requires Valid()
      ensures p == piv
    {
      p := piv;
    }

    /** The pivot vector converted to reals. */
    method GetDoublePivot() returns (vals: seq<real>)
      requires Valid()
      ensures |vals| == m && forall i :: 0 <= i < m ==> vals[i] == piv[i] as real
    {
      vals := seq(m, _ => 0.0);
      var i := 0;
      while i < m
        invariant 0 <= i <= m && |vals| == m
        invariant forall t :: 0 <= t < i ==> vals[t] == piv[t] as real
      {
        vals := vals[i := piv[i] as real];
        i := i + 1;
      }
    }

    /** The determinant pivsign * U[0][0] * ... * U[n-1][n-1]; only square matrices have one. */
    method Det() returns (r: Result<real, LUError>)
      requires Valid()
      ensures m != n ==> r == Failure(NotSquare)
      ensures m == n ==> r == Success(pivsign as real * DiagProduct(LU, n))
    {
      if m != n {
        return Failure(NotSquare);
      }
      var d := pivsign as real;
      var j := 0;
      while j < n
        invariant 0 <= j <= n
        invariant d == pivsign as real * DiagProduct(LU, j)
      {
        assert At(LU, j, j) == LU[j][j];
        d := d * LU[j][j];
        j := j + 1;
      }
      assert d == pivsign as real * DiagProduct(LU, n);
      return Success(d);
    }

    /**
     * Solves A * X = B for a `rows`-by-`nx` matrix B with as many rows as A.  The result X has
     * L * (U * X) = B(piv, :) on its first n rows and B(piv, :) below them, so for a square A it
     * satisfies A * X = B.
     */
    method Solve(b: Matrix, rows: nat, nx: nat) returns (r: Result<Matrix, LUError>)
      requires Valid() && IsMatrix(b, rows, nx)
      ensures r.Success? <==> rows == m && Nonsingular(LU, n)
      ensures r.Failure? ==> r.error == if rows != m then RowMismatch else Singular
      ensures r.Success? ==> IsMatrix(r.value, m, nx)
      ensures r.Success? ==> forall i :: n <= i < m ==> r.value[i] == b[piv[i]]
      ensures r.Success? ==> forall i, c :: 0 <= i < n && 0 <= c < nx ==>
        InnerSum(LFactor(LU, m, n), Mul(UFactor(LU, n), r.value, n, n, nx), i, c, n) == b[piv[i]][c]
      ensures r.Success? && m == n ==> Mul(A, r.value, n, n, nx) == b
    {
      if rows != m {
        return Failure(RowMismatch);
      }
      var nonsingular := IsNonsingular();
      if !nonsingular {
        return Failure(Singular);
      }
      // Copy right hand side with pivoting.
      var bp := RowPermute(b, piv);
      assert IsMatrix(bp, m, nx);
      // Solve L * Y = B(piv, :), then U * X = Y.
      var y := ForwardSubstitute(LU, bp, m, n, nx);
      assert forall t :: 0 <= t < n ==> LU[t][t] != 0.0 by {
        assert forall t :: 0 <= t < n ==> At(LU, t, t) == LU[t][t];
      }
      var x := BackSubstitute(LU, y, m, n, nx);
      SubstitutionSolves(LU, bp, y, x, m, n, nx);
      if m == n {
        SolvesSystem(A, LU, piv, b, x, n, nx);
      }
      return Success(x);
    }
  }
}
