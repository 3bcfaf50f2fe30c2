/** Dense real matrices as sequences of rows, with the product and its algebra. */
module Matrices {
  import opened Sums

  /** A dense matrix, row by row. */
  type Matrix = seq<seq<real>>

  /** `a` has `rows` rows of `cols` entries each. */
  predicate IsMatrix(a: Matrix, rows: nat, cols: nat)
  {
    |a| == rows && forall i :: 0 <= i < rows ==> |a[i]| == cols
  }

  /** Entry (i, j), or 0 outside the matrix; keeps the sums below total. */
  function At(a: Matrix, i: int, j: int): real
  {
    if 0 <= i < |a| && 0 <= j < |a[i]| then a[i][j] else 0.0
  }

  /** a[i][0]*b[0][c] + ... + a[i][k-1]*b[k-1][c]. */
  function InnerSum(a: Matrix, b: Matrix, i: int, c: int, k: nat): real
  {
    Sum(k, t => At(a, i, t) * At(b, t, c))
  }

  /** The product of a `rows`-by-`inner` and an `inner`-by-`cols` matrix. */
  function Mul(a: Matrix, b: Matrix, rows: nat, inner: nat, cols: nat): (r: Matrix)
    ensures IsMatrix(r, rows, cols)
  {
    seq(rows, i => seq(cols, c => InnerSum(a, b, i, c, inner)))
  }

  /** The all-zero matrix, as `new Matrix(rows, cols)` allocates it. */
  function Zeros(rows: nat, cols: nat): (r: Matrix)
    ensures IsMatrix(r, rows, cols)
  {
    seq(rows, _ => seq(cols, _ => 0.0))
  }

  /** Writes `v` at (i, j). */
  function Set(a: Matrix, i: nat, j: nat, v: real): (r: Matrix)
    requires i < |a| && j < |a[i]|
    ensures |r| == |a| && (forall k :: 0 <= k < |a| ==> |r[k]| == |a[k]|)
  {
    a[i := a[i][j := v]]
  }

  /** The rows of `a` in the order `piv` lists them: A(piv, :). */
  function RowPermute(a: Matrix, piv: seq<nat>): (r: Matrix)
    requires forall i :: 0 <= i < |piv| ==> piv[i] < |a|
    ensures |r| == |piv|
  {
    seq(|piv|, i requires 0 <= i < |piv| => a[piv[i]])
  }

  /** Two matrices of the same shape with the same entries are equal. */
  lemma MatrixExt(a: Matrix, b: Matrix, rows: nat, cols: nat)
    requires IsMatrix(a, rows, cols) && IsMatrix(b, rows, cols)
    requires forall i, c :: 0 <= i < rows && 0 <= c < cols ==> a[i][c] == b[i][c]
    ensures a == b
  {
    forall i | 0 <= i < rows
      ensures a[i] == b[i]
    {
      assert forall c :: 0 <= c < cols ==> a[i][c] == b[i][c];
    }
  }

  /** An inner sum depends only on row `i` of the left factor and column `c` of the right one. */
  lemma InnerSumFrame(a: Matrix, b: Matrix, i: int, a2: Matrix, b2: Matrix, i2: int, c: int, k: nat)
    requires forall t :: 0 <= t < k ==> At(a, i, t) == At(a2, i2, t) && At(b, t, c) == At(b2, t, c)
    ensures InnerSum(a, b, i, c, k) == InnerSum(a2, b2, i2, c, k)
  {
    SumExt(k, t => At(a, i, t) * At(b, t, c), t => At(a2, i2, t) * At(b2, t, c));
  }

  /** One term of entry (i, c) of A * (B * X), as a sum over the inner index of B * X. */
  lemma MulAssocLeftTerm(a: Matrix, b: Matrix, x: Matrix, q: nat, r: nat, s: nat, i: int, c: int, t: int,
                         f: (int, int) -> real)
    requires IsMatrix(b, q, r) && 0 <= c < s && 0 <= t < q
    requires forall u :: f(t, u) == At(a, i, t) * At(b, t, u) * At(x, u, c)
    ensures At(a, i, t) * At(Mul(b, x, q, r, s), t, c) == Sum(r, u => f(t, u))
  {
    assert At(Mul(b, x, q, r, s), t, c) == InnerSum(b, x, t, c, r);
    SumScale(r, At(a, i, t), u => At(b, t, u) * At(x, u, c), u => f(t, u));
  }

  /** Entry (i, c) of A * (B * X), written as a double sum. */
  lemma MulAssocLeft(a: Matrix, b: Matrix, x: Matrix, q: nat, r: nat, s: nat, i: int, c: int,
                     f: (int, int) -> real)
    requires IsMatrix(b, q, r) && 0 <= c < s
    requires forall t, u :: f(t, u) == At(a, i, t) * At(b, t, u) * At(x, u, c)
    ensures InnerSum(a, Mul(b, x, q, r, s), i, c, q) == Sum(q, t => Sum(r, u => f(t, u)))
  {
    var bx := Mul(b, x, q, r, s);
    forall t | 0 <= t < q
      ensures At(a, i, t) * At(bx, t, c) == Sum(r, u => f(t, u))
    {
      MulAssocLeftTerm(a, b, x, q, r, s, i, c, t, f);
    }
    SumExt(q, t => At(a, i, t) * At(bx, t, c), t => Sum(r, u => f(t, u)));
  }

  /** One term of entry (i, c) of (A * B) * X, as a sum over the inner index of A * B. */
  lemma MulAssocRightTerm(a: Matrix, b: Matrix, x: Matrix, p: nat, q: nat, r: nat, i: int, c: int, u: int,
                          f: (int, int) -> real)
    requires IsMatrix(a, p, q) && 0 <= i < p && 0 <= u < r
    requires forall t :: f(t, u) == At(a, i, t) * At(b, t, u) * At(x, u, c)
    ensures Sum(q, t => f(t, u)) == At(Mul(a, b, p, q, r), i, u) * At(x, u, c)
  {
    assert At(Mul(a, b, p, q, r), i, u) == InnerSum(a, b, i, u, q);
    SumScale(q, At(x, u, c), t => At(a, i, t) * At(b, t, u), t => f(t, u));
  }

  /** Entry (i, c) of (A * B) * X, written as a double sum. */
  lemma MulAssocRight(a: Matrix, b: Matrix, x: Matrix, p: nat, q: nat, r: nat, i: int, c: int,
                      f: (int, int) -> real)
    requires IsMatrix(a, p, q) && 0 <= i < p
    requires forall t, u :: f(t, u) == At(a, i, t) * At(b, t, u) * At(x, u, c)
    ensures InnerSum(Mul(a, b, p, q, r), x, i, c, r) == Sum(r, u => Sum(q, t => f(t, u)))
  {
    var ab := Mul(a, b, p, q, r);
    forall u | 0 <= u < r
      ensures Sum(q, t => f(t, u)) == At(ab, i, u) * At(x, u, c)
    {
      MulAssocRightTerm(a, b, x, p, q, r, i, c, u, f);
    }
    SumExt(r, u => Sum(q, t => f(t, u)), u => At(ab, i, u) * At(x, u, c));
  }

  /** Multiplication of real matrices is associative. */
  lemma MulAssoc(a: Matrix, b: Matrix, x: Matrix, p: nat, q: nat, r: nat, s: nat)
    requires IsMatrix(a, p, q) && IsMatrix(b, q, r) && IsMatrix(x, r, s)
    ensures Mul(a, Mul(b, x, q, r, s), p, q, s) == Mul(Mul(a, b, p, q, r), x, p, r, s)
  {
    var bx := Mul(b, x, q, r, s);
    var ab := Mul(a, b, p, q, r);
    forall i, c | 0 <= i < p && 0 <= c < s
      ensures InnerSum(a, bx, i, c, q) == InnerSum(ab, x, i, c, r)
    {
      var f := (t, u) => At(a, i, t) * At(b, t, u) * At(x, u, c);
      MulAssocLeft(a, b, x, q, r, s, i, c, f);
      SumSwap(q, r, f);
      MulAssocRight(a, b, x, p, q, r, i, c, f);
    }
    MatrixExt(Mul(a, bx, p, q, s), Mul(ab, x, p, r, s), p, s);
  }

  /** Permuting the rows of a product permutes the rows of its left factor. */
  lemma MulRowPermute(a: Matrix, x: Matrix, piv: seq<nat>, inner: nat, cols: nat)
    requires forall i :: 0 <= i < |piv| ==> piv[i] < |a|
    ensures Mul(RowPermute(a, piv), x, |piv|, inner, cols)
         == RowPermute(Mul(a, x, |a|, inner, cols), piv)
  {
    var pa := RowPermute(a, piv);
    forall i, c | 0 <= i < |piv| && 0 <= c < cols
      ensures InnerSum(pa, x, i, c, inner) == InnerSum(a, x, piv[i], c, inner)
    {
      InnerSumFrame(pa, x, i, a, x, piv[i], c, inner);
    }
    MatrixExt(Mul(pa, x, |piv|, inner, cols), RowPermute(Mul(a, x, |a|, inner, cols), piv), |piv|, cols);
  }
}
