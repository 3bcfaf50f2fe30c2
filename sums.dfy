/** Finite sums `f(0) + ... + f(k-1)` over reals and integers, and the algebra the proofs need. */
module Sums {

  /** f(0) + ... + f(k-1) over the reals. */
  function Sum(k: nat, f: int -> real): real
    decreases k
  {
    if k == 0 then 0.0 else Sum(k - 1, f) + f(k - 1)
  }

  /** f(lo) + ... + f(hi-1), peeled from the low end. */
  function SumRange(lo: nat, hi: nat, f: int -> real): real
    decreases hi - lo
  {
    if lo >= hi then 0.0 else f(lo) + SumRange(lo + 1, hi, f)
  }

  /** f(0) + ... + f(k-1) over the integers. */
  function SumInt(k: nat, f: int -> int): int
    decreases k
  {
    if k == 0 then 0 else SumInt(k - 1, f) + f(k - 1)
  }

  lemma {:induction false} SumExt(k: nat, f: int -> real, g: int -> real)
    requires forall t :: 0 <= t < k ==> f(t) == g(t)
    ensures Sum(k, f) == Sum(k, g)
  {
    if k > 0 {
      SumExt(k - 1, f, g);
    }
  }

  lemma {:induction false} SumRangeExt(lo: nat, hi: nat, f: int -> real, g: int -> real)
    requires forall t :: lo <= t < hi ==> f(t) == g(t)
    ensures SumRange(lo, hi, f) == SumRange(lo, hi, g)
    decreases hi - lo
  {
    if lo < hi {
      SumRangeExt(lo + 1, hi, f, g);
    }
  }

  lemma {:induction false} SumIntExt(k: nat, f: int -> int, g: int -> int)
    requires forall t :: 0 <= t < k ==> f(t) == g(t)
    ensures SumInt(k, f) == SumInt(k, g)
  {
    if k > 0 {
      SumIntExt(k - 1, f, g);
    }
  }

  /** A sum whose terms are all zero is zero. */
  lemma {:induction false} SumZero(k: nat, f: int -> real)
    requires forall t :: 0 <= t < k ==> f(t) == 0.0
    ensures Sum(k, f) == 0.0
  {
    if k > 0 {
      SumZero(k - 1, f);
    }
  }

  /** Terms past `k` that are zero do not contribute. */
  lemma {:induction false} SumZeroTail(k: nat, n: nat, f: int -> real)
    requires k <= n
    requires forall t :: k <= t < n ==> f(t) == 0.0
    ensures Sum(n, f) == Sum(k, f)
  {
    if k < n {
      SumZeroTail(k, n - 1, f);
    }
  }

  /** Splitting a sum at `lo`. */
  lemma {:induction false} SumSplit(lo: nat, hi: nat, f: int -> real)
    requires lo <= hi
    ensures Sum(hi, f) == Sum(lo, f) + SumRange(lo, hi, f)
    decreases hi - lo
  {
    if lo < hi {
      SumSplit(lo + 1, hi, f);
    }
  }

  lemma {:induction false} SumAdd(k: nat, f: int -> real, g: int -> real, h: int -> real)
    requires forall t :: 0 <= t < k ==> h(t) == f(t) + g(t)
    ensures Sum(k, h) == Sum(k, f) + Sum(k, g)
  {
    if k > 0 {
      SumAdd(k - 1, f, g, h);
    }
  }

  lemma {:induction false} SumSub(k: nat, f: int -> real, g: int -> real, h: int -> real)
    requires forall t :: 0 <= t < k ==> h(t) == f(t) - g(t)
    ensures Sum(k, h) == Sum(k, f) - Sum(k, g)
  {
    if k > 0 {
      SumSub(k - 1, f, g, h);
    }
  }

  lemma {:induction false} SumScale(k: nat, c: real, f: int -> real, g: int -> real)
    requires forall t :: 0 <= t < k ==> g(t) == c * f(t)
    ensures Sum(k, g) == c * Sum(k, f)
  {
    if k > 0 {
      SumScale(k - 1, c, f, g);
    }
  }

  /** Exchanging the order of a double sum. */
  lemma {:induction false} SumSwap(p: nat, q: nat, f: (int, int) -> real)
    ensures Sum(p, t => Sum(q, s => f(t, s))) == Sum(q, s => Sum(p, t => f(t, s)))
  {
    if p > 0 {
      SumSwap(p - 1, q, f);
      SumAdd(q, s => Sum(p - 1, t => f(t, s)), s => f(p - 1, s), s => Sum(p, t => f(t, s)));
    } else {
      var g := s => Sum(p, t => f(t, s));
      SumZero(q, g);
      assert Sum(q, s => Sum(p, t => f(t, s))) == Sum(q, g);
    }
  }

  /** Adding one to the term at `c0` adds one to the sum when `c0` is in range. */
  lemma {:induction false} SumIntBump(k: nat, c0: int, f: int -> int, g: int -> int)
    requires forall t :: 0 <= t < k ==> g(t) == f(t) + (if t == c0 then 1 else 0)
    ensures SumInt(k, g) == SumInt(k, f) + (if 0 <= c0 < k then 1 else 0)
  {
    if k > 0 {
      SumIntBump(k - 1, c0, f, g);
    }
  }

  lemma {:induction false} SumIntAdd(k: nat, f: int -> int, g: int -> int, h: int -> int)
    requires forall t :: 0 <= t < k ==> h(t) == f(t) + g(t)
    ensures SumInt(k, h) == SumInt(k, f) + SumInt(k, g)
  {
    if k > 0 {
      SumIntAdd(k - 1, f, g, h);
    }
  }

  lemma {:induction false} SumIntMono(k: nat, f: int -> int, g: int -> int)
    requires forall t :: 0 <= t < k ==> f(t) <= g(t)
    ensures SumInt(k, f) <= SumInt(k, g)
  {
    if k > 0 {
      SumIntMono(k - 1, f, g);
    }
  }

  /** A sum of integer terms that are all zero is zero. */
  lemma {:induction false} SumIntZero(k: nat, f: int -> int)
    requires forall t :: 0 <= t < k ==> f(t) == 0
    ensures SumInt(k, f) == 0
  {
    if k > 0 {
      SumIntZero(k - 1, f);
    }
  }

  /** Counting with 0/1 terms gives a number between 0 and the number of terms. */
  lemma {:induction false} SumIntCount(k: nat, f: int -> int)
    requires forall t :: 0 <= t < k ==> f(t) == 0 || f(t) == 1
    ensures 0 <= SumInt(k, f) <= k
  {
    if k > 0 {
      SumIntCount(k - 1, f);
    }
  }
}
