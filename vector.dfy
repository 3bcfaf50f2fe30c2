/**
 * The default operations of the library's real vector: in-place addition and
 * subtraction of a scalar or of another vector, the dot product, and the
 * conversions to a one-column and a one-row matrix. The vector is array
 * backed, as the library's dense vector is.
 */
module Linear {
  import opened Wrappers
  import opened Sums

  datatype VectorError =
    | NotConform      // the two vectors have different counts
    | IndexOutOfRange // an element past the end of the shorter vector was read

  // ---------------------------------------------------------------------
  // Element-wise arithmetic on values
  // ---------------------------------------------------------------------

  /** Every element shifted by x. */
  function AddScalar(s: seq<real>, x: real): seq<real>
  {
    seq(|s|, i requires 0 <= i < |s| => s[i] + x)
  }

  /** The element-wise sum of two vectors of equal length. */
  function AddSeq(a: seq<real>, b: seq<real>): seq<real>
    requires |a| == |b|
  {
    seq(|a|, i requires 0 <= i < |a| => a[i] + b[i])
  }

  /** The element-wise difference of two vectors of equal length. */
  function SubSeq(a: seq<real>, b: seq<real>): seq<real>
    requires |a| == |b|
  {
    seq(|a|, i requires 0 <= i < |a| => a[i] - b[i])
  }

  /** The element-wise negation. */
  function Negate(s: seq<real>): seq<real>
  {
    seq(|s|, i requires 0 <= i < |s| => -s[i])
  }

  /** Element i, or 0 past the end. */
  function Get(s: seq<real>, i: int): real
  {
    if 0 <= i < |s| then s[i] else 0.0
  }

  /** The sum of the products of the first k pairs of elements. */
  function DotUpTo(a: seq<real>, b: seq<real>, k: nat): real
  {
    Sum(k, i => Get(a, i) * Get(b, i))
  }

  /** The dot product of two vectors of equal length. */
  function Dot(a: seq<real>, b: seq<real>): real
    requires |a| == |b|
  {
    DotUpTo(a, b, |a|)
  }

  /** Shifting by x and then by -x restores the vector. */
  lemma AddScalarCancels(s: seq<real>, x: real)
    ensures AddScalar(AddScalar(s, x), -x) == s
  {
    assert forall i :: 0 <= i < |s| ==> AddScalar(AddScalar(s, x), -x)[i] == s[i];
  }

  /** Subtracting a vector is adding its negation. */
  lemma SubIsAddNegated(a: seq<real>, b: seq<real>)
    requires |a| == |b|
    ensures SubSeq(a, b) == AddSeq(a, Negate(b))
  {
  }

  /** Adding a vector and then subtracting it restores the original. */
  lemma AddThenSubRestores(a: seq<real>, b: seq<real>)
    requires |a| == |b|
    ensures SubSeq(AddSeq(a, b), b) == a
  {
    assert forall i :: 0 <= i < |a| ==> SubSeq(AddSeq(a, b), b)[i] == a[i];
  }

  /** The dot product is symmetric. */
  lemma DotSymmetric(a: seq<real>, b: seq<real>)
    requires |a| == |b|
    ensures Dot(a, b) == Dot(b, a)
  {
    SumExt(|a|, i => Get(a, i) * Get(b, i), i => Get(b, i) * Get(a, i));
  }

  /** The dot product distributes over vector addition on the left. */
  lemma DotAddLeft(a: seq<real>, b: seq<real>, c: seq<real>)
    requires |a| == |b| == |c|
    ensures Dot(AddSeq(a, b), c) == Dot(a, c) + Dot(b, c)
  {
    var s := AddSeq(a, b);
    forall i | 0 <= i < |a|
      ensures Get(s, i) * Get(c, i) == Get(a, i) * Get(c, i) + Get(b, i) * Get(c, i)
    {
      assert Get(s, i) == Get(a, i) + Get(b, i);
    }
    SumAdd(|a|, i => Get(a, i) * Get(c, i), i => Get(b, i) * Get(c, i), i => Get(s, i) * Get(c, i));
  }

  // ---------------------------------------------------------------------
  // The array-backed vector
  // ---------------------------------------------------------------------

  class Vector {
    const values: array<real>

    constructor (s: seq<real>)
      ensures values[..] == s
      ensures fresh(values)
    {
      values := new real[|s|](i requires 0 <= i < |s| => s[i]);
    }

    function Count(): nat
    {
      values.Length
    }

    /** Adds x to every element in place and returns the vector itself. */
    method PlusScalar(x: real) returns (r: Vector)
      modifies values
      ensures r == this
      ensures values[..] == AddScalar(old(values[..]), x)
    {
      var i := 0;
      while i < values.Length
        invariant 0 <= i <= values.Length
        invariant forall j :: 0 <= j < i ==> values[j] == old(values[j]) + x
        invariant forall j :: i <= j < values.Length ==> values[j] == old(values[j])
      {
        values[i] := values[i] + x;
        i := i + 1;
      }
      return this;
    }

    /**
     * Adds b element by element in place and returns the vector itself; b
     * may be this very vector, in which case every element doubles.
     */
    method PlusVector(b: Vector) returns (r: Result<Vector, VectorError>)
      modifies values
      ensures Count() != b.Count() ==> r == Failure(NotConform) && values[..] == old(values[..])
      ensures Count() == b.Count() ==>
                r == Success(this) && values[..] == AddSeq(old(values[..]), old(b.values[..]))
      ensures b.values != values ==> b.values[..] == old(b.values[..])
    {
      if values.Length != b.values.Length {
        return Failure(NotConform);
      }
      var i := 0;
      while i < values.Length
        invariant 0 <= i <= values.Length
        invariant forall j :: 0 <= j < i ==> values[j] == old(values[j]) + old(b.values[j])
        invariant forall j :: i <= j < values.Length ==> values[j] == old(values[j])
        invariant forall j :: i <= j < values.Length ==> b.values[j] == old(b.values[j])
      {
        values[i] := values[i] + b.values[i];
        i := i + 1;
      }
      return Success(this);
    }

    /** Subtracts x from every element: exactly adding -x. */
    method MinusScalar(x: real) returns (r: Vector)
      modifies values
      ensures r == this
      ensures values[..] == AddScalar(old(values[..]), -x)
    {
      r := PlusScalar(-x);
    }

    /** Subtracts b element by element in place and returns the vector itself. */
    method MinusVector(b: Vector) returns (r: Result<Vector, VectorError>)
      modifies values
      ensures Count() != b.Count() ==> r == Failure(NotConform) && values[..] == old(values[..])
      ensures Count() == b.Count() ==>
                r == Success(this) && values[..] == SubSeq(old(values[..]), old(b.values[..]))
      ensures b.values != values ==> b.values[..] == old(b.values[..])
    {
      if values.Length != b.values.Length {
        return Failure(NotConform);
      }
      var i := 0;
      while i < values.Length
        invariant 0 <= i <= values.Length
        invariant forall j :: 0 <= j < i ==> values[j] == old(values[j]) - old(b.values[j])
        invariant forall j :: i <= j < values.Length ==> values[j] == old(values[j])
        invariant forall j :: i <= j < values.Length ==> b.values[j] == old(b.values[j])
      {
        values[i] := values[i] + -b.values[i];
        i := i + 1;
      }
      return Success(this);
    }

    /**
     * The sum of the products of corresponding elements. The loop runs to
     * the larger count, so vectors of different counts read past the end of
     * the shorter one.
     */
    method DotProd(b: Vector) returns (r: Result<real, VectorError>)
      ensures Count() != b.Count() <==> r == Failure(IndexOutOfRange)
      ensures Count() == b.Count() ==> r == Success(Dot(values[..], b.values[..]))
    {
      if values.Length != b.values.Length {
        return Failure(IndexOutOfRange);
      }
      var s := 0.0;
      var i := 0;
      while i < values.Length
        invariant 0 <= i <= values.Length
        invariant s == DotUpTo(values[..], b.values[..], i)
      {
        s := s + values[i] * b.values[i];
        i := i + 1;
      }
      return Success(s);
    }

    /** A new count-by-1 matrix holding the vector as its only column. */
    method AsMatrix() returns (m: array2<real>)
      ensures fresh(m)
      ensures m.Length0 == Count() && m.Length1 == 1
      ensures forall i :: 0 <= i < Count() ==> m[i, 0] == values[i]
    {
      m := new real[values.Length, 1];
      var i := 0;
      while i < values.Length
        invariant 0 <= i <= values.Length
        invariant forall j :: 0 <= j < i ==> m[j, 0] == values[j]
      {
        m[i, 0] := values[i];
        i := i + 1;
      }
    }

    /** A new 1-by-count matrix holding the vector as its only row. */
    method AsMatrixT() returns (m: array2<real>)
      ensures fresh(m)
      ensures m.Length0 == 1 && m.Length1 == Count()
      ensures forall i :: 0 <= i < Count() ==> m[0, i] == values[i]
    {
      m := new real[1, values.Length];
      var i := 0;
      while i < values.Length
        invariant 0 <= i <= values.Length
        invariant forall j :: 0 <= j < i ==> m[0, j] == values[j]
      {
        m[0, i] := values[i];
        i := i + 1;
      }
    }
  }

  /** Adding b to a and then subtracting it leaves a as it was, when b is a different vector. */
  method PlusMinusRestores(a: Vector, b: Vector) returns (ra: Result<Vector, VectorError>, rb: Result<Vector, VectorError>)
    requires a.values != b.values
    modifies a.values
    ensures a.values[..] == old(a.values[..])
    ensures ra.Success? <==> a.Count() == b.Count()
    ensures rb.Success? <==> a.Count() == b.Count()
  {
    ra := a.PlusVector(b);
    rb := a.MinusVector(b);
    if a.Count() == b.Count() {
      AddThenSubRestores(old(a.values[..]), b.values[..]);
    }
  }
}
