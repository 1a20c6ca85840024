/** The weight-vector arithmetic of the learner. Vectors are sequences of
    reals; floating-point rounding is not modelled. Where the source indexes a
    second vector by the positions of the first, the second must be at least
    as long (a shorter one makes the source panic). */
module Vectors {
  type Vector = seq<real>

  /** `Equals`: the same length and the same entries, position by position. */
  method Equals(v: Vector, w: Vector) returns (r: bool)
    ensures r <==> v == w
  {
    if |v| != |w| {
      return false;
    }
    var i := 0;
    while i < |v|
      invariant 0 <= i <= |v|
      invariant v[..i] == w[..i]
    {
      if v[i] != w[i] {
        assert v[i] == v[..i + 1][i] && w[i] == w[..i + 1][i];
        return false;
      }
      assert v[..i + 1] == v[..i] + [v[i]] && w[..i + 1] == w[..i] + [w[i]];
      i := i + 1;
    }
    assert v == v[..i] && w == w[..i];
    return true;
  }

  /** `vectOp`: op applied position by position over the length of v1. */
  function VectOp(v1: Vector, v2: Vector, op: (real, real) -> real): (v: Vector)
    requires |v2| >= |v1|
    ensures |v| == |v1|
  {
    seq(|v1|, i requires 0 <= i < |v1| => op(v1[i], v2[i]))
  }

  function Sum(v1: Vector, v2: Vector): (v: Vector)
    requires |v2| >= |v1|
    ensures |v| == |v1|
    ensures forall i :: 0 <= i < |v| ==> v[i] == v1[i] + v2[i]
  {
    VectOp(v1, v2, (a, b) => a + b)
  }

  function Diff(v1: Vector, v2: Vector): (v: Vector)
    requires |v2| >= |v1|
    ensures |v| == |v1|
    ensures forall i :: 0 <= i < |v| ==> v[i] == v1[i] - v2[i]
  {
    VectOp(v1, v2, (a, b) => a - b)
  }

  function Scale(w: Vector, k: real): (v: Vector)
    ensures |v| == |w|
  {
    seq(|w|, i requires 0 <= i < |w| => k * w[i])
  }

  function Zeros(n: nat): (v: Vector)
    ensures |v| == n
  {
    seq(n, i => 0.0)
  }

  /** Subtracting what was added gives back the original vector. */
  lemma DiffUndoesSum(v: Vector, w: Vector)
    requires |w| >= |v|
    ensures Diff(Sum(v, w), w) == v
  {
  }

  /** Adding back what was subtracted gives back the original vector. */
  lemma SumUndoesDiff(v: Vector, w: Vector)
    requires |w| >= |v|
    ensures Sum(Diff(v, w), w) == v
  {
  }

  /** On vectors of one length the sum does not depend on the order. */
  lemma SumCommutative(v: Vector, w: Vector)
    requires |v| == |w|
    ensures Sum(v, w) == Sum(w, v)
  {
  }

  /** A vector minus itself is zero, and adding zero changes nothing. */
  lemma DiffSelfIsZero(v: Vector)
    ensures Diff(v, v) == Zeros(|v|)
    ensures Sum(v, Zeros(|v|)) == v
  {
  }

  /** Scaling by one is the identity and scaling by zero gives zeros. */
  lemma ScaleUnitAndZero(w: Vector)
    ensures Scale(w, 1.0) == w
    ensures Scale(w, 0.0) == Zeros(|w|)
  {
  }

  /** Scaling twice is scaling once by the product; scaling distributes over
      differences. */
  lemma ScaleLaws(v: Vector, w: Vector, a: real, b: real)
    requires |v| == |w|
    ensures Scale(Scale(v, a), b) == Scale(v, a * b)
    ensures Scale(Diff(v, w), a) == Diff(Scale(v, a), Scale(w, a))
  {
    forall i | 0 <= i < |v| ensures Scale(Scale(v, a), b)[i] == Scale(v, a * b)[i] {
      assert b * (a * v[i]) == (a * b) * v[i];
    }
    forall i | 0 <= i < |v| ensures Scale(Diff(v, w), a)[i] == Diff(Scale(v, a), Scale(w, a))[i] {
      assert a * (v[i] - w[i]) == a * v[i] - a * w[i];
    }
  }

  // ---------------------------------------------------------------------------
  // norms

  /** The square of a real, kept as a function of its own so that the
      solver treats squares of equal reals as equal. */
  function Sq(x: real): real
  {
    x * x
  }

  /** The sum of the squared entries. */
  function SquaredNorm(w: Vector): (r: real)
  {
    if |w| == 0 then 0.0 else Sq(w[0]) + SquaredNorm(w[1..])
  }

  /** `Norm2` returns the square root of the sum of squares; n is that value
      exactly when it is non-negative and squares to the sum. */
  ghost predicate IsNorm2(w: Vector, n: real)
  {
    n >= 0.0 && Sq(n) == SquaredNorm(w)
  }

  /** The Euclidean norm is determined by the vector. */
  lemma Norm2Unique(w: Vector, n: real, m: real)
    requires IsNorm2(w, n) && IsNorm2(w, m)
    ensures n == m
  {
    assert (n - m) * (n + m) == Sq(n) - Sq(m);
    if n + m == 0.0 {
      assert n == 0.0 && m == 0.0;
    }
  }

  /** A vector of zeros has norm zero. */
  lemma {:induction false} ZerosNorm(n: nat)
    ensures IsNorm2(Zeros(n), 0.0)
  {
    if n > 0 {
      ZerosNorm(n - 1);
      assert Zeros(n)[1..] == Zeros(n - 1);
    }
  }

  lemma SqProduct(k: real, x: real)
    ensures Sq(k * x) == Sq(k) * Sq(x)
  {
    assert (k * x) * (k * x) == (k * k) * (x * x);
  }

  lemma Distribute(c: real, a: real, b: real)
    ensures c * a + c * b == c * (a + b)
  {
  }

  lemma ScaleTail(w: Vector, k: real)
    requires |w| > 0
    ensures Scale(w, k)[1..] == Scale(w[1..], k)
  {
    var s := Scale(w, k);
    forall i | 0 <= i < |w| - 1 ensures s[1..][i] == Scale(w[1..], k)[i] {
      var y := w[i + 1];
      assert w[1..][i] == y;
      assert s[1..][i] == k * y;
      assert Scale(w[1..], k)[i] == k * y;
    }
  }

  /** Scaling by k multiplies the squared norm by k². */
  lemma {:induction false} SquaredNormScale(w: Vector, k: real)
    ensures SquaredNorm(Scale(w, k)) == Sq(k) * SquaredNorm(w)
  {
    if |w| > 0 {
      SquaredNormScale(w[1..], k);
      ScaleTail(w, k);
      SqProduct(k, w[0]);
      Distribute(Sq(k), Sq(w[0]), SquaredNorm(w[1..]));
    }
  }

  lemma SqInverse(n: real)
    requires n != 0.0
    ensures Sq(1.0 / n) * Sq(n) == 1.0
  {
    var m := 1.0 / n;
    assert m * n == 1.0;
    assert (m * m) * (n * n) == (m * n) * (m * n);
  }

  /** The source's test values for `Norm2`. */
  lemma Norm2Examples(n: real)
    ensures IsNorm2([], 0.0)
    ensures IsNorm2([1.0], 1.0) && IsNorm2([2.0], 2.0)
    ensures IsNorm2([4.0, 2.0], n) <==> n >= 0.0 && n * n == 20.0
  {
    assert [2.0][1..] == [] && [1.0][1..] == [];
    assert SquaredNorm([2.0]) == 4.0 && SquaredNorm([1.0]) == 1.0;
    assert [4.0, 2.0][1..] == [2.0];
    assert SquaredNorm([4.0, 2.0]) == 16.0 + SquaredNorm([2.0]);
  }

  /** `Normalize`: every entry divided by the norm the given function computes,
      with a zero norm replaced by one. */
  function Normalize(w: Vector, norm: Vector -> real): (v: Vector)
    ensures |v| == |w|
  {
    var n := if norm(w) == 0.0 then 1.0 else norm(w);
    seq(|w|, i requires 0 <= i < |w| => w[i] / n)
  }

  /** Normalizing is scaling by the inverse norm; a zero norm leaves the vector
      as it is. */
  lemma NormalizeIsScale(w: Vector, norm: Vector -> real)
    ensures norm(w) == 0.0 ==> Normalize(w, norm) == w
    ensures norm(w) != 0.0 ==> Normalize(w, norm) == Scale(w, 1.0 / norm(w))
  {
    if norm(w) != 0.0 {
      forall i | 0 <= i < |w| ensures Normalize(w, norm)[i] == Scale(w, 1.0 / norm(w))[i] {
        assert w[i] / norm(w) == (1.0 / norm(w)) * w[i];
      }
    }
  }

  /** Normalizing by the Euclidean norm gives a unit vector, unless that norm
      is zero, which it is for a vector of zeros, left as it is. */
  lemma NormalizeToUnit(w: Vector, norm: Vector -> real)
    requires IsNorm2(w, norm(w))
    ensures norm(w) != 0.0 ==> IsNorm2(Normalize(w, norm), 1.0)
    ensures norm(w) == 0.0 ==> Normalize(w, norm) == w
    ensures w == Zeros(|w|) ==> Normalize(w, norm) == w
  {
    var n := norm(w);
    NormalizeIsScale(w, norm);
    if n != 0.0 {
      SquaredNormScale(w, 1.0 / n);
      SqInverse(n);
    }
    if w == Zeros(|w|) {
      ZerosNorm(|w|);
      Norm2Unique(w, n, 0.0);
    }
  }

  // ---------------------------------------------------------------------------
  // averages

  /** The vectors all have at least the length of the first one. */
  predicate ColumnsDefined(arr: seq<Vector>)
  {
    forall j :: 0 <= j < |arr| ==> |arr[j]| >= |arr[0]|
  }

  /** The sum of the i-th entries of the vectors. */
  function ColumnSum(arr: seq<Vector>, i: nat): real
    requires forall j :: 0 <= j < |arr| ==> i < |arr[j]|
  {
    if |arr| == 0 then 0.0 else arr[0][i] + ColumnSum(arr[1..], i)
  }

  /** `Avg`: the entry-wise mean over the length of the first vector. */
  function Avg(arr: seq<Vector>): (v: Vector)
    requires ColumnsDefined(arr)
    ensures |arr| == 0 ==> v == []
    ensures |arr| > 0 ==> |v| == |arr[0]|
  {
    if |arr| == 0 then []
    else seq(|arr[0]|, i requires 0 <= i < |arr[0]| => ColumnSum(arr, i) / (|arr| as real))
  }

  lemma {:induction false} ColumnSumConstant(arr: seq<Vector>, w: Vector, i: nat)
    requires i < |w| && forall j :: 0 <= j < |arr| ==> arr[j] == w
    ensures ColumnSum(arr, i) == (|arr| as real) * w[i]
  {
    if |arr| > 0 {
      ColumnSumConstant(arr[1..], w, i);
    }
  }

  /** The mean of copies of one vector is that vector. */
  lemma AvgConstant(arr: seq<Vector>, w: Vector)
    requires |arr| > 0 && forall j :: 0 <= j < |arr| ==> arr[j] == w
    ensures Avg(arr) == w
  {
    forall i | 0 <= i < |w| ensures Avg(arr)[i] == w[i] {
      ColumnSumConstant(arr, w, i);
    }
  }

  lemma {:induction false} ColumnSumAppend(arr: seq<Vector>, brr: seq<Vector>, i: nat)
    requires forall j :: 0 <= j < |arr| ==> i < |arr[j]|
    requires forall j :: 0 <= j < |brr| ==> i < |brr[j]|
    ensures ColumnSum(arr + brr, i) == ColumnSum(arr, i) + ColumnSum(brr, i)
  {
    if |arr| == 0 {
      assert arr + brr == brr;
    } else {
      assert (arr + brr)[0] == arr[0];
      assert (arr + brr)[1..] == arr[1..] + brr;
      ColumnSumAppend(arr[1..], brr, i);
    }
  }

  /** The mean of two equally long runs of vectors is the mean of their
      means. */
  lemma AvgHalves(arr: seq<Vector>, brr: seq<Vector>)
    requires |arr| == |brr| > 0
    requires forall j :: 0 <= j < |arr| ==> |arr[j]| == |arr[0]|
    requires forall j :: 0 <= j < |brr| ==> |brr[j]| == |arr[0]|
    ensures ColumnsDefined(arr + brr) && ColumnsDefined(arr) && ColumnsDefined(brr)
    ensures Avg(arr + brr) == Scale(Sum(Avg(arr), Avg(brr)), 0.5)
  {
    var n := |arr| as real;
    forall i | 0 <= i < |arr[0]| ensures Avg(arr + brr)[i] == Scale(Sum(Avg(arr), Avg(brr)), 0.5)[i] {
      ColumnSumAppend(arr, brr, i);
      var x := ColumnSum(arr, i);
      var y := ColumnSum(brr, i);
      assert |arr + brr| as real == 2.0 * n;
      assert (x + y) / (2.0 * n) == 0.5 * (x / n + y / n);
    }
  }

  /** The source's test values for `Sum`, `Diff`, `Scale`, `Avg` and
      `Normalize`. */
  lemma Examples()
    ensures Sum([1.0, 2.0], [3.0, 4.0]) == [4.0, 6.0]
    ensures Diff([4.0, 6.0], [3.0, 4.0]) == [1.0, 2.0]
    ensures Scale([1.0, 2.0], 10.0) == [10.0, 20.0]
    ensures Avg([[1.0, 2.0, 3.0], [4.0, 5.0, 6.0]]) == [2.5, 3.5, 4.5]
    ensures Normalize([1.0, 2.0], w => 0.0) == [1.0, 2.0]
  {
    var arr: seq<Vector> := [[1.0, 2.0, 3.0], [4.0, 5.0, 6.0]];
    assert arr[1..][1..] == [];
    forall i | 0 <= i < 3 ensures Avg(arr)[i] == [2.5, 3.5, 4.5][i] {
      assert arr[1..][0] == arr[1];
      assert ColumnSum(arr[1..][1..], i) == 0.0;
      assert ColumnSum(arr[1..], i) == arr[1][i];
      assert ColumnSum(arr, i) == arr[0][i] + arr[1][i];
    }
  }
}
