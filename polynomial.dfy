/**
 * The polynomial helpers of src/main.cpp: `polyeval`, which evaluates a
 * polynomial given by its coefficients (lowest degree first), and the part
 * of `polyfit` that builds the Vandermonde design matrix of the waypoints.
 * The least-squares solve of `polyfit` (a Householder QR decomposition in
 * Eigen) is not part of this model.
 *
 * `double` is modelled by exact `real` arithmetic, without rounding.
 */
module Polynomial {

  /** `pow(x, n)` for a natural exponent; `pow(x, 0)` is 1, also for `x == 0`. */
  function Pow(x: real, n: nat): real
  {
    if n == 0 then 1.0 else Pow(x, n - 1) * x
  }

  /** The polynomial `Σ_{i < |c|} c[i]·x^i`, adding the terms from the lowest degree up. */
  function Poly(c: seq<real>, x: real): real
  {
    if |c| == 0 then 0.0 else Poly(c[..|c| - 1], x) + c[|c| - 1] * Pow(x, |c| - 1)
  }

  /** Horner's rule `c0 + x·(c1 + x·(c2 + …))`: a second, independent reading of a polynomial. */
  function Horner(c: seq<real>, x: real): real
  {
    if |c| == 0 then 0.0 else c[0] + x * Horner(c[1..], x)
  }

  /** Splitting off the highest term. */
  lemma PolyLast(c: seq<real>, x: real)
    requires |c| > 0
    ensures Poly(c, x) == Poly(c[..|c| - 1], x) + c[|c| - 1] * Pow(x, |c| - 1)
  {
  }

  /** Splitting off the highest term, with its power written as one more factor of `x`. */
  lemma PolyLastStep(c: seq<real>, x: real)
    requires |c| > 1
    ensures Poly(c, x) == Poly(c[..|c| - 1], x) + c[|c| - 1] * (Pow(x, |c| - 2) * x)
  {
  }

  /** The arithmetic step of `PolyCons`: `(c0 + x·p) + a·(w·x) == c0 + x·(p + a·w)`. */
  lemma Distribute(c0: real, x: real, p: real, a: real, w: real)
    ensures (c0 + x * p) + a * (w * x) == c0 + x * (p + a * w)
  {
    assert a * (w * x) == x * (a * w);
  }

  /** Splitting off the constant term: `Σ c[i]·x^i == c[0] + x·Σ c[i+1]·x^i`. */
  lemma {:induction false} PolyCons(c: seq<real>, x: real)
    requires |c| > 0
    ensures Poly(c, x) == c[0] + x * Poly(c[1..], x)
    decreases |c|
  {
    var n := |c|;
    if n == 1 {
      assert c[..0] == [] && c[1..] == [];
    } else {
      var init, tail := c[..n - 1], c[1..];
      var mid := tail[..n - 2];
      calc {
        Poly(c, x);
      == { PolyLastStep(c, x); }
        Poly(init, x) + c[n - 1] * (Pow(x, n - 2) * x);
      == { PolyCons(init, x); assert init[1..] == mid; }
        (c[0] + x * Poly(mid, x)) + c[n - 1] * (Pow(x, n - 2) * x);
      == { Distribute(c[0], x, Poly(mid, x), c[n - 1], Pow(x, n - 2)); }
        c[0] + x * (Poly(mid, x) + c[n - 1] * Pow(x, n - 2));
      == { PolyLast(tail, x); }
        c[0] + x * Poly(tail, x);
      }
    }
  }

  /** The term-by-term sum and Horner's rule agree on every polynomial and every point. */
  lemma {:induction false} PolyIsHorner(c: seq<real>, x: real)
    ensures Poly(c, x) == Horner(c, x)
    decreases |c|
  {
    if |c| > 0 {
      PolyCons(c, x);
      PolyIsHorner(c[1..], x);
    }
  }

  /** At the origin a polynomial is its constant term; the empty polynomial is 0 everywhere. */
  lemma {:induction false} PolyAtZero(c: seq<real>)
    ensures |c| == 0 ==> Poly(c, 0.0) == 0.0
    ensures |c| > 0 ==> Poly(c, 0.0) == c[0]
  {
    if |c| > 0 {
      PolyCons(c, 0.0);
    }
  }

  /** `polyeval`: accumulates `coeffs[i] * pow(x, i)` for `i = 0 .. size-1`. */
  method PolyEval(coeffs: seq<real>, x: real) returns (result: real)
    ensures result == Poly(coeffs, x)
  {
    result := 0.0;
    for i := 0 to |coeffs|
      invariant result == Poly(coeffs[..i], x)
    {
      assert coeffs[..i + 1][..i] == coeffs[..i];
      result := result + coeffs[i] * Pow(x, i);
    }
    assert coeffs[..|coeffs|] == coeffs;
  }

  /** The powers `1, x, x^2, …, x^(n-1)`: one row of the design matrix. */
  function PowRow(x: real, n: nat): (row: seq<real>)
    ensures |row| == n
  {
    seq(n, i requires 0 <= i < n => Pow(x, i))
  }

  /** `Σ_{i < |a|} a[i]·b[i]`. */
  function Dot(a: seq<real>, b: seq<real>): real
    requires |a| == |b|
  {
    if |a| == 0 then 0.0 else Dot(a[..|a| - 1], b[..|b| - 1]) + a[|a| - 1] * b[|b| - 1]
  }

  /**
   * A row of the design matrix applied to a coefficient vector is that
   * polynomial at the row's abscissa, so `A·c - y` is the vector of fitting
   * residuals `Poly(c, x_j) - y_j` that the least-squares solve minimises.
   */
  lemma {:induction false} DesignRowIsPoly(x: real, c: seq<real>)
    ensures Dot(PowRow(x, |c|), c) == Poly(c, x)
    decreases |c|
  {
    var n := |c|;
    if n > 0 {
      assert PowRow(x, n)[..n - 1] == PowRow(x, n - 1);
      DesignRowIsPoly(x, c[..n - 1]);
    }
  }

  /** Row `j` of a matrix, as a sequence. */
  ghost function MatrixRow(A: array2<real>, j: nat): (row: seq<real>)
    reads A
    requires j < A.Length0
    ensures |row| == A.Length1
  {
    seq(A.Length1, i requires 0 <= i < A.Length1 reads A => A[j, i])
  }

  /**
   * The matrix-building part of `polyfit`: under the sizes the code asserts, fills an
   * `m × (order+1)` matrix with ones in column 0 and each further column as
   * the previous one times the row's `x`, so that `A[j, i] == x_j^i`.
   */
  method PolyfitDesignMatrix(xvals: seq<real>, yvals: seq<real>, order: int) returns (A: array2<real>)
    requires |xvals| == |yvals|
    requires 1 <= order <= |xvals| - 1
    ensures fresh(A)
    ensures A.Length0 == |xvals| && A.Length1 == order + 1
    ensures forall j, i :: 0 <= j < A.Length0 && 0 <= i < A.Length1 ==> A[j, i] == Pow(xvals[j], i)
    ensures forall j :: 0 <= j < A.Length0 ==> MatrixRow(A, j) == PowRow(xvals[j], order + 1)
  {
    var m := |xvals|;
    A := new real[m, order + 1];
    for i := 0 to m
      invariant forall r :: 0 <= r < i ==> A[r, 0] == 1.0
    {
      A[i, 0] := 1.0;
    }
    for j := 0 to m
      invariant forall r, c :: 0 <= r < j && 0 <= c <= order ==> A[r, c] == Pow(xvals[r], c)
      invariant forall r :: j <= r < m ==> A[r, 0] == 1.0
    {
      for i := 0 to order
        invariant forall r, c :: 0 <= r < j && 0 <= c <= order ==> A[r, c] == Pow(xvals[r], c)
        invariant forall r :: j <= r < m ==> A[r, 0] == 1.0
        invariant forall c :: 0 <= c <= i ==> A[j, c] == Pow(xvals[j], c)
      {
        A[j, i + 1] := A[j, i] * xvals[j];
        assert A[j, i + 1] == Pow(xvals[j], i + 1);
      }
    }
    forall j | 0 <= j < m ensures MatrixRow(A, j) == PowRow(xvals[j], order + 1) {
      assert forall i :: 0 <= i <= order ==> MatrixRow(A, j)[i] == PowRow(xvals[j], order + 1)[i];
    }
  }
}
