/** Exact real arithmetic standing in for NumPy floating point: the tolerance test of
    np.isclose and an abstract square root (used by np.sqrt and np.linalg.norm). */
module Numerics {

  function Abs(x: real): (r: real)
    ensures 0.0 <= r && (r == x || r == -x)
  {
    if x < 0.0 then -x else x
  }

  /** NumPy's default tolerances of np.isclose. */
  const DefaultAtol: real := 0.00000001
  const DefaultRtol: real := 0.00001

  /** The numeric environment: the absolute and relative tolerance of np.isclose and the
      square root. Nothing is known about `sqrt` beyond what Valid() states. */
  datatype Arith = Arith(atol: real, rtol: real, sqrt: real -> real) {

    ghost predicate Valid() {
      && 0.0 <= atol
      && 0.0 <= rtol
      && forall x :: 0.0 <= x ==> 0.0 <= sqrt(x) && sqrt(x) * sqrt(x) == x
    }

    /** np.isclose(a, b): |a - b| <= atol + rtol * |b| (not symmetric in a and b). */
    predicate Close(a: real, b: real) {
      Abs(a - b) <= atol + rtol * Abs(b)
    }
  }

  /** The square root of a positive number is positive. */
  lemma SqrtPositive(n: Arith, x: real)
    requires n.Valid() && 0.0 < x
    ensures 0.0 < n.sqrt(x)
  {
    assert 0.0 <= n.sqrt(x) && n.sqrt(x) * n.sqrt(x) == x;
  }

  /** The square root squares back to its argument. */
  lemma SqrtSquared(n: Arith, x: real)
    requires n.Valid() && 0.0 <= x
    ensures n.sqrt(x) * n.sqrt(x) == x
  {
  }

  lemma MulPositive(x: real, y: real)
    requires 0.0 < x && 0.0 < y
    ensures 0.0 < x * y
  {
  }

  /** Every value is close to itself, whatever the tolerances (as long as they are not negative). */
  lemma CloseReflexive(n: Arith, a: real)
    requires n.Valid()
    ensures n.Close(a, a)
  {
  }

  /** Under NumPy's default tolerances 1 is not close to 0, so a decomposition on a unit
      vector never takes the zero-length branch. */
  lemma DefaultsSeparateOneFromZero(n: Arith)
    requires n.atol == DefaultAtol && n.rtol == DefaultRtol
    ensures !n.Close(1.0, 0.0)
  {
  }
}
