/** Points and vectors as sequences of real coordinates, with the element-wise operations
    NumPy provides on arrays (+, -, scalar *, /, np.dot, np.cross). */
module Vectors {

  type Vec = seq<real>

  function Add(v: Vec, w: Vec): (r: Vec)
    requires |v| == |w|
    ensures |r| == |v|
  {
    seq(|v|, i requires 0 <= i < |v| => v[i] + w[i])
  }

  function Sub(v: Vec, w: Vec): (r: Vec)
    requires |v| == |w|
    ensures |r| == |v|
  {
    seq(|v|, i requires 0 <= i < |v| => v[i] - w[i])
  }

  function Scale(k: real, v: Vec): (r: Vec)
    ensures |r| == |v|
  {
    seq(|v|, i requires 0 <= i < |v| => k * v[i])
  }

  /** v / k, element by element. */
  function DivBy(v: Vec, k: real): (r: Vec)
    requires k != 0.0
    ensures |r| == |v|
  {
    seq(|v|, i requires 0 <= i < |v| => v[i] / k)
  }

  /** np.dot of two vectors. */
  function Dot(v: Vec, w: Vec): real
    requires |v| == |w|
  {
    DotFrom(v, w, 0)
  }

  /** The sum of v[j] * w[j] over the positions j from i onwards. */
  function DotFrom(v: Vec, w: Vec, i: nat): real
    requires |v| == |w| && i <= |v|
    decreases |v| - i
  {
    if i == |v| then 0.0 else v[i] * w[i] + DotFrom(v, w, i + 1)
  }

  /** np.cross of two 3-vectors. */
  function Cross(a: Vec, b: Vec): (r: Vec)
    requires |a| == 3 && |b| == 3
    ensures |r| == 3
  {
    [a[1] * b[2] - a[2] * b[1], a[2] * b[0] - a[0] * b[2], a[0] * b[1] - a[1] * b[0]]
  }

  /** The squared Euclidean distance between two points. */
  function SqDist(p: Vec, q: Vec): real
    requires |p| == |q|
  {
    Dot(Sub(p, q), Sub(p, q))
  }

  lemma Dot2(v: Vec, w: Vec)
    requires |v| == 2 && |w| == 2
    ensures Dot(v, w) == v[0] * w[0] + v[1] * w[1]
  {
    assert DotFrom(v, w, 1) == v[1] * w[1] + DotFrom(v, w, 2);
  }

  lemma Dot3(v: Vec, w: Vec)
    requires |v| == 3 && |w| == 3
    ensures Dot(v, w) == v[0] * w[0] + v[1] * w[1] + v[2] * w[2]
  {
    assert DotFrom(v, w, 1) == v[1] * w[1] + DotFrom(v, w, 2);
    assert DotFrom(v, w, 2) == v[2] * w[2] + DotFrom(v, w, 3);
  }

  lemma DotSymmetric(v: Vec, w: Vec)
    requires |v| == |w|
    ensures Dot(v, w) == Dot(w, v)
  {
    DotFromSymmetric(v, w, 0);
  }

  lemma {:induction false} DotFromSymmetric(v: Vec, w: Vec, i: nat)
    requires |v| == |w| && i <= |v|
    ensures DotFrom(v, w, i) == DotFrom(w, v, i)
    decreases |v| - i
  {
    if i < |v| {
      DotFromSymmetric(v, w, i + 1);
    }
  }

  lemma DotAddLeft(u: Vec, v: Vec, w: Vec)
    requires |u| == |v| == |w|
    ensures Dot(Add(u, v), w) == Dot(u, w) + Dot(v, w)
  {
    DotFromAddLeft(u, v, w, 0);
  }

  lemma {:induction false} DotFromAddLeft(u: Vec, v: Vec, w: Vec, i: nat)
    requires |u| == |v| == |w| && i <= |u|
    ensures DotFrom(Add(u, v), w, i) == DotFrom(u, w, i) + DotFrom(v, w, i)
    decreases |u| - i
  {
    if i < |u| {
      DotFromAddLeft(u, v, w, i + 1);
      AddMulDistributes(u[i], v[i], w[i]);
    }
  }

  lemma DotSubLeft(u: Vec, v: Vec, w: Vec)
    requires |u| == |v| == |w|
    ensures Dot(Sub(u, v), w) == Dot(u, w) - Dot(v, w)
  {
    DotFromSubLeft(u, v, w, 0);
  }

  lemma {:induction false} DotFromSubLeft(u: Vec, v: Vec, w: Vec, i: nat)
    requires |u| == |v| == |w| && i <= |u|
    ensures DotFrom(Sub(u, v), w, i) == DotFrom(u, w, i) - DotFrom(v, w, i)
    decreases |u| - i
  {
    if i < |u| {
      DotFromSubLeft(u, v, w, i + 1);
      SubMulDistributes(u[i], v[i], w[i]);
    }
  }

  lemma DotScaleLeft(k: real, v: Vec, w: Vec)
    requires |v| == |w|
    ensures Dot(Scale(k, v), w) == k * Dot(v, w)
  {
    DotFromScaleLeft(k, v, w, 0);
  }

  lemma {:induction false} DotFromScaleLeft(k: real, v: Vec, w: Vec, i: nat)
    requires |v| == |w| && i <= |v|
    ensures DotFrom(Scale(k, v), w, i) == k * DotFrom(v, w, i)
    decreases |v| - i
  {
    if i < |v| {
      DotFromScaleLeft(k, v, w, i + 1);
      ScaleMulDistributes(k, v[i], w[i], DotFrom(v, w, i + 1));
    }
  }

  lemma AddMulDistributes(x: real, y: real, z: real)
    ensures (x + y) * z == x * z + y * z
  {
  }

  lemma SubMulDistributes(x: real, y: real, z: real)
    ensures (x - y) * z == x * z - y * z
  {
  }

  lemma ScaleMulDistributes(k: real, x: real, y: real, rest: real)
    ensures (k * x) * y + k * rest == k * (x * y + rest)
  {
  }

  lemma DivByIsScale(v: Vec, k: real)
    requires k != 0.0
    ensures DivBy(v, k) == Scale(1.0 / k, v)
  {
    forall i | 0 <= i < |v|
      ensures DivBy(v, k)[i] == Scale(1.0 / k, v)[i]
    {
      DivIsMulInverse(v[i], k);
    }
  }

  /** A vector with a nonzero coordinate has a positive squared length. */
  lemma DotSelfPositive(v: Vec, i: int)
    requires 0 <= i < |v| && v[i] != 0.0
    ensures 0.0 < Dot(v, v)
  {
    DotFromSelfPositive(v, 0, i);
  }

  lemma {:induction false} DotFromSelfPositive(v: Vec, j: nat, i: int)
    requires j <= i < |v| && v[i] != 0.0
    ensures 0.0 < DotFrom(v, v, j)
    decreases |v| - j
  {
    DotFromSelfNonNegative(v, j + 1);
    if i == j {
      SquarePositive(v[j]);
    } else {
      DotFromSelfPositive(v, j + 1, i);
      SquareNonNegative(v[j]);
    }
  }

  lemma {:induction false} DotFromSelfNonNegative(v: Vec, j: nat)
    requires j <= |v|
    ensures 0.0 <= DotFrom(v, v, j)
    decreases |v| - j
  {
    if j < |v| {
      DotFromSelfNonNegative(v, j + 1);
      SquareNonNegative(v[j]);
    }
  }

  /**
   * A square, kept behind a function so that facts about it are stated on
   * the function term and reach the arithmetic solver as linear facts.
   */
  function Square(x: real): real { x * x }

  lemma SquareNonNegative(x: real)
    ensures 0.0 <= Square(x)
  {
    if x < 0.0 {
      ProductPositive(-x, -x, Square(x));
    } else if x > 0.0 {
      ProductPositive(x, x, Square(x));
    }
  }

  lemma SquarePositive(x: real)
    requires x != 0.0
    ensures 0.0 < Square(x)
  {
    if x < 0.0 {
      ProductPositive(-x, -x, Square(x));
    } else {
      ProductPositive(x, x, Square(x));
    }
  }

  lemma ProductPositive(a: real, b: real, p: real)
    requires 0.0 < a && 0.0 < b && p == a * b
    ensures 0.0 < p
  {
  }

  lemma DivIsMulInverse(x: real, k: real)
    requires k != 0.0
    ensures x / k == (1.0 / k) * x
  {
  }

  lemma SqDistSymmetric(p: Vec, q: Vec)
    requires |p| == |q|
    ensures SqDist(p, q) == SqDist(q, p)
  {
    assert Sub(q, p) == Scale(-1.0, Sub(p, q));
    DotScaleLeft(-1.0, Sub(p, q), Sub(q, p));
    DotSymmetric(Sub(p, q), Sub(q, p));
    DotScaleLeft(-1.0, Sub(p, q), Sub(p, q));
  }

  /** The cross product is orthogonal to each of its factors. */
  lemma CrossOrthogonalLeft(a: Vec, b: Vec)
    requires |a| == 3 && |b| == 3
    ensures Dot(Cross(a, b), a) == 0.0
  {
    CrossDotLeft(a, b);
    Dot3Zero(Cross(a, b), a);
  }

  lemma CrossOrthogonalRight(a: Vec, b: Vec)
    requires |a| == 3 && |b| == 3
    ensures Dot(Cross(a, b), b) == 0.0
  {
    CrossDotRight(a, b);
    Dot3Zero(Cross(a, b), b);
  }

  lemma Dot3Zero(v: Vec, w: Vec)
    requires |v| == 3 && |w| == 3 && v[0] * w[0] + v[1] * w[1] + v[2] * w[2] == 0.0
    ensures Dot(v, w) == 0.0
  {
    Dot3(v, w);
  }

  lemma CrossComponents(a: Vec, b: Vec)
    requires |a| == 3 && |b| == 3
    ensures Cross(a, b)[0] == a[1] * b[2] - a[2] * b[1]
    ensures Cross(a, b)[1] == a[2] * b[0] - a[0] * b[2]
    ensures Cross(a, b)[2] == a[0] * b[1] - a[1] * b[0]
  {
  }

  lemma CrossDotLeft(a: Vec, b: Vec)
    requires |a| == 3 && |b| == 3
    ensures Cross(a, b)[0] * a[0] + Cross(a, b)[1] * a[1] + Cross(a, b)[2] * a[2] == 0.0
  {
    var c := Cross(a, b);
    CrossComponents(a, b);
    TripleProductLeft(a[0], a[1], a[2], c[0], c[1], c[2], b[0], b[1], b[2]);
  }

  lemma CrossDotRight(a: Vec, b: Vec)
    requires |a| == 3 && |b| == 3
    ensures Cross(a, b)[0] * b[0] + Cross(a, b)[1] * b[1] + Cross(a, b)[2] * b[2] == 0.0
  {
    var c := Cross(a, b);
    CrossComponents(a, b);
    TripleProductRight(a[0], a[1], a[2], c[0], c[1], c[2], b[0], b[1], b[2]);
  }

  lemma TripleProductLeft(a0: real, a1: real, a2: real, c0: real, c1: real, c2: real, b0: real, b1: real, b2: real)
    requires c0 == a1 * b2 - a2 * b1 && c1 == a2 * b0 - a0 * b2 && c2 == a0 * b1 - a1 * b0
    ensures c0 * a0 + c1 * a1 + c2 * a2 == 0.0
  {
    assert c0 * a0 == a0 * a1 * b2 - a0 * a2 * b1;
    assert c1 * a1 == a1 * a2 * b0 - a0 * a1 * b2;
    assert c2 * a2 == a0 * a2 * b1 - a1 * a2 * b0;
  }

  lemma TripleProductRight(a0: real, a1: real, a2: real, c0: real, c1: real, c2: real, b0: real, b1: real, b2: real)
    requires c0 == a1 * b2 - a2 * b1 && c1 == a2 * b0 - a0 * b2 && c2 == a0 * b1 - a1 * b0
    ensures c0 * b0 + c1 * b1 + c2 * b2 == 0.0
  {
    assert c0 * b0 == a1 * b0 * b2 - a2 * b0 * b1;
    assert c1 * b1 == a2 * b0 * b1 - a0 * b1 * b2;
    assert c2 * b2 == a0 * b1 * b2 - a1 * b0 * b2;
  }

  lemma ChordSymmetric(f: Vec, h: Vec)
    requires |f| == |h|
    ensures Add(Add(f, h), Sub(f, h)) == Scale(2.0, f)
  {
  }

  lemma DoubleOffset(f: Vec, h: Vec)
    requires |f| == |h|
    ensures Sub(Add(f, h), Sub(f, h)) == Scale(2.0, h)
  {
  }

  lemma DoubleScale(k: real, v: Vec)
    ensures Scale(2.0, Scale(k, v)) == Scale(2.0 * k, v)
  {
  }

  /** a (b v) = (a b) v. */
  lemma ScaleScale(a: real, b: real, v: Vec)
    ensures Scale(a, Scale(b, v)) == Scale(a * b, v)
  {
    forall i | 0 <= i < |v|
      ensures Scale(a, Scale(b, v))[i] == Scale(a * b, v)[i]
    {
      assert a * (b * v[i]) == (a * b) * v[i];
    }
  }

  /** f - b h = f + (-b) h. */
  lemma NegatedOffset(f: Vec, b: real, h: Vec)
    requires |f| == |h|
    ensures Sub(f, Scale(b, h)) == Add(f, Scale(-b, h))
  {
  }

  lemma NonZeroFactor(k: real, x: real)
    ensures k * x == 0.0 && x != 0.0 ==> k == 0.0
  {
  }

  lemma ScaleDivBy(k: real, v: Vec)
    requires k != 0.0
    ensures Scale(k, DivBy(v, k)) == v
  {
    forall i | 0 <= i < |v|
      ensures Scale(k, DivBy(v, k))[i] == v[i]
    {
      assert k * (v[i] / k) == v[i];
    }
  }
}
