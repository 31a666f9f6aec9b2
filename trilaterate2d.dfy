/** 2D trilateration (trilaterate2d.py): the intersection of two circles, the three
    strategies that pick one point from the intersections of three circles, and the
    linear system the least-squares variant hands to its solver. */
module Trilateration2D {
  import opened Results
  import opened Numerics
  import opened Vectors
  import opened Geometry

  /** is_on_circle(c, r, p): the distance from c to p is close to r. */
  predicate IsOnCircle(n: Arith, c: Vec, r: real, p: Vec)
    requires n.Valid() && |c| == |p|
  {
    n.Close(Distance(n, c, p), r)
  }

  /** perpendicular(p): p rotated by a quarter turn. */
  function Perpendicular(p: Vec): (q: Vec)
    requires |p| == 2
    ensures |q| == 2
    ensures Dot(q, p) == 0.0
    ensures Dot(q, q) == Dot(p, p)
  {
    Dot2([-p[1], p[0]], p);
    Dot2([-p[1], p[0]], [-p[1], p[0]]);
    Dot2(p, p);
    [-p[1], p[0]]
  }

  /** Two quarter turns are a half turn. */
  lemma PerpendicularTwice(p: Vec)
    requires |p| == 2
    ensures Perpendicular(Perpendicular(p)) == Scale(-1.0, p)
  {
  }

  /** The coordinate of the foot of the chord along c2 - c1, in units of d, from the
      radii in units of d: alpha = (u^2 - w^2 + 1) / 2. */
  function CircleAlpha(u: real, w: real): real {
    (u * u - w * w + 1.0) / 2.0
  }

  /** The square of the half chord in units of d: u^2 - alpha^2. */
  function CircleDisc(u: real, w: real): real {
    u * u - CircleAlpha(u, w) * CircleAlpha(u, w)
  }

  /** The half chord in units of d: beta = sqrt(u^2 - alpha^2). */
  function CircleBeta(n: Arith, u: real, w: real): real {
    n.sqrt(CircleDisc(u, w))
  }

  /** circle_intersect(c1, c2, r1, r2): the equal-circles test comes first, then the
      no-intersection test; otherwise the two points c1 + alpha v1 +- beta v2, with
      v1 = c2 - c1 and v2 its perpendicular. The two points are symmetric about the foot
      c1 + alpha v1 and differ by 2 beta v2. */
  function CircleIntersect(n: Arith, c1: Vec, c2: Vec, r1: real, r2: real): (r: Result<Pair>)
    requires n.Valid() && |c1| == 2 && |c2| == 2
    ensures var d := Distance(n, c1, c2);
      && (r == Err(CirclesEqual) <==> n.Close(d, 0.0) && n.Close(r1, r2))
      && (r == Err(NoIntersection) <==>
            !(n.Close(d, 0.0) && n.Close(r1, r2)) && (d > r1 + r2 || d < Abs(r1 - r2)))
      && (r.Err? ==> r.error == CirclesEqual || r.error == NoIntersection)
    ensures r.Ok? ==>
      var d := Distance(n, c1, c2);
      var v1 := Sub(c2, c1);
      var foot := Add(c1, Scale(CircleAlpha(r1 / d, r2 / d), v1));
      && 0.0 < d
      && |r.value.first| == 2 && |r.value.second| == 2
      && Add(r.value.first, r.value.second) == Scale(2.0, foot)
      && Sub(r.value.first, r.value.second) == Scale(2.0 * CircleBeta(n, r1 / d, r2 / d), Perpendicular(v1))
      && Dot(Sub(r.value.first, r.value.second), v1) == 0.0
  {
    var d := Distance(n, c1, c2);
    if n.Close(d, 0.0) && n.Close(r1, r2) then Err(CirclesEqual)
    else if d > r1 + r2 || d < Abs(r1 - r2) then Err(NoIntersection)
    else
      GuardsLeavePositiveDistance(n, c1, c2, r1, r2);
      var alpha := CircleAlpha(r1 / d, r2 / d);
      var beta := CircleBeta(n, r1 / d, r2 / d);
      var v1 := Sub(c2, c1);
      var v2 := Perpendicular(v1);
      var p1 := Add(Add(c1, Scale(alpha, v1)), Scale(beta, v2));
      var p2 := Sub(Add(c1, Scale(alpha, v1)), Scale(beta, v2));
      ChordSymmetric(Add(c1, Scale(alpha, v1)), Scale(beta, v2));
      DoubleOffset(Add(c1, Scale(alpha, v1)), Scale(beta, v2));
      DoubleScale(beta, v2);
      ChordOrthogonal(Add(c1, Scale(alpha, v1)), v1, beta);
      Ok(Pair(p1, p2))
  }

  /** Once both guards of circle_intersect pass, d is not zero: a zero distance with
      radii that are not close is caught by the second guard. */
  lemma GuardsLeavePositiveDistance(n: Arith, c1: Vec, c2: Vec, r1: real, r2: real)
    requires n.Valid() && |c1| == 2 && |c2| == 2
    requires var d := Distance(n, c1, c2);
      !(n.Close(d, 0.0) && n.Close(r1, r2)) && !(d > r1 + r2 || d < Abs(r1 - r2))
    ensures 0.0 < Distance(n, c1, c2)
  {
    CloseReflexive(n, 0.0);
    CloseReflexive(n, r1);
  }

  /** Once both guards pass, the argument of the square root is not negative. */
  lemma GuardsLeaveRealRoot(n: Arith, c1: Vec, c2: Vec, r1: real, r2: real)
    requires n.Valid() && |c1| == 2 && |c2| == 2
    requires var d := Distance(n, c1, c2);
      !(n.Close(d, 0.0) && n.Close(r1, r2)) && !(d > r1 + r2 || d < Abs(r1 - r2))
    ensures var d := Distance(n, c1, c2);
      0.0 < d && 0.0 <= (r1 / d) * (r1 / d) - CircleAlpha(r1 / d, r2 / d) * CircleAlpha(r1 / d, r2 / d)
  {
    GuardsLeavePositiveDistance(n, c1, c2, r1, r2);
    var d := Distance(n, c1, c2);
    RatioBounds(r1, r2, d);
    DiscriminantNonNegative(r1 / d, r2 / d);
  }

  /** |r1 - r2| <= d <= r1 + r2 with d > 0, in units of d. */
  lemma RatioBounds(r1: real, r2: real, d: real)
    requires 0.0 < d && Abs(r1 - r2) <= d <= r1 + r2
    ensures -1.0 <= r1 / d - r2 / d <= 1.0 && 1.0 <= r1 / d + r2 / d
  {
    DivSub(r1, r2, d);
    DivAdd(r1, r2, d);
    DivSelf(d);
    DivMonotone(r1 - r2, d, d);
    DivMonotone(-d, r1 - r2, d);
    DivMonotone(d, r1 + r2, d);
  }

  lemma DivSub(x: real, y: real, d: real)
    requires d != 0.0
    ensures x / d - y / d == (x - y) / d
  {
  }

  lemma DivAdd(x: real, y: real, d: real)
    requires d != 0.0
    ensures x / d + y / d == (x + y) / d
  {
  }

  lemma DivSelf(d: real)
    requires d != 0.0
    ensures d / d == 1.0 && -d / d == -1.0
  {
  }

  lemma DivMonotone(x: real, y: real, d: real)
    requires 0.0 < d && x <= y
    ensures x / d <= y / d
  {
    var q := (y - x) / d;
    DivSub(y, x, d);
    assert q * d == y - x;
    NegativeTimesPositive(q, d);
  }

  lemma NegativeTimesPositive(q: real, d: real)
    requires 0.0 < d
    ensures q < 0.0 ==> q * d < 0.0
  {
    if q < 0.0 {
      MulPositive(-q, d);
    }
  }

  lemma ProductNonNegative(a: real, b: real, p: real)
    requires 0.0 <= a && 0.0 <= b && p == a * b
    ensures 0.0 <= p
  {
    if a > 0.0 && b > 0.0 {
      MulPositive(a, b);
    }
  }

  /** 4 (u^2 - alpha^2) factors as (w - u + 1)(w + u - 1)(u + 1 - w)(u + 1 + w). */
  lemma DiscriminantFactors(u: real, w: real)
    ensures 4.0 * (u * u - CircleAlpha(u, w) * CircleAlpha(u, w))
      == ((w - u + 1.0) * (w + u - 1.0)) * ((u + 1.0 - w) * (u + 1.0 + w))
  {
    var P, Q := w * w, u * u;
    var e := P - Q - 1.0;
    assert CircleAlpha(u, w) == -e / 2.0;
    assert 4.0 * (CircleAlpha(u, w) * CircleAlpha(u, w)) == e * e;
    assert (w - u + 1.0) * (w + u - 1.0) == P - (u - 1.0) * (u - 1.0);
    assert (u - 1.0) * (u - 1.0) == Q - 2.0 * u + 1.0;
    assert (u + 1.0 - w) * (u + 1.0 + w) == (u + 1.0) * (u + 1.0) - P;
    assert (u + 1.0) * (u + 1.0) == Q + 2.0 * u + 1.0;
    assert (2.0 * u + e) * (2.0 * u - e) == 4.0 * Q - e * e;
  }

  /** With |u - w| <= 1 <= u + w every factor of the discriminant is non-negative. */
  lemma DiscriminantNonNegative(u: real, w: real)
    requires -1.0 <= u - w <= 1.0 && 1.0 <= u + w
    ensures 0.0 <= u * u - CircleAlpha(u, w) * CircleAlpha(u, w)
  {
    DiscriminantFactors(u, w);
    var ab := (w - u + 1.0) * (w + u - 1.0);
    var cd := (u + 1.0 - w) * (u + 1.0 + w);
    ProductNonNegative(w - u + 1.0, w + u - 1.0, ab);
    ProductNonNegative(u + 1.0 - w, u + 1.0 + w, cd);
    ProductNonNegative(ab, cd, ab * cd);
  }

  /** Both points circle_intersect returns lie on both circles (stated on squared
      distances, which do not depend on the snapping of distance). */
  lemma CircleIntersectOnCircles(n: Arith, c1: Vec, c2: Vec, r1: real, r2: real)
    requires n.Valid() && |c1| == 2 && |c2| == 2 && CircleIntersect(n, c1, c2, r1, r2).Ok?
    ensures var p := CircleIntersect(n, c1, c2, r1, r2).value;
      && SqDist(p.first, c1) == r1 * r1 && SqDist(p.first, c2) == r2 * r2
      && SqDist(p.second, c1) == r1 * r1 && SqDist(p.second, c2) == r2 * r2
  {
    var d, alpha, disc, beta := GuardedQuantities(n, c1, c2, r1, r2);
    CircleIntersectPoints(n, c1, c2, r1, r2);
    ChordPointOnCircles(c1, c2, r1, r2, d, alpha, disc, beta);
    ChordPointOnCircles(c1, c2, r1, r2, d, alpha, disc, -beta);
  }

  /** The quantities circle_intersect computes once both guards pass: d > 0 with
      d^2 = v1.v1, alpha, and beta with beta^2 = (-beta)^2 = u^2 - alpha^2. */
  lemma GuardedQuantities(n: Arith, c1: Vec, c2: Vec, r1: real, r2: real)
    returns (d: real, alpha: real, disc: real, beta: real)
    requires n.Valid() && |c1| == 2 && |c2| == 2
    requires var d := Distance(n, c1, c2);
      !(n.Close(d, 0.0) && n.Close(r1, r2)) && !(d > r1 + r2 || d < Abs(r1 - r2))
    ensures d == Distance(n, c1, c2) && 0.0 < d && Dot(Sub(c2, c1), Sub(c2, c1)) == d * d
    ensures alpha == CircleAlpha(r1 / d, r2 / d) && beta == CircleBeta(n, r1 / d, r2 / d)
    ensures disc == (r1 / d) * (r1 / d) - alpha * alpha
    ensures beta * beta == disc && (-beta) * (-beta) == disc
  {
    GuardsLeaveRealRoot(n, c1, c2, r1, r2);
    d := CentreDistance(n, c1, c2);
    alpha, disc, beta := RootQuantities(n, r1 / d, r2 / d);
  }

  lemma CentreDistance(n: Arith, c1: Vec, c2: Vec) returns (d: real)
    requires n.Valid() && |c1| == |c2| && 0.0 < Distance(n, c1, c2)
    ensures d == Distance(n, c1, c2) && 0.0 < d && Dot(Sub(c2, c1), Sub(c2, c1)) == d * d
    ensures 0.0 < Dot(Sub(c2, c1), Sub(c2, c1))
  {
    d := Distance(n, c1, c2);
    DistanceSquared(n, c1, c2);
    SqDistSymmetric(c1, c2);
    ProductPositive(d, d, d * d);
  }

  lemma RootQuantities(n: Arith, u: real, w: real) returns (alpha: real, disc: real, beta: real)
    requires n.Valid() && 0.0 <= u * u - CircleAlpha(u, w) * CircleAlpha(u, w)
    ensures alpha == CircleAlpha(u, w) && beta == CircleBeta(n, u, w)
    ensures disc == u * u - alpha * alpha
    ensures beta * beta == disc && (-beta) * (-beta) == disc
  {
    alpha := CircleAlpha(u, w);
    disc := CircleDisc(u, w);
    beta := n.sqrt(disc);
    SqrtSquared(n, disc);
    NegatedSquare(beta);
  }

  /** The two points of circle_intersect as c1 + alpha v1 + b v2 with b = +-beta. */
  lemma CircleIntersectPoints(n: Arith, c1: Vec, c2: Vec, r1: real, r2: real)
    requires n.Valid() && |c1| == 2 && |c2| == 2 && CircleIntersect(n, c1, c2, r1, r2).Ok?
    ensures var d := Distance(n, c1, c2);
      var alpha := CircleAlpha(r1 / d, r2 / d);
      var beta := CircleBeta(n, r1 / d, r2 / d);
      var v1 := Sub(c2, c1);
      CircleIntersect(n, c1, c2, r1, r2).value
        == Pair(Add(Add(c1, Scale(alpha, v1)), Scale(beta, Perpendicular(v1))),
                Add(Add(c1, Scale(alpha, v1)), Scale(-beta, Perpendicular(v1))))
  {
    var d := Distance(n, c1, c2);
    var v1 := Sub(c2, c1);
    NegatedOffset(Add(c1, Scale(CircleAlpha(r1 / d, r2 / d), v1)), CircleBeta(n, r1 / d, r2 / d), Perpendicular(v1));
  }

  /** c1 + alpha v1 + b v2 lies on both circles when b^2 = u^2 - alpha^2. */
  lemma ChordPointOnCircles(c1: Vec, c2: Vec, r1: real, r2: real, d: real, alpha: real, disc: real, b: real)
    requires |c1| == 2 && |c2| == 2 && 0.0 < d
    requires Dot(Sub(c2, c1), Sub(c2, c1)) == d * d
    requires alpha == CircleAlpha(r1 / d, r2 / d)
    requires disc == (r1 / d) * (r1 / d) - alpha * alpha && b * b == disc
    ensures var p := Add(Add(c1, Scale(alpha, Sub(c2, c1))), Scale(b, Perpendicular(Sub(c2, c1))));
      SqDist(p, c1) == r1 * r1 && SqDist(p, c2) == r2 * r2
  {
    var v1 := Sub(c2, c1);
    var v2 := Perpendicular(v1);
    var p := Add(Add(c1, Scale(alpha, v1)), Scale(b, v2));
    OffsetFromCentres(c1, c2, alpha, b, v2);
    DotSymmetric(v2, v1);
    CombinationSquaredLength(alpha, b, v1, v2);
    CombinationSquaredLength(alpha - 1.0, b, v1, v2);
    RadiusFromFoot(r1, r2, d, alpha, disc);
  }

  /** p - c1 = alpha v1 + b v2 and p - c2 = (alpha - 1) v1 + b v2. */
  lemma OffsetFromCentres(c1: Vec, c2: Vec, alpha: real, b: real, v2: Vec)
    requires |c1| == |c2| == |v2|
    ensures var p := Add(Add(c1, Scale(alpha, Sub(c2, c1))), Scale(b, v2));
      && Sub(p, c1) == Add(Scale(alpha, Sub(c2, c1)), Scale(b, v2))
      && Sub(p, c2) == Add(Scale(alpha - 1.0, Sub(c2, c1)), Scale(b, v2))
  {
    var v1 := Sub(c2, c1);
    var p := Add(Add(c1, Scale(alpha, v1)), Scale(b, v2));
    forall i | 0 <= i < |c1|
      ensures Sub(p, c2)[i] == Add(Scale(alpha - 1.0, v1), Scale(b, v2))[i]
    {
      assert alpha * v1[i] - v1[i] == (alpha - 1.0) * v1[i];
    }
  }

  /** |a v1 + b v2|^2 = (a^2 + b^2) |v1|^2 for v2 orthogonal to v1 and as long. */
  lemma CombinationSquaredLength(a: real, b: real, v1: Vec, v2: Vec)
    requires |v1| == |v2| && Dot(v1, v2) == 0.0 && Dot(v2, v1) == 0.0 && Dot(v2, v2) == Dot(v1, v1)
    ensures var s := Add(Scale(a, v1), Scale(b, v2));
      Dot(s, s) == (a * a + b * b) * Dot(v1, v1)
  {
    var s := Add(Scale(a, v1), Scale(b, v2));
    var x := CombinationDot(a, b, v1, v2, v1);
    var y := CombinationDot(a, b, v1, v2, v2);
    var z := CombinationDot(a, b, v1, v2, s);
    DotSymmetric(v1, s);
    DotSymmetric(v2, s);
    SumOfSquaresTimes(a, b, Dot(v1, v1), x, y, z);
  }

  /** (a v1 + b v2).t = a (v1.t) + b (v2.t). */
  lemma CombinationDot(a: real, b: real, v1: Vec, v2: Vec, t: Vec) returns (r: real)
    requires |v1| == |v2| == |t|
    ensures r == Dot(Add(Scale(a, v1), Scale(b, v2)), t)
    ensures r == a * Dot(v1, t) + b * Dot(v2, t)
  {
    DotAddLeft(Scale(a, v1), Scale(b, v2), t);
    DotScaleLeft(a, v1, t);
    DotScaleLeft(b, v2, t);
    r := Dot(Add(Scale(a, v1), Scale(b, v2)), t);
  }

  lemma SumOfSquaresTimes(a: real, b: real, d: real, x: real, y: real, z: real)
    requires x == a * d + b * 0.0 && y == a * 0.0 + b * d && z == a * x + b * y
    ensures z == (a * a + b * b) * d
  {
  }

  lemma NegatedSquare(b: real)
    ensures (-b) * (-b) == b * b
  {
  }

  /** The scalar identities behind the two radii: (alpha^2 + beta^2) d^2 = r1^2 and
      ((alpha - 1)^2 + beta^2) d^2 = r2^2. */
  lemma RadiusFromFoot(r1: real, r2: real, d: real, alpha: real, bb: real)
    requires 0.0 < d
    requires alpha == CircleAlpha(r1 / d, r2 / d)
    requires bb == (r1 / d) * (r1 / d) - alpha * alpha
    ensures (alpha * alpha + bb) * (d * d) == r1 * r1
    ensures ((alpha - 1.0) * (alpha - 1.0) + bb) * (d * d) == r2 * r2
  {
    var u, w := r1 / d, r2 / d;
    assert u * d == r1;
    assert w * d == r2;
    assert (u * u) * (d * d) == (u * d) * (u * d);
    assert (w * w) * (d * d) == (w * d) * (w * d);
    assert (alpha - 1.0) * (alpha - 1.0) + bb == w * w;
  }

  /** The two points circle_intersect returns coincide exactly when beta = 0 (the circles
      touch). */
  lemma CircleIntersectCoincident(n: Arith, c1: Vec, c2: Vec, r1: real, r2: real)
    requires n.Valid() && |c1| == 2 && |c2| == 2 && CircleIntersect(n, c1, c2, r1, r2).Ok?
    ensures var d := Distance(n, c1, c2);
      var p := CircleIntersect(n, c1, c2, r1, r2).value;
      p.first == p.second <==> CircleBeta(n, r1 / d, r2 / d) == 0.0
  {
    var d := Distance(n, c1, c2);
    var p := CircleIntersect(n, c1, c2, r1, r2).value;
    var h := Perpendicular(Sub(c2, c1));
    var k := 2.0 * CircleBeta(n, r1 / d, r2 / d);
    var d' := CentreDistance(n, c1, c2);
    ZeroDifferenceIffZeroScale(p.first, p.second, k, h);
  }

  /** With h not the zero vector, a - b = k h is zero exactly when k = 0. */
  lemma ZeroDifferenceIffZeroScale(a: Vec, b: Vec, k: real, h: Vec)
    requires |a| == |b| == |h| == 2 && Sub(a, b) == Scale(k, h) && 0.0 < Dot(h, h)
    ensures a == b <==> k == 0.0
  {
    Dot2(h, h);
    if k == 0.0 {
      forall i | 0 <= i < 2
        ensures a[i] == b[i]
      {
        assert Sub(a, b)[i] == Scale(k, h)[i];
      }
    }
    if a == b {
      assert Sub(a, b)[0] == 0.0 && Sub(a, b)[1] == 0.0;
      if h[0] != 0.0 {
        NonZeroFactor(k, h[0]);
      } else {
        NonZeroFactor(k, h[1]);
      }
    }
  }

  /** The converse of CircleIntersectOnCircles: for centres that are not close and
      non-negative radii, every point exactly on both circles passes both guards and is
      one of the two points returned. So circle_intersect misses no intersection, and its
      errors mean the circles have no common point. */
  lemma CircleIntersectComplete(n: Arith, c1: Vec, c2: Vec, r1: real, r2: real, p: Vec)
    requires n.Valid() && |c1| == 2 && |c2| == 2 && |p| == 2
    requires 0.0 <= r1 && 0.0 <= r2 && !IsEqual(n, c1, c2)
    requires SqDist(p, c1) == r1 * r1 && SqDist(p, c2) == r2 * r2
    ensures CircleIntersect(n, c1, c2, r1, r2).Ok?
    ensures p == CircleIntersect(n, c1, c2, r1, r2).value.first
         || p == CircleIntersect(n, c1, c2, r1, r2).value.second
  {
    SeparatedCentres(n, c1, c2);
    var d := CentreDistance(n, c1, c2);
    var a, b := RadiiInPlaneCoordinates(c1, c2, r1, r2, d, p);
    TriangleFromFoot(r1, r2, d, a, b);
    FootFromRadii(r1, r2, d, a, b);
    SquareRoots(n, b, CircleDisc(r1 / d, r2 / d));
    CircleIntersectPoints(n, c1, c2, r1, r2);
  }

  /** A point at distances r1 and r2 from c1 and c2 = c1 + v1, written as
      c1 + a v1 + b v2 with v2 the perpendicular of v1, has r1^2 = (a^2 + b^2) d^2 and
      r2^2 = ((a - 1)^2 + b^2) d^2, where d is the length of v1. */
  lemma RadiiInPlaneCoordinates(c1: Vec, c2: Vec, r1: real, r2: real, d: real, p: Vec) returns (a: real, b: real)
    requires |c1| == 2 && |c2| == 2 && |p| == 2 && 0.0 < d
    requires Dot(Sub(c2, c1), Sub(c2, c1)) == d * d
    requires SqDist(p, c1) == r1 * r1 && SqDist(p, c2) == r2 * r2
    ensures p == Add(Add(c1, Scale(a, Sub(c2, c1))), Scale(b, Perpendicular(Sub(c2, c1))))
    ensures r1 * r1 == (a * a + b * b) * (d * d)
    ensures r2 * r2 == ((a - 1.0) * (a - 1.0) + b * b) * (d * d)
  {
    var v1 := Sub(c2, c1);
    var v2 := Perpendicular(v1);
    ProductPositive(d, d, d * d);
    a, b := PlaneCoordinates(c1, c2, p);
    OffsetFromCentres(c1, c2, a, b, v2);
    DotSymmetric(v2, v1);
    CombinationSquaredLength(a, b, v1, v2);
    CombinationSquaredLength(a - 1.0, b, v1, v2);
  }

  /** Centres that are not close are more than atol apart, so d is not close to 0. */
  lemma SeparatedCentres(n: Arith, c1: Vec, c2: Vec)
    requires n.Valid() && |c1| == 2 && |c2| == 2 && !IsEqual(n, c1, c2)
    ensures !n.Close(Distance(n, c1, c2), 0.0)
  {
    var i :| 0 <= i < 2 && !n.Close(c1[i], c2[i]);
    CoordinateWithinDistance(n, c1, c2, i);
    BeyondTolerance(n, c1[i], c2[i], Distance(n, c1, c2));
  }

  /** A number at least as large as a gap beyond the tolerance is not close to 0. */
  lemma BeyondTolerance(n: Arith, x: real, y: real, d: real)
    requires 0.0 <= n.atol && 0.0 <= n.rtol && !n.Close(x, y) && Abs(x - y) <= d
    ensures !n.Close(d, 0.0)
  {
    ProductNonNegative(n.rtol, Abs(y), n.rtol * Abs(y));
    assert n.rtol * Abs(0.0) == 0.0;
  }

  /** |x|^2 = x^2. */
  lemma AbsSquared(x: real)
    ensures Abs(x) * Abs(x) == x * x
  {
    if x < 0.0 {
      NegatedSquare(x);
    }
  }

  /** Two plane points differ in each coordinate by at most their distance. */
  lemma CoordinateWithinDistance(n: Arith, c1: Vec, c2: Vec, i: int)
    requires n.Valid() && |c1| == 2 && |c2| == 2 && !IsEqual(n, c1, c2) && 0 <= i < 2
    ensures Abs(c1[i] - c2[i]) <= Distance(n, c1, c2)
  {
    var e := Sub(c1, c2);
    assert e[i] == c1[i] - c2[i];
    DistanceSquared(n, c1, c2);
    ComponentsWithinLength(e, Distance(n, c1, c2));
  }

  /** Each coordinate of a plane vector is at most its length d in absolute value. */
  lemma ComponentsWithinLength(e: Vec, d: real)
    requires |e| == 2 && 0.0 <= d && d * d == Dot(e, e)
    ensures Abs(e[0]) <= d && Abs(e[1]) <= d
  {
    Dot2(e, e);
    var x, y := e[0], e[1];
    SquareNonNegative(x);
    SquareNonNegative(y);
    AbsSquared(x);
    AbsSquared(y);
    SquareMonotone(Abs(x), d);
    SquareMonotone(Abs(y), d);
  }

  /** For non-negative x and y, x^2 <= y^2 gives x <= y. */
  lemma SquareMonotone(x: real, y: real)
    requires 0.0 <= x && 0.0 <= y && x * x <= y * y
    ensures x <= y
  {
    if x > y {
      MulPositive(x - y, x + y);
      assert false;
    }
  }

  /** Every point is c1 + a v1 + b v2 in the frame v1 = c2 - c1, v2 = perpendicular(v1),
      with a = (p - c1).v1 / v1.v1 and b = (p - c1).v2 / v1.v1. */
  lemma PlaneCoordinates(c1: Vec, c2: Vec, p: Vec) returns (a: real, b: real)
    requires |c1| == 2 && |c2| == 2 && |p| == 2 && 0.0 < Dot(Sub(c2, c1), Sub(c2, c1))
    ensures p == Add(Add(c1, Scale(a, Sub(c2, c1))), Scale(b, Perpendicular(Sub(c2, c1))))
  {
    var v1 := Sub(c2, c1);
    var e := Sub(p, c1);
    Dot2(v1, v1);
    var x, y := v1[0], v1[1];
    a, b := Recompose(e[0], e[1], x, y, Dot(v1, v1));
    var q := Add(Add(c1, Scale(a, v1)), Scale(b, Perpendicular(v1)));
    assert q[0] == c1[0] + a * x + b * (-y);
    assert q[1] == c1[1] + a * y + b * x;
  }

  /** The coordinates of (e0, e1) along (x, y) and along (-y, x). */
  lemma Recompose(e0: real, e1: real, x: real, y: real, dd: real) returns (a: real, b: real)
    requires dd == x * x + y * y && 0.0 < dd
    ensures a * x + b * (-y) == e0 && a * y + b * x == e1
  {
    a := (e0 * x + e1 * y) / dd;
    b := (e1 * x - e0 * y) / dd;
    assert a * dd == e0 * x + e1 * y;
    assert b * dd == e1 * x - e0 * y;
    assert (a * x - b * y) * dd == e0 * dd by {
      assert (a * x - b * y) * dd == (a * dd) * x - (b * dd) * y;
    }
    assert (a * y + b * x) * dd == e1 * dd by {
      assert (a * y + b * x) * dd == (a * dd) * y + (b * dd) * x;
    }
    MulCancel(a * x - b * y, e0, dd, e0 * dd);
    MulCancel(a * y + b * x, e1, dd, e1 * dd);
  }

  lemma MulCancel(x: real, y: real, k: real, s: real)
    requires k != 0.0
    requires x * k == s
    requires y * k == s
    ensures x == y
  {
    assert (x - y) * k == 0.0;
    NonZeroFactor(x - y, k);
  }

  /** The radii of a point at c1 + a v1 + b v2 fix a as alpha and b^2 as the
      discriminant, in units of d = |v1|. */
  lemma FootFromRadii(r1: real, r2: real, d: real, a: real, b: real)
    requires 0.0 < d
    requires r1 * r1 == (a * a + b * b) * (d * d)
    requires r2 * r2 == ((a - 1.0) * (a - 1.0) + b * b) * (d * d)
    ensures a == CircleAlpha(r1 / d, r2 / d) && b * b == CircleDisc(r1 / d, r2 / d)
  {
    var u := SquareInUnits(r1, d, a * a + b * b, d * d);
    var w := SquareInUnits(r2, d, (a - 1.0) * (a - 1.0) + b * b, d * d);
    assert u * u - w * w + 1.0 == 2.0 * a;
    assert CircleAlpha(u, w) == a;
  }

  /** r^2 = P d^2 with d > 0 gives (r / d)^2 = P. */
  lemma SquareInUnits(r: real, d: real, P: real, dd: real) returns (u: real)
    requires 0.0 < d && dd == d * d && r * r == P * dd
    ensures u == r / d && u * u == P
  {
    u := r / d;
    ProductPositive(d, d, dd);
    assert u * d == r;
    assert (u * u) * dd == r * r;
    MulCancel(u * u, P, dd, r * r);
  }

  /** The triangle inequalities for a point at c1 + a v1 + b v2 at distances r1 and r2
      from c1 and c2 = c1 + v1: |r1 - r2| <= d <= r1 + r2. */
  lemma TriangleFromFoot(r1: real, r2: real, d: real, a: real, b: real)
    requires 0.0 < d && 0.0 <= r1 && 0.0 <= r2
    requires r1 * r1 == (a * a + b * b) * (d * d)
    requires r2 * r2 == ((a - 1.0) * (a - 1.0) + b * b) * (d * d)
    ensures Abs(r1 - r2) <= d <= r1 + r2
  {
    var dd, bb := d * d, b * b;
    var P, Q, X := a * a + b * b, (a - 1.0) * (a - 1.0) + b * b, a * a - a + b * b;
    Lagrange(a, b, bb, P, Q, X);
    SquareNonNegative(b);
    SquareNonNegative(d);
    var m, t := r1 * r2, X * dd;
    CrossTermBound(r1, r2, P, Q, X, bb, dd, m, t);
    SumAndDifference(r1, r2, P, Q, X, dd, m, t);
    SquareMonotone(d, r1 + r2);
    AbsSquared(r1 - r2);
    SquareMonotone(Abs(r1 - r2), d);
  }

  /** The two-dimensional Lagrange identity behind Cauchy-Schwarz, for (a, b) and
      (a - 1, b). */
  lemma Lagrange(a: real, b: real, bb: real, P: real, Q: real, X: real)
    requires bb == b * b && P == a * a + bb && Q == (a - 1.0) * (a - 1.0) + bb && X == a * a - a + bb
    ensures P * Q == X * X + bb && P + Q == 2.0 * X + 1.0
  {
    assert P * Q == (a * a) * ((a - 1.0) * (a - 1.0)) + (a * a + (a - 1.0) * (a - 1.0)) * bb + bb * bb;
    assert X * X == (a * a - a) * (a * a - a) + 2.0 * (a * a - a) * bb + bb * bb;
    assert (a * a - a) * (a * a - a) == (a * a) * ((a - 1.0) * (a - 1.0));
  }

  /** From r1^2 = P dd, r2^2 = Q dd and P Q = X^2 + bb: |X dd| <= r1 r2. */
  lemma CrossTermBound(r1: real, r2: real, P: real, Q: real, X: real, bb: real, dd: real, m: real, t: real)
    requires 0.0 <= r1 && 0.0 <= r2 && 0.0 <= bb && 0.0 <= dd
    requires r1 * r1 == P * dd && r2 * r2 == Q * dd && P * Q == X * X + bb
    requires m == r1 * r2 && t == X * dd
    ensures Abs(t) <= m
  {
    assert m * m == (r1 * r1) * (r2 * r2);
    assert (r1 * r1) * (r2 * r2) == (P * Q) * (dd * dd);
    assert t * t == (X * X) * (dd * dd);
    var e := dd * dd;
    ProductNonNegative(dd, dd, e);
    ProductNonNegative(bb, e, bb * e);
    assert m * m == t * t + bb * e;
    ProductNonNegative(r1, r2, m);
    AbsSquared(t);
    SquareMonotone(Abs(t), m);
  }

  /** (r1 + r2)^2 >= dd >= (r1 - r2)^2 once the cross term is bounded. */
  lemma SumAndDifference(r1: real, r2: real, P: real, Q: real, X: real, dd: real, m: real, t: real)
    requires r1 * r1 == P * dd && r2 * r2 == Q * dd && P + Q == 2.0 * X + 1.0
    requires m == r1 * r2 && t == X * dd && Abs(t) <= m
    ensures dd <= (r1 + r2) * (r1 + r2) && (r1 - r2) * (r1 - r2) <= dd
  {
    assert r1 * r1 + r2 * r2 == (P + Q) * dd;
    assert (P + Q) * dd == 2.0 * t + dd;
    assert (r1 + r2) * (r1 + r2) == r1 * r1 + r2 * r2 + 2.0 * m;
    assert (r1 - r2) * (r1 - r2) == r1 * r1 + r2 * r2 - 2.0 * m;
  }

  /** A number whose square is disc is the square root of disc or its negation. */
  lemma SquareRoots(n: Arith, b: real, disc: real)
    requires n.Valid() && b * b == disc
    ensures 0.0 <= disc && (b == n.sqrt(disc) || b == -n.sqrt(disc))
  {
    SquareNonNegative(b);
    var s := n.sqrt(disc);
    SqrtSquared(n, disc);
    assert (b - s) * (b + s) == b * b - s * s;
    if b != s {
      NonZeroFactor(b + s, b - s);
      assert (b + s) * (b - s) == 0.0;
    }
  }

  /** How far p is from lying on the circle with centre c and radius r:
      |distance(p, c) - r|. */
  function Deviation(n: Arith, p: Vec, c: Vec, r: real): real
    requires n.Valid() && |p| == |c|
  {
    Abs(Distance(n, p, c) - r)
  }

  /** Variant 1 of trilaterate: the first intersection of circles 1 and 2 that lies on
      circle 3, "No solution found." when neither does. */
  function SolveOnThirdCircle(n: Arith, c1: Vec, c2: Vec, c3: Vec, r1: real, r2: real, r3: real): (r: Result<Vec>)
    requires n.Valid() && |c1| == 2 && |c2| == 2 && |c3| == 2
    ensures var p := CircleIntersect(n, c1, c2, r1, r2);
      && (p.Err? ==> r == Err(p.error))
      && (p.Ok? ==> (r.Ok? <==> IsOnCircle(n, c3, r3, p.value.first) || IsOnCircle(n, c3, r3, p.value.second)))
      && (p.Ok? && IsOnCircle(n, c3, r3, p.value.first) ==> r == Ok(p.value.first))
      && (p.Ok? && !IsOnCircle(n, c3, r3, p.value.first) && IsOnCircle(n, c3, r3, p.value.second) ==>
            r == Ok(p.value.second))
      && (r.Err? && p.Ok? ==> r.error == NoSolution)
    ensures r.Ok? ==>
      && |r.value| == 2
      && IsOnCircle(n, c3, r3, r.value)
      && SqDist(r.value, c1) == r1 * r1 && SqDist(r.value, c2) == r2 * r2
  {
    var p :- CircleIntersect(n, c1, c2, r1, r2);
    CircleIntersectOnCircles(n, c1, c2, r1, r2);
    if IsOnCircle(n, c3, r3, p.first) then Ok(p.first)
    else if IsOnCircle(n, c3, r3, p.second) then Ok(p.second)
    else Err(NoSolution)
  }

  /** Variant 2 of trilaterate: of the two intersections of circles 1 and 2, the one whose
      distance to c3 deviates strictly less from r3; the second one on a tie. The
      fallbacks for a missing intersection can never run, since circle_intersect raises
      instead of returning nothing: its error propagates. */
  function SolveClosestToThirdCircle(n: Arith, c1: Vec, c2: Vec, c3: Vec, r1: real, r2: real, r3: real): (r: Result<Vec>)
    requires n.Valid() && |c1| == 2 && |c2| == 2 && |c3| == 2
    ensures var p := CircleIntersect(n, c1, c2, r1, r2);
      && (p.Err? ==> r == Err(p.error))
      && (p.Ok? ==> r.Ok? && (r.value == p.value.first || r.value == p.value.second))
      && (p.Ok? ==>
            && Deviation(n, r.value, c3, r3) <= Deviation(n, p.value.first, c3, r3)
            && Deviation(n, r.value, c3, r3) <= Deviation(n, p.value.second, c3, r3))
      && (p.Ok? && Deviation(n, p.value.first, c3, r3) == Deviation(n, p.value.second, c3, r3) ==>
            r.value == p.value.second)
    ensures r.Ok? ==>
      && |r.value| == 2
      && SqDist(r.value, c1) == r1 * r1 && SqDist(r.value, c2) == r2 * r2
  {
    var p :- CircleIntersect(n, c1, c2, r1, r2);
    CircleIntersectOnCircles(n, c1, c2, r1, r2);
    if Deviation(n, p.first, c3, r3) < Deviation(n, p.second, c3, r3) then Ok(p.first)
    else Ok(p.second)
  }

  /** The mean of three candidates, one from each pair, as chosen by selection s. */
  function MeanOfSelected(pairs: seq<Pair>, s: seq<int>): (r: Vec)
    requires |pairs| == 3 && PairsOfDim(pairs, 2) && |s| == 3
    requires forall k :: 0 <= k < 3 ==> s[k] == 0 || s[k] == 1
    ensures |r| == 2
    ensures Scale(3.0, r) == Add(Add(pairs[0].At(s[0]), pairs[1].At(s[1])), pairs[2].At(s[2]))
  {
    var sum := Add(Add(pairs[0].At(s[0]), pairs[1].At(s[1])), pairs[2].At(s[2]));
    ScaleDivBy(3.0, sum);
    DivBy(sum, 3.0)
  }

  /** The mean of the three candidates nearest_points selects from the pairs p12, p13, p23
      (in that order). */
  function MeanOfNearest(n: Arith, p12: Pair, p13: Pair, p23: Pair): (r: Vec)
    requires n.Valid() && PairsOfDim([p12, p13, p23], 2)
    ensures |r| == 2
    ensures var pairs := [p12, p13, p23];
      exists s :: (IsNearestSelection(n, pairs, 2, s) &&
        Scale(3.0, r) == Add(Add(pairs[0].At(s[0]), pairs[1].At(s[1])), pairs[2].At(s[2])))
  {
    var pairs := [p12, p13, p23];
    var s := NearestIndices(n, pairs, 2);
    assert IsNearerCandidate(n, pairs[0].At(s[0]), pairs[2], s[2]);
    MeanOfSelected(pairs, s)
  }

  /** The three pairs have candidates of dimension 2. */
  lemma ThreePairsOfDim(p12: Pair, p13: Pair, p23: Pair)
    requires |p12.first| == |p12.second| == |p13.first| == |p13.second| == 2
    requires |p23.first| == |p23.second| == 2
    ensures PairsOfDim([p12, p13, p23], 2)
  {
  }

  /** Variant 3 of trilaterate (taken for every variant other than 1 and 2): the three
      pairwise intersections, in the order 12, 13, 23, with the first error propagating;
      then the mean of the candidates nearest_points selects. */
  function SolveMeanOfNearest(n: Arith, c1: Vec, c2: Vec, c3: Vec, r1: real, r2: real, r3: real): (r: Result<Vec>)
    requires n.Valid() && |c1| == 2 && |c2| == 2 && |c3| == 2
    ensures var p12, p13, p23 := CircleIntersect(n, c1, c2, r1, r2), CircleIntersect(n, c1, c3, r1, r3),
                                 CircleIntersect(n, c2, c3, r2, r3);
      && (p12.Err? ==> r == Err(p12.error))
      && (p12.Ok? && p13.Err? ==> r == Err(p13.error))
      && (p12.Ok? && p13.Ok? && p23.Err? ==> r == Err(p23.error))
      && (r.Ok? <==> p12.Ok? && p13.Ok? && p23.Ok?)
      && (r.Ok? ==> PairsOfDim([p12.value, p13.value, p23.value], 2) &&
                    r.value == MeanOfNearest(n, p12.value, p13.value, p23.value))
  {
    var sol12 :- CircleIntersect(n, c1, c2, r1, r2);
    var sol13 :- CircleIntersect(n, c1, c3, r1, r3);
    var sol23 :- CircleIntersect(n, c2, c3, r2, r3);
    ThreePairsOfDim(sol12, sol13, sol23);
    Ok(MeanOfNearest(n, sol12, sol13, sol23))
  }

  /** trilaterate(c1, c2, c3, r1, r2, r3, variant): beacons that coincide are rejected
      first, then collinear beacons (an error of the collinearity test propagates), and
      only then does the variant choose the strategy: 1, 2, or anything else for 3. */
  function Trilaterate(n: Arith, c1: Vec, c2: Vec, c3: Vec, r1: real, r2: real, r3: real, variant: int): (r: Result<Vec>)
    requires n.Valid() && |c1| == 2 && |c2| == 2 && |c3| == 2
    ensures AnyTwoEqual(n, c1, c2, c3) ==> r == Err(IdenticalBeacons)
    ensures !AnyTwoEqual(n, c1, c2, c3) && IsCollinear(n, c1, c2, c3).Err? ==>
      r == Err(IsCollinear(n, c1, c2, c3).error)
    ensures !AnyTwoEqual(n, c1, c2, c3) && IsCollinear(n, c1, c2, c3) == Ok(true) ==>
      r == Err(CollinearBeacons)
    ensures r.Ok? ==> !AnyTwoEqual(n, c1, c2, c3) && IsCollinear(n, c1, c2, c3) == Ok(false)
    ensures r.Ok? ==> |r.value| == 2
    ensures r.Ok? && variant == 1 ==>
      IsOnCircle(n, c3, r3, r.value) && SqDist(r.value, c1) == r1 * r1 && SqDist(r.value, c2) == r2 * r2
    ensures r.Ok? && variant == 2 ==>
      SqDist(r.value, c1) == r1 * r1 && SqDist(r.value, c2) == r2 * r2
    ensures r.Ok? && variant != 1 && variant != 2 ==>
      var p12, p13, p23 := CircleIntersect(n, c1, c2, r1, r2), CircleIntersect(n, c1, c3, r1, r3),
                           CircleIntersect(n, c2, c3, r2, r3);
      && p12.Ok? && p13.Ok? && p23.Ok? && PairsOfDim([p12.value, p13.value, p23.value], 2)
      && r.value == MeanOfNearest(n, p12.value, p13.value, p23.value)
    ensures !AnyTwoEqual(n, c1, c2, c3) && IsCollinear(n, c1, c2, c3) == Ok(false) ==>
      r == (if variant == 1 then SolveOnThirdCircle(n, c1, c2, c3, r1, r2, r3)
            else if variant == 2 then SolveClosestToThirdCircle(n, c1, c2, c3, r1, r2, r3)
            else SolveMeanOfNearest(n, c1, c2, c3, r1, r2, r3))
  {
    if AnyTwoEqual(n, c1, c2, c3) then Err(IdenticalBeacons)
    else
      var collinear :- IsCollinear(n, c1, c2, c3);
      if collinear then Err(CollinearBeacons)
      else if variant == 1 then SolveOnThirdCircle(n, c1, c2, c3, r1, r2, r3)
      else if variant == 2 then SolveClosestToThirdCircle(n, c1, c2, c3, r1, r2, r3)
      else SolveMeanOfNearest(n, c1, c2, c3, r1, r2, r3)
  }

  /** The beacon checks do not depend on the variant: when one of them fails, every
      variant gives the same error. */
  lemma ChecksPrecedeVariant(n: Arith, c1: Vec, c2: Vec, c3: Vec, r1: real, r2: real, r3: real, v: int, w: int)
    requires n.Valid() && |c1| == 2 && |c2| == 2 && |c3| == 2
    requires AnyTwoEqual(n, c1, c2, c3) || IsCollinear(n, c1, c2, c3) != Ok(false)
    ensures Trilaterate(n, c1, c2, c3, r1, r2, r3, v).Err?
    ensures Trilaterate(n, c1, c2, c3, r1, r2, r3, v) == Trilaterate(n, c1, c2, c3, r1, r2, r3, w)
  {
  }

  /** Every variant other than 1 and 2 behaves as variant 3. */
  lemma OtherVariantsAreThird(n: Arith, c1: Vec, c2: Vec, c3: Vec, r1: real, r2: real, r3: real, v: int)
    requires n.Valid() && |c1| == 2 && |c2| == 2 && |c3| == 2
    requires v != 1 && v != 2
    ensures Trilaterate(n, c1, c2, c3, r1, r2, r3, v) == Trilaterate(n, c1, c2, c3, r1, r2, r3, 3)
  {
  }

  /** Row i of the least-squares matrix A of trilaterate_lstsq: [1, -2 x_i, -2 y_i]. */
  function SystemRow(c: Vec): (row: Vec)
    requires |c| == 2
    ensures |row| == 3
  {
    [1.0, -2.0 * c[0], -2.0 * c[1]]
  }

  /** Entry i of the right-hand side b: r_i^2 - x_i^2 - y_i^2. */
  function SystemRhs(c: Vec, r: real): real
    requires |c| == 2
  {
    r * r - c[0] * c[0] - c[1] * c[1]
  }

  /** The linear system trilaterate_lstsq hands to its solver, for beacons c[i] (the columns
      of the argument array) and radii r[i]: A stacks a column of ones beside -2 c^T, and b
      is filled entry by entry. */
  method LeastSquaresSystem(c: seq<Vec>, r: seq<real>) returns (a: seq<Vec>, b: array<real>)
    requires forall i :: 0 <= i < |c| ==> |c[i]| == 2
    requires |c| <= |r|
    ensures |a| == |c| && forall i :: 0 <= i < |c| ==> a[i] == SystemRow(c[i])
    ensures fresh(b) && b.Length == |c|
    ensures forall i :: 0 <= i < |c| ==> b[i] == SystemRhs(c[i], r[i])
  {
    a := seq(|c|, i requires 0 <= i < |c| => SystemRow(c[i]));
    b := new real[|c|](_ => 0.0);
    for i := 0 to |c|
      invariant forall j :: 0 <= j < i ==> b[j] == SystemRhs(c[j], r[j])
    {
      b[i] := r[i] * r[i] - c[i][0] * c[i][0] - c[i][1] * c[i][1];
    }
  }

  /** Over exact reals, a point p at distance r_i from every beacon c_i makes
      s = [x^2 + y^2, x, y] an exact solution of every row of the system. */
  lemma ExactPointSolvesSystem(c: Vec, r: real, p: Vec)
    requires |c| == 2 && |p| == 2 && SqDist(p, c) == r * r
    ensures Dot(SystemRow(c), [Dot(p, p), p[0], p[1]]) == SystemRhs(c, r)
  {
    Dot3(SystemRow(c), [Dot(p, p), p[0], p[1]]);
    Dot2(p, p);
    Dot2(Sub(p, c), Sub(p, c));
  }

  /** The estimate trilaterate_lstsq returns from the solution s = qyx: [s[2], s[1]]. */
  function LeastSquaresEstimateAsWritten(s: Vec): (p: Vec)
    requires |s| == 3
    ensures |p| == 2 && p[0] == s[2] && p[1] == s[1]
  {
    [s[2], s[1]]
  }

  /** The estimate the columns of A call for: the solution is [x^2 + y^2, x, y], so the
      point is [s[1], s[2]]. */
  function LeastSquaresEstimate(s: Vec): (p: Vec)
    requires |s| == 3
    ensures |p| == 2 && p[0] == s[1] && p[1] == s[2]
  {
    [s[1], s[2]]
  }

  /** s solves rows 0 to 2 of the system for beacons c and radii r exactly. */
  predicate SolvesThreeRows(c: seq<Vec>, r: seq<real>, s: Vec)
    requires |c| == 3 && |r| == 3 && |s| == 3
    requires forall i :: 0 <= i < 3 ==> |c[i]| == 2
  {
    forall i :: 0 <= i < 3 ==> Dot(SystemRow(c[i]), s) == SystemRhs(c[i], r[i])
  }

  /** Twice the signed area of the beacon triangle: not zero exactly when A has full rank. */
  function TriangleDeterminant(c: seq<Vec>): real
    requires |c| == 3 && forall i :: 0 <= i < 3 ==> |c[i]| == 2
  {
    (c[1][0] - c[0][0]) * (c[2][1] - c[0][1]) - (c[1][1] - c[0][1]) * (c[2][0] - c[0][0])
  }

  /** Beacons (0, 0), (6, 0), (0, 8) and the point (3, 4), at distance 5 from each: the
      exact solution of the system is [25, 3, 4], and the estimate as written is (4, 3),
      not (3, 4). */
  lemma AsWrittenEstimateSwapsCoordinates()
    ensures var c, r, s := [[0.0, 0.0], [6.0, 0.0], [0.0, 8.0]], [5.0, 5.0, 5.0], [25.0, 3.0, 4.0];
      && SolvesThreeRows(c, r, s)
      && TriangleDeterminant(c) != 0.0
      && (forall i :: 0 <= i < 3 ==> SqDist([3.0, 4.0], c[i]) == r[i] * r[i])
      && LeastSquaresEstimateAsWritten(s) == [4.0, 3.0] != [3.0, 4.0]
  {
    var c, r, s := [[0.0, 0.0], [6.0, 0.0], [0.0, 8.0]], [5.0, 5.0, 5.0], [25.0, 3.0, 4.0];
    forall i | 0 <= i < 3
      ensures Dot(SystemRow(c[i]), s) == SystemRhs(c[i], r[i])
      ensures SqDist([3.0, 4.0], c[i]) == r[i] * r[i]
    {
      Dot3(SystemRow(c[i]), s);
      Dot2(Sub([3.0, 4.0], c[i]), Sub([3.0, 4.0], c[i]));
    }
    assert [4.0, 3.0][0] != [3.0, 4.0][0];
  }

  /** With three beacons that form a real triangle and exact radii for the point p, every
      exact solution of the system yields p through the corrected estimate. */
  lemma ExactSolutionRecoversPoint(c: seq<Vec>, r: seq<real>, p: Vec, s: Vec)
    requires |c| == 3 && |r| == 3 && |s| == 3 && |p| == 2
    requires forall i :: 0 <= i < 3 ==> |c[i]| == 2
    requires TriangleDeterminant(c) != 0.0
    requires forall i :: 0 <= i < 3 ==> SqDist(p, c[i]) == r[i] * r[i]
    requires SolvesThreeRows(c, r, s)
    ensures LeastSquaresEstimate(s) == p
  {
    assert Dot(SystemRow(c[0]), s) == SystemRhs(c[0], r[0]);
    assert Dot(SystemRow(c[1]), s) == SystemRhs(c[1], r[1]);
    assert Dot(SystemRow(c[2]), s) == SystemRhs(c[2], r[2]);
    RowResidual(c[0], r[0], p, s);
    RowResidual(c[1], r[1], p, s);
    RowResidual(c[2], r[2], p, s);
    HomogeneousSolutionIsZero(c[0][0], c[0][1], c[1][0], c[1][1], c[2][0], c[2][1],
                              s[0] - Dot(p, p), s[1] - p[0], s[2] - p[1]);
  }

  /** A solution s of the row of beacon c differs from the exact [x^2 + y^2, x, y] by a
      solution of the homogeneous row. */
  lemma RowResidual(c: Vec, r: real, p: Vec, s: Vec)
    requires |c| == 2 && |p| == 2 && |s| == 3 && SqDist(p, c) == r * r
    requires Dot(SystemRow(c), s) == SystemRhs(c, r)
    ensures (s[0] - Dot(p, p)) - 2.0 * c[0] * (s[1] - p[0]) - 2.0 * c[1] * (s[2] - p[1]) == 0.0
  {
    ExactPointSolvesSystem(c, r, p);
    Dot3(SystemRow(c), [Dot(p, p), p[0], p[1]]);
    Dot3(SystemRow(c), s);
    RowDifference(c[0], c[1], s[0], s[1], s[2], Dot(p, p), p[0], p[1]);
  }

  /** Two solutions of one row differ by a solution of the homogeneous row. */
  lemma RowDifference(x: real, y: real, s0: real, s1: real, s2: real, t0: real, t1: real, t2: real)
    requires 1.0 * s0 + (-2.0 * x) * s1 + (-2.0 * y) * s2 == 1.0 * t0 + (-2.0 * x) * t1 + (-2.0 * y) * t2
    ensures (s0 - t0) - 2.0 * x * (s1 - t1) - 2.0 * y * (s2 - t2) == 0.0
  {
  }

  /** Three homogeneous rows [1, -2 x_i, -2 y_i] with a non-zero triangle determinant only
      have the zero solution in the last two unknowns. */
  lemma HomogeneousSolutionIsZero(x0: real, y0: real, x1: real, y1: real, x2: real, y2: real,
                                  e0: real, e1: real, e2: real)
    requires e0 - 2.0 * x0 * e1 - 2.0 * y0 * e2 == 0.0
    requires e0 - 2.0 * x1 * e1 - 2.0 * y1 * e2 == 0.0
    requires e0 - 2.0 * x2 * e1 - 2.0 * y2 * e2 == 0.0
    requires (x1 - x0) * (y2 - y0) - (y1 - y0) * (x2 - x0) != 0.0
    ensures e1 == 0.0 && e2 == 0.0
  {
    var a, b, cc, d := x1 - x0, y1 - y0, x2 - x0, y2 - y0;
    assert a * e1 + b * e2 == 0.0;
    assert cc * e1 + d * e2 == 0.0;
    TwoByTwoKernel(a, b, cc, d, e1, e2);
  }

  lemma TwoByTwoKernel(a: real, b: real, c: real, d: real, e1: real, e2: real)
    requires a * e1 + b * e2 == 0.0 && c * e1 + d * e2 == 0.0 && a * d - b * c != 0.0
    ensures e1 == 0.0 && e2 == 0.0
  {
    assert d * (a * e1 + b * e2) - b * (c * e1 + d * e2) == (a * d - b * c) * e1;
    assert a * (c * e1 + d * e2) - c * (a * e1 + b * e2) == (a * d - b * c) * e2;
    NonZeroFactor(e1, a * d - b * c);
    NonZeroFactor(e2, a * d - b * c);
  }

  /** The two points differ by 2 beta v2, which is orthogonal to v1. */
  lemma ChordOrthogonal(f: Vec, v1: Vec, beta: real)
    requires |f| == 2 && |v1| == 2
    ensures Dot(Sub(Add(f, Scale(beta, Perpendicular(v1))), Sub(f, Scale(beta, Perpendicular(v1)))), v1) == 0.0
  {
    var h := Scale(beta, Perpendicular(v1));
    ScaledPerpendicularOrthogonal(beta, v1);
    DotScaleLeft(2.0, h, v1);
    DoubleOffset(f, h);
    assert Dot(Sub(Add(f, h), Sub(f, h)), v1) == Dot(Scale(2.0, h), v1);
  }

  lemma ScaledPerpendicularOrthogonal(beta: real, v1: Vec)
    requires |v1| == 2
    ensures Dot(Scale(beta, Perpendicular(v1)), v1) == 0.0
  {
    DotScaleLeft(beta, Perpendicular(v1), v1);
  }
}
