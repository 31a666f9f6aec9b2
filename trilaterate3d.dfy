/** 3D trilateration (trilaterate3d.py): the pairwise sphere test, the two intersection
    points of three spheres, and the estimate from four spheres. */
module Trilateration3D {
  import opened Results
  import opened Numerics
  import opened Vectors
  import opened Geometry

  /** is_on_sphere(c, r, p): the distance from c to p is close to r. */
  predicate IsOnSphere(n: Arith, c: Vec, r: real, p: Vec)
    requires n.Valid() && |c| == |p|
  {
    n.Close(Distance(n, c, p), r)
  }

  /** is_intersecting(c1, c2, r1, r2): |r1 - r2| <= d and d <= r1 + r2, with d the
      (snapped) distance between the centres. */
  predicate IsIntersecting(n: Arith, c1: Vec, c2: Vec, r1: real, r2: real)
    requires n.Valid() && |c1| == |c2|
  {
    var d := Distance(n, c1, c2);
    Abs(r1 - r2) <= d && d <= r1 + r2
  }

  /** The sphere test is exactly the negation of the no-intersection guard of the circle
      intersection: spheres that pass it are neither too far apart nor nested. */
  lemma IntersectingIsNotSeparated(n: Arith, c1: Vec, c2: Vec, r1: real, r2: real)
    requires n.Valid() && |c1| == |c2|
    ensures var d := Distance(n, c1, c2);
      IsIntersecting(n, c1, c2, r1, r2) <==> !(d > r1 + r2 || d < Abs(r1 - r2))
  {
  }

  /** The frame of sphere_intersections: v1 along c2 - c1, v2 along the rejection of
      c3 - c1 on v1, and v3 = v1 x v2. */
  datatype Frame = Frame(v1: Vec, v2: Vec, v3: Vec)

  /** The facts about the frame the intersection relies on: v1 and v2 are orthonormal,
      v1 is the unit vector along c2 - c1 (a positive multiple of it),
      v1 and v2 point towards c2 and c3 (so alpha2 = v1.(c2 - c1) and
      beta3 = v2.(c3 - c1) are positive divisors), v1 and v2 lie in the plane of the
      centres (orthogonal to its normal), and v3 is orthogonal to that plane. Together
      these fix the frame: v2 is the unit vector of the plane orthogonal to v1 on the
      side of c3. */
  predicate IsFrameOf(c1: Vec, c2: Vec, c3: Vec, f: Frame)
    requires |c1| == 3 && |c2| == 3 && |c3| == 3
  {
    var d21, d31 := Sub(c2, c1), Sub(c3, c1);
    var normal := Cross(d21, d31);
    && |f.v1| == 3 && |f.v2| == 3 && |f.v3| == 3
    && f.v3 == Cross(f.v1, f.v2)
    && Dot(f.v1, f.v1) == 1.0 && Dot(f.v2, f.v2) == 1.0 && Dot(f.v2, f.v1) == 0.0
    && Scale(Dot(f.v1, d21), f.v1) == d21
    && 0.0 < Dot(f.v1, d21) && 0.0 < Dot(f.v2, d31)
    && Dot(f.v1, normal) == 0.0 && Dot(f.v2, normal) == 0.0
    && Dot(f.v3, d21) == 0.0 && Dot(f.v3, d31) == 0.0
  }

  /** v1 = normalized(c2 - c1); v2 = normalized(rejection of c3 - c1 on v1);
      v3 = v1 x v2. The first failure of normalized or of the decomposition propagates. */
  function SphereFrame(n: Arith, c1: Vec, c2: Vec, c3: Vec): (r: Result<Frame>)
    requires n.Valid() && |c1| == 3 && |c2| == 3 && |c3| == 3
    ensures r.Err? ==> r.error == ZeroLengthVector
    ensures IsZeroLength(n, Sub(c2, c1)) ==> r.Err?
    ensures IsCollinear(n, c1, c2, c3) == Ok(false) && !n.Close(1.0, 0.0) ==> r.Ok?
    ensures r.Ok? ==> IsFrameOf(c1, c2, c3, r.value)
  {
    FrameDefined(n, c1, c2, c3);
    var v1 :- Normalized(n, Sub(c2, c1));
    var dec :- ProjectionRejectionReflection(n, v1, Sub(c3, c1));
    var v2 :- Normalized(n, dec.rejection);
    FrameProperties(n, c1, c2, c3, v1, dec, v2);
    Ok(Frame(v1, v2, Cross(v1, v2)))
  }

  lemma FrameProperties(n: Arith, c1: Vec, c2: Vec, c3: Vec, v1: Vec, dec: Decomposition, v2: Vec)
    requires n.Valid() && |c1| == 3 && |c2| == 3 && |c3| == 3
    requires Normalized(n, Sub(c2, c1)) == Ok(v1)
    requires ProjectionRejectionReflection(n, v1, Sub(c3, c1)) == Ok(dec)
    requires Normalized(n, dec.rejection) == Ok(v2)
    ensures IsFrameOf(c1, c2, c3, Frame(v1, v2, Cross(v1, v2)))
  {
    var k := Dot(v1, Sub(c3, c1)) / Dot(v1, v1);
    FrameFromParts(Sub(c2, c1), Sub(c3, c1), v1, v2, Length(n, Sub(c2, c1)),
                   Length(n, dec.rejection), k, dec.rejection);
  }

  /** The frame facts from d21 = L1 v1, d31 = k v1 + rej, rej = L2 v2 with rej orthogonal
      to v1, unit v1 and v2, and positive L1 and L2. */
  lemma FrameFromParts(d21: Vec, d31: Vec, v1: Vec, v2: Vec, l1: real, l2: real, k: real, rej: Vec)
    requires |d21| == 3 && |d31| == 3 && |v1| == 3 && |v2| == 3 && |rej| == 3
    requires Dot(v1, v1) == 1.0 && Dot(v2, v2) == 1.0 && 0.0 < l1 && 0.0 < l2
    requires Scale(l1, v1) == d21 && Scale(l2, v2) == rej
    requires Add(Scale(k, v1), rej) == d31 && Dot(rej, v1) == 0.0
    ensures var normal := Cross(d21, d31);
      && Dot(v2, v1) == 0.0
      && Scale(Dot(v1, d21), v1) == d21
      && 0.0 < Dot(v1, d21) && 0.0 < Dot(v2, d31)
      && Dot(v1, normal) == 0.0 && Dot(v2, normal) == 0.0
      && Dot(Cross(v1, v2), d21) == 0.0 && Dot(Cross(v1, v2), d31) == 0.0
  {
    // v2 . v1 = 0, from rej . v1 = l2 (v2 . v1)
    DotScaleLeft(l2, v2, v1);
    NonZeroFactor(Dot(v2, v1), l2);
    // v1 . d21 = l1 and v2 . d31 = l2
    ScaledSelfDot(l1, v1);
    DotSymmetric(v1, v2);
    ComponentAlongSecond(k, v1, v2, l2);
    var normal := Cross(d21, d31);
    InPlaneOrthogonal(d21, d31, normal, v1, v2, l1, l2, k, rej);
    InPlaneOrthogonal(d21, d31, Cross(v1, v2), v1, v2, l1, l2, k, rej);
    CrossOrthogonalLeft(d21, d31);
    CrossOrthogonalRight(d21, d31);
    CrossOrthogonalLeft(v1, v2);
    CrossOrthogonalRight(v1, v2);
    DotSymmetric(normal, d21);
    DotSymmetric(normal, d31);
    DotSymmetric(Cross(v1, v2), d21);
    DotSymmetric(Cross(v1, v2), d31);
  }

  /** Centres that pass the collinearity test give a frame, as long as the tolerance
      does not take 1 for 0: c2 - c1 is not zero-length because c1 and c2 differ, the
      decomposition on the unit v1 does not fail, and its rejection is the rejection of
      c3 - c1 on c2 - c1, which the test found not zero-length. */
  lemma FrameDefined(n: Arith, c1: Vec, c2: Vec, c3: Vec)
    requires n.Valid() && |c1| == 3 && |c2| == 3 && |c3| == 3
    ensures IsCollinear(n, c1, c2, c3) == Ok(false) && !n.Close(1.0, 0.0) ==>
      && Normalized(n, Sub(c2, c1)).Ok?
      && ProjectionRejectionReflection(n, Normalized(n, Sub(c2, c1)).value, Sub(c3, c1)).Ok?
      && !IsZeroLength(n, ProjectionRejectionReflection(n, Normalized(n, Sub(c2, c1)).value, Sub(c3, c1)).value.rejection)
  {
    if IsCollinear(n, c1, c2, c3) == Ok(false) && !n.Close(1.0, 0.0) {
      var d21, d31 := Sub(c2, c1), Sub(c3, c1);
      NotEqualNotZeroOffset(n, c1, c2);
      var v1 := Normalized(n, d21).value;
      var l := Length(n, d21);
      assert Scale(l, v1) == d21;
      var dec := ProjectionRejectionReflection(n, v1, d31).value;
      assert dec.rejection == Sub(d31, Scale(Dot(v1, d31) / Dot(v1, v1), v1));
      ProjectionOnMultiple(v1, d31, l);
    }
  }

  /** The projection of w on l v is its projection on v, for any nonzero l. */
  lemma ProjectionOnMultiple(v: Vec, w: Vec, l: real)
    requires |v| == |w| && l != 0.0 && Dot(v, v) != 0.0
    ensures Dot(Scale(l, v), Scale(l, v)) != 0.0
    ensures Scale(Dot(Scale(l, v), w) / Dot(Scale(l, v), Scale(l, v)), Scale(l, v))
      == Scale(Dot(v, w) / Dot(v, v), v)
  {
    var a, b := Dot(v, w), Dot(v, v);
    DotScaleLeft(l, v, w);
    DotScaleLeft(l, v, Scale(l, v));
    DotSymmetric(v, Scale(l, v));
    DotScaleLeft(l, v, v);
    var x, y := Dot(Scale(l, v), w), Dot(Scale(l, v), Scale(l, v));
    assert x == l * a;
    assert y == l * (l * b);
    CommonFactor(a, b, l, x, y);
    var c := x / y;
    ScaleScale(c, l, v);
    assert Scale(c, Scale(l, v)) == Scale(c * l, v);
    assert c * l == a / b;
    assert Scale(c * l, v) == Scale(a / b, v);
    assert Scale(c, Scale(l, v)) == Scale(a / b, v);
  }

  /** (l a) / (l^2 b), times l, is a / b. */
  lemma CommonFactor(a: real, b: real, l: real, x: real, y: real)
    requires l != 0.0 && b != 0.0 && x == l * a && y == l * (l * b)
    ensures y != 0.0 && (x / y) * l == a / b
  {
    var q := a / b;
    var m := q / l;
    assert a == q * b;
    assert m * l == q;
    NonZeroFactor(l, b);
    NonZeroFactor(l, l * b);
    assert x == m * y by {
      assert x == l * (q * b);
      assert q * b == (m * l) * b;
      assert l * ((m * l) * b) == m * (l * (l * b));
    }
    assert x / y == m;
  }

  /** (k v1 + l2 v2) . v2 = l2 for unit v2 orthogonal to v1. */
  lemma ComponentAlongSecond(k: real, v1: Vec, v2: Vec, l2: real)
    requires |v1| == |v2| && Dot(v2, v2) == 1.0 && Dot(v1, v2) == 0.0
    ensures Dot(v2, Add(Scale(k, v1), Scale(l2, v2))) == l2
  {
    DotSymmetric(v2, Add(Scale(k, v1), Scale(l2, v2)));
    OffsetDot(k, v1, Scale(l2, v2), v2);
    DotScaleLeft(l2, v2, v2);
  }

  /** A vector t orthogonal to d21 = l1 v1 and d31 = k v1 + l2 v2 (l1, l2 nonzero) is
      orthogonal to v1 and v2; conversely a t orthogonal to v1 and v2 is orthogonal to d21
      and d31. */
  lemma InPlaneOrthogonal(d21: Vec, d31: Vec, t: Vec, v1: Vec, v2: Vec, l1: real, l2: real, k: real, rej: Vec)
    requires |d21| == |d31| == |t| == |v1| == |v2| == |rej|
    requires 0.0 < l1 && 0.0 < l2
    requires Scale(l1, v1) == d21 && Scale(l2, v2) == rej && Add(Scale(k, v1), rej) == d31
    ensures Dot(d21, t) == 0.0 && Dot(d31, t) == 0.0 ==> Dot(v1, t) == 0.0 && Dot(v2, t) == 0.0
    ensures Dot(t, v1) == 0.0 && Dot(t, v2) == 0.0 ==> Dot(t, d21) == 0.0 && Dot(t, d31) == 0.0
  {
    DotScaleLeft(l1, v1, t);
    NonZeroFactor(Dot(v1, t), l1);
    OffsetDot(k, v1, rej, t);
    DotScaleLeft(l2, v2, t);
    NonZeroFactor(Dot(v2, t), l2);
    DotSymmetric(t, v1);
    DotSymmetric(t, v2);
    DotSymmetric(t, d21);
    DotSymmetric(t, d31);
  }

  /** v . (l v) = l for a unit v. */
  lemma ScaledSelfDot(l: real, v: Vec)
    requires Dot(v, v) == 1.0
    ensures Dot(v, Scale(l, v)) == l
  {
    DotSymmetric(v, Scale(l, v));
    DotScaleLeft(l, v, v);
  }

  /** (k v + q) . t = k (v . t) + q . t. */
  lemma OffsetDot(k: real, v: Vec, q: Vec, t: Vec)
    requires |v| == |q| == |t|
    ensures Dot(Add(Scale(k, v), q), t) == k * Dot(v, t) + Dot(q, t)
  {
    DotAddLeft(Scale(k, v), q, t);
    DotScaleLeft(k, v, t);
  }

  /** p and q are mirror images through the plane of the centres c1, c2, c3: their
      midpoint lies in that plane (it is orthogonal to the normal seen from c1) and the
      chord between them is orthogonal to both edges of the plane at c1. */
  predicate IsMirrorPair(c1: Vec, c2: Vec, c3: Vec, p: Pair)
    requires |c1| == 3 && |c2| == 3 && |c3| == 3 && |p.first| == 3 && |p.second| == 3
  {
    var normal := Cross(Sub(c2, c1), Sub(c3, c1));
    && Dot(Sub(Add(p.first, p.second), Scale(2.0, c1)), normal) == 0.0
    && Dot(Sub(p.first, p.second), Sub(c2, c1)) == 0.0
    && Dot(Sub(p.first, p.second), Sub(c3, c1)) == 0.0
  }

  /** sphere_intersections(c1, c2, c3, r1, r2, r3): collinear centres are rejected first
      (an error of that test propagates), then any pair of spheres that fails
      is_intersecting; otherwise the two points c1 + alpha v1 + beta v2 +- gamma v3, which
      are mirror images through the plane of the centres. */
  function SphereIntersections(n: Arith, c1: Vec, c2: Vec, c3: Vec, r1: real, r2: real, r3: real): (r: Result<Pair>)
    requires n.Valid() && |c1| == 3 && |c2| == 3 && |c3| == 3
    ensures IsCollinear(n, c1, c2, c3).Err? ==> r == Err(IsCollinear(n, c1, c2, c3).error)
    ensures IsCollinear(n, c1, c2, c3) == Ok(true) ==> r == Err(CollinearCentres)
    ensures IsCollinear(n, c1, c2, c3) == Ok(false) &&
      !(IsIntersecting(n, c1, c2, r1, r2) && IsIntersecting(n, c1, c3, r1, r3) && IsIntersecting(n, c2, c3, r2, r3))
      ==> r == Err(SpheresDoNotIntersect)
    ensures r.Err? ==> r.error == ZeroLengthVector || r.error == CollinearCentres || r.error == SpheresDoNotIntersect
    ensures r.Ok? ==>
      && IsCollinear(n, c1, c2, c3) == Ok(false)
      && IsIntersecting(n, c1, c2, r1, r2) && IsIntersecting(n, c1, c3, r1, r3) && IsIntersecting(n, c2, c3, r2, r3)
      && SphereFrame(n, c1, c2, c3).Ok?
      && r.value == FramePoints(n, c1, c2, c3, r1, r2, r3, SphereFrame(n, c1, c2, c3).value)
      && |r.value.first| == 3 && |r.value.second| == 3
      && IsMirrorPair(c1, c2, c3, r.value)
    ensures IsCollinear(n, c1, c2, c3) == Ok(false) && !n.Close(1.0, 0.0) &&
      IsIntersecting(n, c1, c2, r1, r2) && IsIntersecting(n, c1, c3, r1, r3) && IsIntersecting(n, c2, c3, r2, r3)
      ==> r.Ok?
  {
    var collinear :- IsCollinear(n, c1, c2, c3);
    if collinear then Err(CollinearCentres)
    else if !(IsIntersecting(n, c1, c2, r1, r2) && IsIntersecting(n, c1, c3, r1, r3) && IsIntersecting(n, c2, c3, r2, r3))
    then Err(SpheresDoNotIntersect)
    else
      var f :- SphereFrame(n, c1, c2, c3);
      Ok(FramePoints(n, c1, c2, c3, r1, r2, r3, f))
  }

  /** The two points of sphere_intersections in a frame: alpha and beta place the foot
      c1 + alpha v1 + beta v2 in the plane of the centres, and the points are foot +- gamma v3
      with gamma the square root of r1^2 - alpha^2 - beta^2. Their sum is twice the foot,
      their difference is 2 gamma v3, and they are mirror images through the plane. */
  function FramePoints(n: Arith, c1: Vec, c2: Vec, c3: Vec, r1: real, r2: real, r3: real, f: Frame): (p: Pair)
    requires |c1| == 3 && |c2| == 3 && |c3| == 3 && IsFrameOf(c1, c2, c3, f)
    ensures |p.first| == 3 && |p.second| == 3
    ensures exists alpha, beta, gamma ::
      var foot := Add(Add(c1, Scale(alpha, f.v1)), Scale(beta, f.v2));
      && p == Pair(Add(foot, Scale(gamma, f.v3)), Sub(foot, Scale(gamma, f.v3)))
      && Add(p.first, p.second) == Scale(2.0, foot)
      && Sub(p.first, p.second) == Scale(2.0 * gamma, f.v3)
    ensures IsMirrorPair(c1, c2, c3, p)
  {
    var alpha2 := Dot(f.v1, Sub(c2, c1));
    var alpha3 := Dot(f.v1, Sub(c3, c1));
    var beta3 := Dot(f.v2, Sub(c3, c1));
    var alpha := (r1 * r1 - r2 * r2 + alpha2 * alpha2) / (2.0 * alpha2);
    var beta := (r1 * r1 - r3 * r3 - 2.0 * alpha3 * alpha + alpha3 * alpha3 + beta3 * beta3) / (2.0 * beta3);
    var gamma := n.sqrt(r1 * r1 - alpha * alpha - beta * beta);
    var foot := Add(Add(c1, Scale(alpha, f.v1)), Scale(beta, f.v2));
    MirrorPoints(c1, c2, c3, f, alpha, beta, gamma);
    Pair(Add(foot, Scale(gamma, f.v3)), Sub(foot, Scale(gamma, f.v3)))
  }

  /** The collinearity check comes first: when it does not pass, the outcome of
      sphere_intersections does not depend on the radii. */
  lemma CollinearCheckFirst(n: Arith, c1: Vec, c2: Vec, c3: Vec,
                            r1: real, r2: real, r3: real, s1: real, s2: real, s3: real)
    requires n.Valid() && |c1| == 3 && |c2| == 3 && |c3| == 3
    requires IsCollinear(n, c1, c2, c3) != Ok(false)
    ensures SphereIntersections(n, c1, c2, c3, r1, r2, r3).Err?
    ensures SphereIntersections(n, c1, c2, c3, r1, r2, r3) == SphereIntersections(n, c1, c2, c3, s1, s2, s3)
  {
  }

  /** The two points foot +- gamma v3 of a frame are a mirror pair: their sum is twice the
      foot c1 + alpha v1 + beta v2, which lies in the plane of the centres, and their
      difference is 2 gamma v3, orthogonal to that plane. */
  lemma MirrorPoints(c1: Vec, c2: Vec, c3: Vec, f: Frame, alpha: real, beta: real, gamma: real)
    requires |c1| == 3 && |c2| == 3 && |c3| == 3 && IsFrameOf(c1, c2, c3, f)
    ensures var foot := Add(Add(c1, Scale(alpha, f.v1)), Scale(beta, f.v2));
      var p := Pair(Add(foot, Scale(gamma, f.v3)), Sub(foot, Scale(gamma, f.v3)));
      && Add(p.first, p.second) == Scale(2.0, foot)
      && Sub(p.first, p.second) == Scale(2.0 * gamma, f.v3)
      && IsMirrorPair(c1, c2, c3, p)
  {
    var normal := Cross(Sub(c2, c1), Sub(c3, c1));
    var foot := Add(Add(c1, Scale(alpha, f.v1)), Scale(beta, f.v2));
    var h := Scale(gamma, f.v3);
    ChordSymmetric(foot, h);
    DoubleOffset(foot, h);
    DoubleScale(gamma, f.v3);
    // the midpoint, seen from c1, is 2 (alpha v1 + beta v2), orthogonal to the normal
    var offset := Add(Scale(alpha, f.v1), Scale(beta, f.v2));
    TwiceOffset(c1, alpha, f.v1, beta, f.v2);
    DotScaleLeft(2.0, offset, normal);
    OffsetDot(alpha, f.v1, Scale(beta, f.v2), normal);
    DotScaleLeft(beta, f.v2, normal);
    // the chord is 2 gamma v3, orthogonal to c2 - c1 and c3 - c1
    DotScaleLeft(2.0 * gamma, f.v3, Sub(c2, c1));
    DotScaleLeft(2.0 * gamma, f.v3, Sub(c3, c1));
  }

  /** 2 (c + a v + b w) - 2 c = 2 (a v + b w). */
  lemma TwiceOffset(c: Vec, a: real, v: Vec, b: real, w: Vec)
    requires |c| == |v| == |w|
    ensures Sub(Scale(2.0, Add(Add(c, Scale(a, v)), Scale(b, w))), Scale(2.0, c))
         == Scale(2.0, Add(Scale(a, v), Scale(b, w)))
  {
  }

  /** The mean of the four candidates nearest_points selects from the pairs sol123, sol124,
      sol134, sol234 (in that order). */
  function MeanOfNearest(n: Arith, p123: Pair, p124: Pair, p134: Pair, p234: Pair): (r: Vec)
    requires n.Valid() && PairsOfDim([p123, p124, p134, p234], 3)
    ensures |r| == 3
    ensures var pairs := [p123, p124, p134, p234];
      exists s :: (IsNearestSelection(n, pairs, 3, s) &&
        Scale(4.0, r) == Add(Add(Add(pairs[0].At(s[0]), pairs[1].At(s[1])), pairs[2].At(s[2])), pairs[3].At(s[3])))
  {
    var pairs := [p123, p124, p134, p234];
    var s := NearestIndices(n, pairs, 3);
    assert IsNearerCandidate(n, pairs[0].At(s[0]), pairs[2], s[2]);
    assert IsNearerCandidate(n, pairs[0].At(s[0]), pairs[3], s[3]);
    var sum := Add(Add(Add(pairs[0].At(s[0]), pairs[1].At(s[1])), pairs[2].At(s[2])), pairs[3].At(s[3]));
    ScaleDivBy(4.0, sum);
    DivBy(sum, 4.0)
  }

  /** Four pairs have candidates of dimension 3. */
  lemma FourPairsOfDim(p123: Pair, p124: Pair, p134: Pair, p234: Pair)
    requires |p123.first| == |p123.second| == |p124.first| == |p124.second| == 3
    requires |p134.first| == |p134.second| == |p234.first| == |p234.second| == 3
    ensures PairsOfDim([p123, p124, p134, p234], 3)
  {
  }

  /** trilaterate(c1, c2, c3, c4, r1, r2, r3, r4): coplanar beacons are rejected first (an
      error of that test propagates); then the intersections of the spheres 123, 124, 134,
      234 in that order, the first error propagating; then the mean of the four
      candidates nearest_points selects. */
  function Trilaterate(n: Arith, c1: Vec, c2: Vec, c3: Vec, c4: Vec, r1: real, r2: real, r3: real, r4: real): (r: Result<Vec>)
    requires n.Valid() && |c1| == 3 && |c2| == 3 && |c3| == 3 && |c4| == 3
    ensures IsCoplanar(n, c1, c2, c3, c4).Err? ==> r == Err(IsCoplanar(n, c1, c2, c3, c4).error)
    ensures IsCoplanar(n, c1, c2, c3, c4) == Ok(true) ==> r == Err(CoplanarBeacons)
    ensures IsCoplanar(n, c1, c2, c3, c4) == Ok(false) ==>
      var s123, s124 := SphereIntersections(n, c1, c2, c3, r1, r2, r3), SphereIntersections(n, c1, c2, c4, r1, r2, r4);
      var s134, s234 := SphereIntersections(n, c1, c3, c4, r1, r3, r4), SphereIntersections(n, c2, c3, c4, r2, r3, r4);
      && (s123.Err? ==> r == Err(s123.error))
      && (s123.Ok? && s124.Err? ==> r == Err(s124.error))
      && (s123.Ok? && s124.Ok? && s134.Err? ==> r == Err(s134.error))
      && (s123.Ok? && s124.Ok? && s134.Ok? && s234.Err? ==> r == Err(s234.error))
      && (r.Ok? <==> s123.Ok? && s124.Ok? && s134.Ok? && s234.Ok?)
      && (r.Ok? ==> PairsOfDim([s123.value, s124.value, s134.value, s234.value], 3) &&
                    r.value == MeanOfNearest(n, s123.value, s124.value, s134.value, s234.value))
    ensures r.Ok? ==> IsCoplanar(n, c1, c2, c3, c4) == Ok(false) && |r.value| == 3
  {
    var coplanar :- IsCoplanar(n, c1, c2, c3, c4);
    if coplanar then Err(CoplanarBeacons)
    else
      var sol123 :- SphereIntersections(n, c1, c2, c3, r1, r2, r3);
      var sol124 :- SphereIntersections(n, c1, c2, c4, r1, r2, r4);
      var sol134 :- SphereIntersections(n, c1, c3, c4, r1, r3, r4);
      var sol234 :- SphereIntersections(n, c2, c3, c4, r2, r3, r4);
      FourPairsOfDim(sol123, sol124, sol134, sol234);
      Ok(MeanOfNearest(n, sol123, sol124, sol134, sol234))
  }

  /** The coplanarity check comes before any sphere intersection: when it does not pass,
      the outcome does not depend on the radii. */
  lemma CoplanarCheckFirst(n: Arith, c1: Vec, c2: Vec, c3: Vec, c4: Vec,
                           r1: real, r2: real, r3: real, r4: real, s1: real, s2: real, s3: real, s4: real)
    requires n.Valid() && |c1| == 3 && |c2| == 3 && |c3| == 3 && |c4| == 3
    requires IsCoplanar(n, c1, c2, c3, c4) != Ok(false)
    ensures Trilaterate(n, c1, c2, c3, c4, r1, r2, r3, r4).Err?
    ensures Trilaterate(n, c1, c2, c3, c4, r1, r2, r3, r4) == Trilaterate(n, c1, c2, c3, c4, s1, s2, s3, s4)
  {
  }
}
