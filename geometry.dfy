/** Vector geometry (geometry.py): tolerance-snapped length and distance, the
    projection / rejection / reflection decomposition, normalisation, the collinearity and
    coplanarity tests built on it, and the nearest-pair matcher. */
module Geometry {
  import opened Results
  import opened Numerics
  import opened Vectors

  /** np.all(np.isclose(v, 0)) */
  predicate IsZeroLength(n: Arith, v: Vec) {
    forall i :: 0 <= i < |v| ==> n.Close(v[i], 0.0)
  }

  /** np.all(np.isclose(p1, p2)) */
  predicate IsEqual(n: Arith, p1: Vec, p2: Vec)
    requires |p1| == |p2|
  {
    forall i :: 0 <= i < |p1| ==> n.Close(p1[i], p2[i])
  }

  /** np.linalg.norm */
  function Norm(n: Arith, v: Vec): real {
    n.sqrt(Dot(v, v))
  }

  /** length(v): exactly 0 for a vector within tolerance of zero, else the norm. */
  function Length(n: Arith, v: Vec): (r: real)
    requires n.Valid()
    ensures 0.0 <= r
    ensures IsZeroLength(n, v) ==> r == 0.0
    ensures !IsZeroLength(n, v) ==> 0.0 < r
  {
    if IsZeroLength(n, v) then 0.0
    else
      NotZeroLengthHasPositiveSquare(n, v);
      SqrtPositive(n, Dot(v, v));
      Norm(n, v)
  }

  /** A length that is not snapped to zero squares to v.v. */
  lemma LengthSquared(n: Arith, v: Vec)
    requires n.Valid() && !IsZeroLength(n, v)
    ensures Length(n, v) * Length(n, v) == Dot(v, v)
  {
    NotZeroLengthHasPositiveSquare(n, v);
  }

  lemma NotZeroLengthHasPositiveSquare(n: Arith, v: Vec)
    requires n.Valid() && !IsZeroLength(n, v)
    ensures 0.0 < Dot(v, v)
  {
    var i :| 0 <= i < |v| && !n.Close(v[i], 0.0);
    DotSelfPositive(v, i);
  }

  /** Coordinates that are not close pairwise leave a difference that is not close to zero. */
  lemma NotEqualNotZeroDifference(n: Arith, p1: Vec, p2: Vec)
    requires n.Valid() && |p1| == |p2| && !IsEqual(n, p1, p2)
    ensures !IsZeroLength(n, Sub(p1, p2))
  {
    var i :| 0 <= i < |p1| && !n.Close(p1[i], p2[i]);
    assert Sub(p1, p2)[i] == p1[i] - p2[i];
  }

  /** The same for the offset from p1 to p2. */
  lemma NotEqualNotZeroOffset(n: Arith, p1: Vec, p2: Vec)
    requires n.Valid() && |p1| == |p2| && !IsEqual(n, p1, p2)
    ensures !IsZeroLength(n, Sub(p2, p1))
  {
    var i :| 0 <= i < |p1| && !n.Close(p1[i], p2[i]);
    assert Sub(p2, p1)[i] == p2[i] - p1[i];
  }

  /** distance(p1, p2): exactly 0 for points within tolerance of each other, else the
      length of their difference. */
  function Distance(n: Arith, p1: Vec, p2: Vec): (r: real)
    requires n.Valid() && |p1| == |p2|
    ensures 0.0 <= r
    ensures r == 0.0 <==> IsEqual(n, p1, p2)
  {
    if IsEqual(n, p1, p2) then 0.0
    else
      NotEqualNotZeroDifference(n, p1, p2);
      Length(n, Sub(p1, p2))
  }

  /** A distance that is not snapped to zero squares to the squared distance. */
  lemma DistanceSquared(n: Arith, p1: Vec, p2: Vec)
    requires n.Valid() && |p1| == |p2| && !IsEqual(n, p1, p2)
    ensures Distance(n, p1, p2) * Distance(n, p1, p2) == SqDist(p1, p2)
  {
    NotEqualNotZeroDifference(n, p1, p2);
    LengthSquared(n, Sub(p1, p2));
  }

  datatype Decomposition = Decomposition(projection: Vec, rejection: Vec, reflection: Vec)

  /** projection_rejection_reflection(v, w): w = w_p + w_r with w_p along v and w_r
      orthogonal to v, and the reflection w_f = w - 2 w_r = w_p - w_r. Fails when v.v is
      close to 0. */
  function ProjectionRejectionReflection(n: Arith, v: Vec, w: Vec): (r: Result<Decomposition>)
    requires n.Valid() && |v| == |w|
    ensures r.Err? <==> n.Close(Dot(v, v), 0.0)
    ensures r.Err? ==> r.error == ZeroLengthVector
    ensures r.Ok? ==>
      var d := r.value;
      && |d.projection| == |d.rejection| == |d.reflection| == |w|
      && Dot(v, v) != 0.0
      && d.projection == Scale(Dot(v, w) / Dot(v, v), v)
      && Add(d.projection, d.rejection) == w
      && d.reflection == Sub(d.projection, d.rejection)
      && Dot(d.rejection, v) == 0.0
      && Dot(d.reflection, d.reflection) == Dot(w, w)
  {
    var vw := Dot(v, w);
    var vv := Dot(v, v);
    if n.Close(vv, 0.0) then Err(ZeroLengthVector)
    else
      var wp := Scale(vw / vv, v);
      var wr := Sub(w, wp);
      var wf := Sub(w, Scale(2.0, wr));
      RejectionOrthogonal(v, w);
      ProjectionPlusRejection(wp, w);
      ReflectionIsProjectionMinusRejection(wp, w);
      ReflectionKeepsLength(vw / vv, v, w);
      Ok(Decomposition(wp, wr, wf))
  }

  /** Over exact reals the rejection of w on v is orthogonal to v. */
  lemma RejectionOrthogonal(v: Vec, w: Vec)
    requires |v| == |w| && Dot(v, v) != 0.0
    ensures Dot(Sub(w, Scale(Dot(v, w) / Dot(v, v), v)), v) == 0.0
  {
    var k := Dot(v, w) / Dot(v, v);
    DotSubLeft(w, Scale(k, v), v);
    DotScaleLeft(k, v, v);
    DotSymmetric(v, w);
    DivMulCancel(Dot(v, w), Dot(v, v));
  }

  lemma DivMulCancel(a: real, b: real)
    requires b != 0.0
    ensures (a / b) * b == a
  {
  }

  lemma ProjectionPlusRejection(p: Vec, w: Vec)
    requires |p| == |w|
    ensures Add(p, Sub(w, p)) == w
  {
  }

  lemma ReflectionIsProjectionMinusRejection(p: Vec, w: Vec)
    requires |p| == |w|
    ensures Sub(w, Scale(2.0, Sub(w, p))) == Sub(p, Sub(w, p))
  {
  }

  /** The reflection has the same length as w: |p - q|^2 == |p + q|^2 when p.q == 0. */
  lemma ReflectionKeepsLength(k: real, v: Vec, w: Vec)
    requires |v| == |w| && Dot(Sub(w, Scale(k, v)), v) == 0.0
    ensures var p := Scale(k, v); var q := Sub(w, p);
      Dot(Sub(p, q), Sub(p, q)) == Dot(w, w)
  {
    var p := Scale(k, v);
    var q := Sub(w, p);
    ProjectionPlusRejection(p, w);
    DotScaleLeft(k, v, q);
    DotSymmetric(v, q);
    DotSymmetric(p, q);
    assert Dot(p, q) == 0.0;
    // |p - q|^2 = p.p - 2 p.q + q.q and |p + q|^2 = p.p + 2 p.q + q.q
    DotSubLeft(p, q, Sub(p, q));
    DotSymmetric(p, Sub(p, q));
    DotSymmetric(q, Sub(p, q));
    DotSubLeft(p, q, p);
    DotSubLeft(p, q, q);
    DotAddLeft(p, q, Add(p, q));
    DotSymmetric(p, Add(p, q));
    DotSymmetric(q, Add(p, q));
    DotAddLeft(p, q, p);
    DotAddLeft(p, q, q);
  }

  /** normalized(v): the unit vector v / length(v); fails for a zero-length v. */
  function Normalized(n: Arith, v: Vec): (r: Result<Vec>)
    requires n.Valid()
    ensures r.Err? <==> IsZeroLength(n, v)
    ensures r.Err? ==> r.error == ZeroLengthVector
    ensures r.Ok? ==>
      && |r.value| == |v|
      && Dot(r.value, r.value) == 1.0
      && Scale(Length(n, v), r.value) == v
  {
    if IsZeroLength(n, v) then Err(ZeroLengthVector)
    else
      LengthSquared(n, v);
      UnitVector(v, Length(n, v));
      Ok(DivBy(v, Length(n, v)))
  }

  lemma UnitVector(v: Vec, len: real)
    requires 0.0 < len && len * len == Dot(v, v)
    ensures Dot(DivBy(v, len), DivBy(v, len)) == 1.0
    ensures Scale(len, DivBy(v, len)) == v
  {
    var u := DivBy(v, len);
    var k := 1.0 / len;
    DivByIsScale(v, len);
    DotScaleLeft(k, v, u);
    DotSymmetric(v, u);
    DotScaleLeft(k, v, v);
    InverseSquare(len, Dot(v, v));
    forall i | 0 <= i < |v|
      ensures Scale(len, u)[i] == v[i]
    {
      MulDivCancel(v[i], len);
    }
  }

  lemma InverseSquare(len: real, d: real)
    requires 0.0 < len && len * len == d
    ensures (1.0 / len) * ((1.0 / len) * d) == 1.0
  {
  }

  lemma MulDivCancel(x: real, len: real)
    requires len != 0.0
    ensures len * (x / len) == x
  {
  }

  /** Two of the three points are within tolerance of each other. */
  predicate AnyTwoEqual(n: Arith, p1: Vec, p2: Vec, p3: Vec)
    requires |p1| == |p2| == |p3|
  {
    IsEqual(n, p1, p2) || IsEqual(n, p1, p3) || IsEqual(n, p2, p3)
  }

  /** is_collinear(p1, p2, p3): true when two points coincide, else whether the rejection
      of p3 - p1 on p2 - p1 is zero-length. The decomposition's error propagates. */
  function IsCollinear(n: Arith, p1: Vec, p2: Vec, p3: Vec): (r: Result<bool>)
    requires n.Valid() && |p1| == |p2| == |p3|
    ensures AnyTwoEqual(n, p1, p2, p3) ==> r == Ok(true)
    ensures !AnyTwoEqual(n, p1, p2, p3) ==> (r.Err? <==> n.Close(SqDist(p2, p1), 0.0))
    ensures r.Err? ==> r.error == ZeroLengthVector
    ensures r == Ok(true) && !AnyTwoEqual(n, p1, p2, p3) ==>
      exists k :: IsZeroLength(n, Sub(Sub(p3, p1), Scale(k, Sub(p2, p1))))
    ensures r.Ok? && !AnyTwoEqual(n, p1, p2, p3) ==>
      var v, w := Sub(p2, p1), Sub(p3, p1);
      Dot(v, v) != 0.0 && (r.value <==> IsZeroLength(n, Sub(w, Scale(Dot(v, w) / Dot(v, v), v))))
  {
    if AnyTwoEqual(n, p1, p2, p3) then Ok(true)
    else
      var d :- ProjectionRejectionReflection(n, Sub(p2, p1), Sub(p3, p1));
      RejectionIsResidual(d.projection, d.rejection, Sub(p3, p1));
      Ok(IsZeroLength(n, d.rejection))
  }

  lemma RejectionIsResidual(p: Vec, q: Vec, w: Vec)
    requires |p| == |q| == |w| && Add(p, q) == w
    ensures q == Sub(w, p)
  {
    assert forall i :: 0 <= i < |q| ==> Add(p, q)[i] == p[i] + q[i];
  }

  /** Over exact reals, a point on the line through p1 and p2 is never reported as not
      collinear with them. */
  lemma ExactlyCollinearDetected(n: Arith, p1: Vec, p2: Vec, t: real)
    requires n.Valid() && |p1| == |p2|
    ensures IsCollinear(n, p1, p2, Add(p1, Scale(t, Sub(p2, p1)))) != Ok(false)
  {
    var v := Sub(p2, p1);
    var p3 := Add(p1, Scale(t, v));
    if IsCollinear(n, p1, p2, p3) == Ok(false) {
      AddThenSub(p1, Scale(t, v));
      CloseReflexive(n, 0.0);
      MultipleCoefficient(v, t);
      ZeroResidual(n, Scale(t, v));
    }
  }

  /** The projection coefficient of t v on v is t. */
  lemma MultipleCoefficient(v: Vec, t: real)
    requires Dot(v, v) != 0.0
    ensures Dot(v, Scale(t, v)) / Dot(v, v) == t
  {
    DotScaleLeft(t, v, v);
    DotSymmetric(v, Scale(t, v));
  }

  lemma ZeroResidual(n: Arith, w: Vec)
    requires n.Valid()
    ensures IsZeroLength(n, Sub(w, w))
  {
    CloseReflexive(n, 0.0);
    assert forall i :: 0 <= i < |w| ==> Sub(w, w)[i] == 0.0;
  }

  /** Python's short-circuit `a or b` on results that may be errors: an error of `a`
      propagates, a true `a` wins, otherwise the outcome is that of `b`. */
  function OrElse(a: Result<bool>, b: Result<bool>): (r: Result<bool>)
    ensures a == Ok(true) ==> r == Ok(true)
    ensures a.Err? ==> r == a
    ensures a == Ok(false) ==> r == b
  {
    match a
    case Err(_) => a
    case Ok(x) => if x then a else b
  }

  /** Three of the four points are reported collinear, tested in the order of the source's
      short-circuit chain. */
  function AnyThreeCollinear(n: Arith, p1: Vec, p2: Vec, p3: Vec, p4: Vec): (r: Result<bool>)
    requires n.Valid() && |p1| == |p2| == |p3| == |p4|
    ensures r == Ok(false) <==>
      && IsCollinear(n, p1, p2, p3) == Ok(false)
      && IsCollinear(n, p1, p2, p4) == Ok(false)
      && IsCollinear(n, p1, p3, p4) == Ok(false)
      && IsCollinear(n, p2, p3, p4) == Ok(false)
    ensures IsCollinear(n, p1, p2, p3) == Ok(true) ==> r == Ok(true)
    ensures r.Err? ==> r.error == ZeroLengthVector
    ensures IsCollinear(n, p1, p2, p3) != Ok(false) ==> r == IsCollinear(n, p1, p2, p3)
    ensures IsCollinear(n, p1, p2, p3) == Ok(false) && IsCollinear(n, p1, p2, p4) != Ok(false) ==>
      r == IsCollinear(n, p1, p2, p4)
    ensures (IsCollinear(n, p1, p2, p3) == Ok(false) && IsCollinear(n, p1, p2, p4) == Ok(false)
      && IsCollinear(n, p1, p3, p4) != Ok(false)) ==> r == IsCollinear(n, p1, p3, p4)
    ensures (IsCollinear(n, p1, p2, p3) == Ok(false) && IsCollinear(n, p1, p2, p4) == Ok(false)
      && IsCollinear(n, p1, p3, p4) == Ok(false)) ==> r == IsCollinear(n, p2, p3, p4)
  {
    OrElse(OrElse(OrElse(IsCollinear(n, p1, p2, p3), IsCollinear(n, p1, p2, p4)),
      IsCollinear(n, p1, p3, p4)), IsCollinear(n, p2, p3, p4))
  }

  /** is_coplanar(p1, p2, p3, p4) for 3D points: true when three of them are collinear,
      else whether the projection of p4 - p1 on the normal (p2 - p1) x (p3 - p1) is
      zero-length. Errors of the underlying decompositions propagate. */
  function IsCoplanar(n: Arith, p1: Vec, p2: Vec, p3: Vec, p4: Vec): (r: Result<bool>)
    requires n.Valid() && |p1| == 3 && |p2| == 3 && |p3| == 3 && |p4| == 3
    ensures AnyThreeCollinear(n, p1, p2, p3, p4) == Ok(true) ==> r == Ok(true)
    ensures AnyThreeCollinear(n, p1, p2, p3, p4).Err? ==> r == AnyThreeCollinear(n, p1, p2, p3, p4)
    ensures r.Err? ==> r.error == ZeroLengthVector
    ensures AnyThreeCollinear(n, p1, p2, p3, p4) == Ok(false) ==>
      var normal := Cross(Sub(p2, p1), Sub(p3, p1));
      var w := Sub(p4, p1);
      && (r.Err? <==> n.Close(Dot(normal, normal), 0.0))
      && (r.Ok? ==> Dot(normal, normal) != 0.0)
      && (r.Ok? && Dot(normal, normal) != 0.0 ==>
            (r.value <==> IsZeroLength(n, Scale(Dot(normal, w) / Dot(normal, normal), normal))))
    ensures r == Ok(false) ==>
      var normal := Cross(Sub(p2, p1), Sub(p3, p1));
      var w := Sub(p4, p1);
      && AnyThreeCollinear(n, p1, p2, p3, p4) == Ok(false)
      && Dot(normal, normal) != 0.0
      && !IsZeroLength(n, Scale(Dot(normal, w) / Dot(normal, normal), normal))
  {
    var collinear :- AnyThreeCollinear(n, p1, p2, p3, p4);
    if collinear then Ok(true)
    else
      var d :- ProjectionRejectionReflection(n, Cross(Sub(p2, p1), Sub(p3, p1)), Sub(p4, p1));
      Ok(IsZeroLength(n, d.projection))
  }

  /** Over exact reals, a point in the plane spanned at p1 by p2 - p1 and p3 - p1 is never
      reported as not coplanar with them. */
  lemma ExactlyCoplanarDetected(n: Arith, p1: Vec, p2: Vec, p3: Vec, s: real, t: real)
    requires n.Valid() && |p1| == 3 && |p2| == 3 && |p3| == 3
    ensures IsCoplanar(n, p1, p2, p3, Add(p1, Add(Scale(s, Sub(p2, p1)), Scale(t, Sub(p3, p1))))) != Ok(false)
  {
    var a, b := Sub(p2, p1), Sub(p3, p1);
    var p4 := Add(p1, Add(Scale(s, a), Scale(t, b)));
    var normal := Cross(a, b);
    var w := Sub(p4, p1);
    if IsCoplanar(n, p1, p2, p3, p4) == Ok(false) {
      AddThenSub(p1, Add(Scale(s, a), Scale(t, b)));
      InPlaneOrthogonalToNormal(a, b, s, t);
      ZeroCoefficientProjection(n, normal, w);
    }
  }

  lemma AddThenSub(p: Vec, q: Vec)
    requires |p| == |q|
    ensures Sub(Add(p, q), p) == q
  {
  }

  lemma InPlaneOrthogonalToNormal(a: Vec, b: Vec, s: real, t: real)
    requires |a| == 3 && |b| == 3
    ensures Dot(Cross(a, b), Add(Scale(s, a), Scale(t, b))) == 0.0
  {
    var normal := Cross(a, b);
    CrossOrthogonalLeft(a, b);
    CrossOrthogonalRight(a, b);
    DotAddLeft(Scale(s, a), Scale(t, b), normal);
    DotScaleLeft(s, a, normal);
    DotScaleLeft(t, b, normal);
    DotSymmetric(a, normal);
    DotSymmetric(b, normal);
    DotSymmetric(normal, Add(Scale(s, a), Scale(t, b)));
  }

  /** A vector orthogonal to v projects onto v as a zero-length vector. */
  lemma ZeroCoefficientProjection(n: Arith, v: Vec, w: Vec)
    requires n.Valid() && |v| == |w| && Dot(v, v) != 0.0 && Dot(v, w) == 0.0
    ensures IsZeroLength(n, Scale(Dot(v, w) / Dot(v, v), v))
  {
    CloseReflexive(n, 0.0);
    var proj := Scale(Dot(v, w) / Dot(v, v), v);
    assert forall i :: 0 <= i < |proj| ==> proj[i] == 0.0;
  }

  /** The two candidate points an intersection returns. */
  datatype Pair = Pair(first: Vec, second: Vec) {
    /** pair[i] for an index 0 or 1. */
    function At(i: int): Vec
      requires i == 0 || i == 1
    {
      if i == 0 then first else second
    }
  }

  /** Every candidate of every pair has dimension dim. */
  predicate PairsOfDim(pairs: seq<Pair>, dim: nat) {
    forall k :: 0 <= k < |pairs| ==> |pairs[k].first| == dim && |pairs[k].second| == dim
  }

  /** argsort(d)[0]: a position of a minimum. On an exact tie the model takes the first
      such position; NumPy's default argsort is not stable, so which tied entry the
      library picks is unspecified. */
  function FirstMinimum(d: seq<real>): (r: nat)
    requires |d| > 0
    ensures r < |d|
    ensures forall j :: 0 <= j < |d| ==> d[r] <= d[j]
    ensures forall j :: 0 <= j < r ==> d[r] < d[j]
  {
    if |d| == 1 then 0
    else
      var m := FirstMinimum(d[..|d| - 1]);
      if d[|d| - 1] < d[m] then |d| - 1 else m
  }

  /** The distances between the candidates of the first two pairs in the order
      00, 01, 10, 11: entry 2a + b compares pairs[0][a] with pairs[1][b]. */
  function CrossDistances(n: Arith, pairs: seq<Pair>, dim: nat): (r: seq<real>)
    requires n.Valid() && |pairs| >= 2 && PairsOfDim(pairs, dim)
    ensures |r| == 4
    ensures forall a, b :: 0 <= a < 2 && 0 <= b < 2 ==>
      r[2 * a + b] == Distance(n, pairs[0].At(a), pairs[1].At(b))
  {
    [Distance(n, pairs[0].first, pairs[1].first), Distance(n, pairs[0].first, pairs[1].second),
     Distance(n, pairs[0].second, pairs[1].first), Distance(n, pairs[0].second, pairs[1].second)]
  }

  /** The index nearest_points chooses for later pair k: 0 when its first candidate is no
      farther from the reference than its second. */
  function LaterIndex(n: Arith, reference: Vec, pair: Pair): (r: int)
    requires n.Valid() && |pair.first| == |reference| && |pair.second| == |reference|
    ensures IsNearerCandidate(n, reference, pair, r)
  {
    if Distance(n, reference, pair.first) <= Distance(n, reference, pair.second) then 0 else 1
  }

  /** The index LaterIndex picks for every pair, against one reference point. */
  function LaterIndices(n: Arith, reference: Vec, pairs: seq<Pair>, dim: nat): (r: seq<int>)
    requires n.Valid() && PairsOfDim(pairs, dim) && |reference| == dim
    ensures |r| == |pairs|
    ensures forall k :: 0 <= k < |pairs| ==> IsNearerCandidate(n, reference, pairs[k], r[k])
  {
    seq(|pairs|, k requires 0 <= k < |pairs| => LaterIndex(n, reference, pairs[k]))
  }

  /** The selection nearest_points returns, as a value. */
  function NearestIndices(n: Arith, pairs: seq<Pair>, dim: nat): (s: seq<int>)
    requires n.Valid() && |pairs| >= 2 && PairsOfDim(pairs, dim)
    ensures IsNearestSelection(n, pairs, dim, s)
  {
    var m := FirstMinimum(CrossDistances(n, pairs, dim));
    FirstMinimumIsNearestCombination(n, pairs, dim);
    LaterIndices(n, pairs[0].At(m / 2), pairs, dim)[0 := m / 2][1 := m % 2]
  }

  /** Candidate a of the first pair and candidate b of the second are the lowest-numbered
      combination of smallest distance. */
  predicate IsNearestCombination(n: Arith, pairs: seq<Pair>, dim: nat, a0: int, b0: int)
    requires n.Valid() && |pairs| >= 2 && PairsOfDim(pairs, dim)
    requires (a0 == 0 || a0 == 1) && (b0 == 0 || b0 == 1)
  {
    && (forall a, b :: 0 <= a < 2 && 0 <= b < 2 ==>
          Distance(n, pairs[0].At(a0), pairs[1].At(b0)) <= Distance(n, pairs[0].At(a), pairs[1].At(b)))
    && (forall a, b :: 0 <= a < 2 && 0 <= b < 2 && 2 * a + b < 2 * a0 + b0 ==>
          Distance(n, pairs[0].At(a0), pairs[1].At(b0)) < Distance(n, pairs[0].At(a), pairs[1].At(b)))
  }

  /** Index i of the pair is its candidate nearer the reference, the first one on a tie. */
  predicate IsNearerCandidate(n: Arith, reference: Vec, pair: Pair, i: int)
    requires n.Valid() && |pair.first| == |reference| && |pair.second| == |reference|
  {
    (i == 0 || i == 1) &&
    (i == 0 <==> Distance(n, reference, pair.first) <= Distance(n, reference, pair.second))
  }

  lemma FirstMinimumIsNearestCombination(n: Arith, pairs: seq<Pair>, dim: nat)
    requires n.Valid() && |pairs| >= 2 && PairsOfDim(pairs, dim)
    ensures var m := FirstMinimum(CrossDistances(n, pairs, dim));
      IsNearestCombination(n, pairs, dim, m / 2, m % 2)
  {
    var d := CrossDistances(n, pairs, dim);
    var m := FirstMinimum(d);
    assert m == 2 * (m / 2) + m % 2;
    assert d[m] == Distance(n, pairs[0].At(m / 2), pairs[1].At(m % 2));
  }

  /** The selection rule, stated independently of how it is computed: one index 0 or 1 per
      pair; the first two form the lowest-numbered combination of smallest cross
      distance; every later pair takes 0 exactly when its first candidate is no farther
      from the chosen candidate of the first pair than its second. */
  predicate IsNearestSelection(n: Arith, pairs: seq<Pair>, dim: nat, s: seq<int>)
    requires n.Valid() && |pairs| >= 2 && PairsOfDim(pairs, dim)
  {
    && |s| == |pairs|
    && (s[0] == 0 || s[0] == 1) && (s[1] == 0 || s[1] == 1)
    && IsNearestCombination(n, pairs, dim, s[0], s[1])
    && (forall k :: 2 <= k < |s| ==> IsNearerCandidate(n, pairs[0].At(s[0]), pairs[k], s[k]))
  }

  /** The rule admits exactly one selection. */
  lemma NearestSelectionUnique(n: Arith, pairs: seq<Pair>, dim: nat, s: seq<int>, t: seq<int>)
    requires n.Valid() && |pairs| >= 2 && PairsOfDim(pairs, dim)
    requires IsNearestSelection(n, pairs, dim, s) && IsNearestSelection(n, pairs, dim, t)
    ensures s == t
  {
    NearestCombinationUnique(n, pairs, dim, s[0], s[1], t[0], t[1]);
    forall k | 0 <= k < |s|
      ensures s[k] == t[k]
    {
      if k >= 2 {
        assert IsNearerCandidate(n, pairs[0].At(s[0]), pairs[k], s[k]);
        assert IsNearerCandidate(n, pairs[0].At(s[0]), pairs[k], t[k]);
      }
    }
  }

  lemma NearestCombinationUnique(n: Arith, pairs: seq<Pair>, dim: nat, a0: int, b0: int, a1: int, b1: int)
    requires n.Valid() && |pairs| >= 2 && PairsOfDim(pairs, dim)
    requires (a0 == 0 || a0 == 1) && (b0 == 0 || b0 == 1) && (a1 == 0 || a1 == 1) && (b1 == 0 || b1 == 1)
    requires IsNearestCombination(n, pairs, dim, a0, b0) && IsNearestCombination(n, pairs, dim, a1, b1)
    ensures a0 == a1 && b0 == b1
  {
    var d0 := Distance(n, pairs[0].At(a0), pairs[1].At(b0));
    var d1 := Distance(n, pairs[0].At(a1), pairs[1].At(b1));
    assert d0 <= d1 && d1 <= d0;
    assert 2 * a0 + b0 < 2 * a1 + b1 ==> d1 < d0;
    assert 2 * a1 + b1 < 2 * a0 + b0 ==> d0 < d1;
  }

  /** nearest_points(*pairs): fills an index array, first from the smallest of the four
      cross distances of the first two pairs, then pair by pair against the chosen
      candidate of the first pair. */
  method NearestPoints(n: Arith, pairs: seq<Pair>, dim: nat) returns (indices: array<int>)
    requires n.Valid() && |pairs| >= 2 && PairsOfDim(pairs, dim)
    ensures fresh(indices)
    ensures IsNearestSelection(n, pairs, dim, indices[..])
    ensures indices[..] == NearestIndices(n, pairs, dim)
  {
    indices := new int[|pairs|](_ => 0);
    var dist := FirstMinimum(CrossDistances(n, pairs, dim));
    if dist == 0 {
      indices[0], indices[1] := 0, 0;
    } else if dist == 1 {
      indices[0], indices[1] := 0, 1;
    } else if dist == 2 {
      indices[0], indices[1] := 1, 0;
    } else {
      indices[0], indices[1] := 1, 1;
    }
    var reference := pairs[0].At(indices[0]);
    ChooseLater(n, reference, pairs, dim, indices);
    FirstMinimumIsNearestCombination(n, pairs, dim);
    NearestSelectionUnique(n, pairs, dim, indices[..], NearestIndices(n, pairs, dim));
  }

  /** The loop of nearest_points over the pairs after the first two: each index picks the
      candidate nearer the reference; the first two entries are left alone. */
  method ChooseLater(n: Arith, reference: Vec, pairs: seq<Pair>, dim: nat, indices: array<int>)
    requires n.Valid() && PairsOfDim(pairs, dim) && |reference| == dim
    requires indices.Length == |pairs| >= 2
    modifies indices
    ensures indices[0] == old(indices[0]) && indices[1] == old(indices[1])
    ensures forall j :: 2 <= j < |pairs| ==> IsNearerCandidate(n, reference, pairs[j], indices[j])
  {
    for k := 2 to |pairs|
      invariant indices[0] == old(indices[0]) && indices[1] == old(indices[1])
      invariant forall j :: 2 <= j < k ==> IsNearerCandidate(n, reference, pairs[j], indices[j])
    {
      indices[k] := LaterIndex(n, reference, pairs[k]);
    }
  }
}
