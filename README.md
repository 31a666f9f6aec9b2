# Trilateration, modelled in Dafny

This project models the core of a small Python library. The library recovers a point from its distances to fixed beacons, in 2D (three circles) and in 3D (four spheres). The model covers four parts:

- **Vector geometry** (`geometry.py`). Length and distance, snapped to exactly zero within tolerance. The projection / rejection / reflection decomposition, `normalized`, and the collinearity and coplanarity tests built on the decomposition. `nearest_points`, which picks one candidate from every two-candidate pair.
- **2D trilateration** (`trilaterate2d.py`). `perpendicular`, `circle_intersect` with its two guards, and `trilaterate` with its two checks and three variants. Also the construction of the least-squares system in `trilaterate_lstsq`.
- **3D trilateration** (`trilaterate3d.py`). `is_intersecting`, `sphere_intersections` with its guards and the frame it builds, and `trilaterate` over four spheres.
- **Grid and distance-array helpers** (`tools.py`). `create_grid`, `point_array_diff` and `array_to_point_dist`.

Numbers are exact `real`s. `np.isclose(a, b)` is `Arith.Close(a, b)`, which is `|a - b| <= atol + rtol * |b|`. The tolerances are fields of an `Arith` value, and so is the square root. The only facts assumed about `sqrt` are `Arith.Valid()`: for `x >= 0`, `sqrt(x) >= 0` and `sqrt(x) * sqrt(x) == x`. `norm(v)` is `sqrt(v . v)`. Every `raise ValueError` is an `Err` of the `Results.Error` datatype, one constructor per distinct error message: `ZeroLengthVector` stands for both zero-length raises (geometry.py:55 and geometry.py:67), and `NoSolution` for both no-solution raises of variants 1 and 2 (trilaterate2d.py:78 and trilaterate2d.py:90). Errors propagate the way exceptions do, in the order the source raises them.

Files:

- `results.dfy`: errors and `Result`.
- `numerics.dfy`: NumPy's default tolerances, `Close`, `Abs` and the sqrt facts.
- `vectors.dfy`: `+`, `-`, scaling, dot and cross products, and their algebra.
- `geometry.dfy`, `trilaterate2d.dfy`, `trilaterate3d.dfy` and `tools.dfy`: one module per source file.

Where the code works by updating state, the model is imperative:

- nearest_points fills an index array;
- the `b` vector of the least-squares system is filled element by element;
- the three helpers in `tools.py` append to lists in loops.

There the model is a method with loop invariants, proved against specification functions. Straight-line code is written as functions.

## Model

| member | source | states |
|---|---|---|
| Geometry.Length | geometry.py:15-20 | never negative; exactly 0 when every coordinate is close to 0, and strictly positive otherwise |
| Geometry.LengthSquared | geometry.py:20 | a length that is not snapped to zero squares to v . v |
| Geometry.NotEqualNotZeroDifference | geometry.py:30-38 | points that are not coordinate-wise close leave a difference that is not zero-length |
| Geometry.NotEqualNotZeroOffset | geometry.py:30-38 | the same for the offset p2 - p1, so the `normalized(d21)` of trilaterate3d.py:39 succeeds for centres that are not close |
| Geometry.Distance | geometry.py:33-38 | never negative; exactly 0 if and only if the points are coordinate-wise close |
| Geometry.DistanceSquared | geometry.py:33-38 | a distance that is not snapped to zero squares to the squared Euclidean distance |
| Geometry.ProjectionRejectionReflection | geometry.py:41-61 | fails (zero-length vector) exactly when v . v is close to 0; otherwise v . v is nonzero, w_p = (v . w / v . v) v, w_p + w_r = w, w_f = w_p - w_r, w_r is orthogonal to v, and w_f is as long as w |
| Geometry.RejectionOrthogonal | geometry.py:57-58 | over exact reals the rejection w - (v.w / v.v) v is orthogonal to v |
| Geometry.ReflectionKeepsLength | geometry.py:47-48 | the reflection w_p - w_r has the same squared length as w |
| Geometry.Normalized | geometry.py:64-69 | fails exactly for a zero-length v; otherwise a unit vector that, scaled by length(v), gives v back |
| Geometry.IsCollinear | geometry.py:72-82 | true whenever two points are close; otherwise fails exactly when p2 - p1 squares to about 0; otherwise the answer is exactly whether the rejection (p3 - p1) - ((p2 - p1) . (p3 - p1) / (p2 - p1) . (p2 - p1)) (p2 - p1) is zero-length, with a nonzero divisor |
| Geometry.ExactlyCollinearDetected | geometry.py:79-82 | a point on the line through p1 and p2 is never reported as not collinear |
| Geometry.AnyThreeCollinear | geometry.py:88 | false exactly when all four triples, tested in source order, are reported not collinear; short-circuits like `or`: the outcome is that of the first triple whose outcome is not false (true or an error), and false when there is none |
| Geometry.IsCoplanar | geometry.py:85-94 | true when three points are collinear; an error of those tests propagates; otherwise fails exactly when the normal (p2-p1)x(p3-p1) squares to about 0, and else answers exactly whether the projection (normal . (p4-p1) / normal . normal) normal is zero-length |
| Geometry.ExactlyCoplanarDetected | geometry.py:90-94 | a point in the plane spanned at p1 by p2 - p1 and p3 - p1 is never reported as not coplanar |
| Geometry.FirstMinimum | geometry.py:105-109 | argsort(d)[0]: a position of a minimum, and the first such position |
| Geometry.FirstMinimumIsNearestCombination | geometry.py:105-116 | the branch on dist[0] picks the lowest-numbered combination of smallest cross distance |
| Geometry.NearestIndices | geometry.py:97-123 | the selection satisfies the nearest-selection rule (one index in {0, 1} per pair; nearest combination first; later pairs nearer the reference, ties to 0) |
| Geometry.NearestSelectionUnique | geometry.py:97-123 | the nearest-selection rule admits exactly one selection |
| Geometry.NearestCombinationUnique | geometry.py:105-116 | the smallest, lowest-numbered combination is unique |
| Geometry.NearestPoints | geometry.py:97-123 | the index array it fills satisfies the nearest-selection rule and equals NearestIndices |
| Geometry.ChooseLater | geometry.py:119-121 | the loop sets every index from 2 on to the candidate nearer the reference and leaves the first two alone |
| Vectors.CrossOrthogonalLeft | trilaterate3d.py:44 | a x b is orthogonal to a |
| Vectors.CrossOrthogonalRight | trilaterate3d.py:44 | a x b is orthogonal to b |
| Vectors.SqDistSymmetric | geometry.py:33-38 | the squared distance is symmetric |
| Trilateration2D.Perpendicular | trilaterate2d.py:22-24 | (-p1, p0) is orthogonal to p and has the same squared length |
| Trilateration2D.PerpendicularTwice | trilaterate2d.py:22-24 | rotating twice negates the vector |
| Trilateration2D.CircleIntersect | trilaterate2d.py:27-48 | equal-circles error exactly when d is close to 0 and r1 is close to r2 (tested first); no-intersection error exactly when that does not hold and d > r1 + r2 or d < abs(r1 - r2); otherwise d > 0, the two points add up to twice the foot c1 + alpha (c2 - c1), differ by 2 beta perpendicular(c2 - c1), and their chord is orthogonal to c2 - c1 |
| Trilateration2D.GuardsLeavePositiveDistance | trilaterate2d.py:32-36 | once both guards pass, d > 0, so r1 / d and r2 / d are defined |
| Trilateration2D.GuardsLeaveRealRoot | trilaterate2d.py:33-40 | once both guards pass, d > 0 and (r1/d)^2 - alpha^2 >= 0, so beta's square root has a non-negative argument |
| Trilateration2D.DiscriminantFactors | trilaterate2d.py:39-40 | 4 ((r1/d)^2 - alpha^2) factors into four linear terms in r1/d and r2/d |
| Trilateration2D.DiscriminantNonNegative | trilaterate2d.py:35-40 | the triangle inequalities the guard leaves make the discriminant non-negative |
| Trilateration2D.CircleIntersectOnCircles | trilaterate2d.py:38-48 | over exact reals both returned points lie exactly on both circles |
| Trilateration2D.CircleIntersectComplete | trilaterate2d.py:27-48 | conversely, for centres that are not close and non-negative radii, every point exactly on both circles passes both guards and is one of the two returned points, so neither error hides an intersection |
| Trilateration2D.CircleIntersectPoints | trilaterate2d.py:43-48 | the points are c1 + alpha v1 + beta v2 and c1 + alpha v1 - beta v2 |
| Trilateration2D.CircleIntersectCoincident | trilaterate2d.py:38-48 | the two points are equal if and only if beta = 0 |
| Trilateration2D.ChordOrthogonal | trilaterate2d.py:43-46 | the chord between the two points is orthogonal to c2 - c1 |
| Trilateration2D.SolveOnThirdCircle | trilaterate2d.py:68-78 | an intersection error propagates; the first point is returned when it is on circle 3, else the second when it is; otherwise "no solution"; a result is on circle 3 and exactly on circles 1 and 2 |
| Trilateration2D.SolveClosestToThirdCircle | trilaterate2d.py:79-95 | an intersection error of circles 1 and 2 propagates; otherwise one of the two points whose deviation from circle 3 is smallest, the second on a tie, exactly on circles 1 and 2 |
| Trilateration2D.MeanOfSelected | trilaterate2d.py:107 | three times the result is the sum of the selected candidates |
| Trilateration2D.MeanOfNearest | trilaterate2d.py:106-107 | three times the result is the sum of the candidates of a selection satisfying the nearest-selection rule |
| Trilateration2D.SolveMeanOfNearest | trilaterate2d.py:97-107 | errors of the intersections 12, 13, 23 propagate in that order; succeeds exactly when all three succeed, with the mean of the nearest candidates |
| Trilateration2D.Trilaterate | trilaterate2d.py:51-107 | coinciding beacons fail first and collinear beacons second (an error of the collinearity test propagates), whatever the variant; once both checks pass, the result is exactly SolveOnThirdCircle for variant 1, SolveClosestToThirdCircle for variant 2 and SolveMeanOfNearest for every other value; a result has two coordinates and the on-circle facts of its variant |
| Trilateration2D.ChecksPrecedeVariant | trilaterate2d.py:61-66 | when the beacon checks do not pass, the outcome is an error and is the same for every variant |
| Trilateration2D.OtherVariantsAreThird | trilaterate2d.py:68-97 | a variant other than 1 or 2 behaves as variant 3 |
| Trilateration2D.LeastSquaresSystem | trilaterate2d.py:122-127 | row i of A is [1, -2 x_i, -2 y_i] and b[i] = r_i^2 - x_i^2 - y_i^2, for every beacon |
| Trilateration2D.ExactPointSolvesSystem | trilaterate2d.py:114-118 | a point at distance r_i from beacon i satisfies row i with unknowns [x^2 + y^2, x, y], in that order |
| Trilateration2D.AsWrittenEstimateSwapsCoordinates | trilaterate2d.py:123-130 | for beacons (0,0), (6,0), (0,8) and the point (3,4), the exact solution is [25, 3, 4] and the estimate as written is (4, 3) |
| Trilateration2D.ExactSolutionRecoversPoint | trilaterate2d.py:122-130 | for non-collinear beacons, an exact solution of the system read as [s1, s2] is the point |
| Trilateration3D.IntersectingIsNotSeparated | trilaterate3d.py:21-27 | is_intersecting holds exactly when abs(r1 - r2) <= d <= r1 + r2, the negation of circle_intersect's no-intersection guard |
| Trilateration3D.SphereFrame | trilaterate3d.py:39-44 | fails only with a zero-length error, and does fail when c2 - c1 is zero-length; succeeds whenever the collinearity test reports the centres not collinear and the tolerance does not take 1 for 0; a frame has v1, v2 orthonormal, v1 the unit vector along c2 - c1 (c2 - c1 = (v1 . (c2 - c1)) v1), v1 . (c2 - c1) > 0 and v2 . (c3 - c1) > 0, both lie in the plane of the centres, and v3 = v1 x v2 is orthogonal to it |
| Trilateration3D.FrameProperties | trilaterate3d.py:41-51 | the frame built from normalized and the rejection has those properties |
| Trilateration3D.FrameDefined | trilaterate3d.py:39-42 | for centres the collinearity test reports not collinear (and 1 not close to 0), `normalized(d21)`, the decomposition on v1 and `normalized` of its rejection all succeed, because that rejection is the one the test found not zero-length |
| Trilateration3D.ProjectionOnMultiple | trilaterate3d.py:39-41 | the projection of w on l v equals its projection on v for nonzero l, so decomposing d31 on the unit v1 and on d21 gives the same rejection |
| Numerics.DefaultsSeparateOneFromZero | geometry.py:54 | with NumPy's default tolerances, `np.isclose(1, 0)` is false, so the hypothesis of the frame's success direction holds |
| Trilateration3D.FramePoints | trilaterate3d.py:47-60 | the points are foot +- gamma v3 with foot = c1 + alpha v1 + beta v2; they add up to twice the foot, differ by 2 gamma v3, and are mirror images through the plane of the centres |
| Trilateration3D.MirrorPoints | trilaterate3d.py:59-60 | foot +- gamma v3 form a mirror pair: their midpoint is in the plane of the centres and their chord is orthogonal to it |
| Trilateration3D.SphereIntersections | trilaterate3d.py:30-62 | a collinearity error propagates; collinear centres fail first; a failing sphere pair fails second; success implies both checks passed and yields FramePoints of the frame, a mirror pair; when both checks pass (and 1 is not close to 0) it succeeds |
| Trilateration3D.CollinearCheckFirst | trilaterate3d.py:33-34 | when the collinearity check does not pass, the outcome is an error that does not depend on the radii |
| Trilateration3D.MeanOfNearest | trilaterate3d.py:81-82 | four times the result is the sum of the candidates of a selection satisfying the nearest-selection rule |
| Trilateration3D.Trilaterate | trilaterate3d.py:65-82 | a coplanarity error propagates; coplanar beacons fail first; then errors of the intersections 123, 124, 134, 234 propagate in that order; succeeds exactly when all four succeed, with the mean of the nearest candidates |
| Trilateration3D.CoplanarCheckFirst | trilaterate3d.py:70-71 | when the coplanarity check does not pass, the outcome is an error that does not depend on the radii |
| Tools.CreateGrid | tools.py:19-29 | the nested loops build exactly the grid Grid(x_size + 1, y_size + 1, z_size) |
| Tools.AppendColumn | tools.py:23-28 | the y loop appends the column for x |
| Tools.AppendCells | tools.py:24-28 | the z loop (or the 2D append) appends the points for (x, y) |
| Tools.GridSize | tools.py:21-28 | the grid over nx values of x and ny of y has nx (ny PerCell(z_size)) points, nx = x_size + 1 and ny = y_size + 1 for non-negative sizes |
| Tools.GridIndex | tools.py:22-26 | x-major order, then y, then z: the point for (x, y, k) is at index (x (y_size + 1) + y) PerCell + k |
| Tools.GridMembers | tools.py:22-28 | every listed point is [x, y(, z)] with 0 <= x <= x_size, 0 <= y <= y_size, 0 <= z < z_size |
| Tools.NoDepthIsFlat | tools.py:24 | a z_size of None or 0 gives the 2D grid |
| Tools.NegativeDepthIsEmpty | tools.py:24-25 | a negative z_size is truthy but gives an empty grid |
| Tools.PointArrayDiff | tools.py:32-40 | fails exactly when the arrays differ in length; otherwise one entry per point, entry i being distance(a1[i], a2[i]) |
| Tools.ArrayToPointDist | tools.py:43-48 | one entry per point, entry i being distance(array[i], p) |

The code and the docstring of `trilaterate_lstsq` disagree. The docstring (trilaterate2d.py:114-117) orders the unknowns as `[q, y, x]`. The matrix `A` of line 123 puts the x coordinates in column 1 and the y coordinates in column 2, so the unknowns are `[q, x, y]`. The model follows the code. See the finding below.

## Left out

- Floating point. Every number is an exact real, so rounding and NaN are not modelled. The square root is constrained only on non-negative arguments, so where NumPy returns NaN (`gamma` of `sphere_intersections` with a negative argument) the model's value is unconstrained.
- Trilateration3D.SphereIntersections: does not state that the points lie on the three spheres. Whether `alpha`/`beta` leave a non-negative argument for `gamma`'s square root is claimed in a comment of the source (trilaterate3d.py:56-57) and not checked by it. The contract states the mirror property instead.
- Trilateration3D.FramePoints: states the sum/difference shape and the mirror property, not the values of `alpha`, `beta` and `gamma`.
- `tools.noise` (tools.py:12-16): it draws random numbers and has no statable output.
- The `np.linalg.lstsq` solve (trilaterate2d.py:128): a call into a numerical library. The model builds `A` and `b` and states what an exact solution of three rows is.
- Plotting and the driver scripts (`main.py`, `plotter.py`, `demo_trilateratie2D.py`): I/O and random trials.
- Variant 2's `if p is None` fallbacks (trilaterate2d.py:83-90): `circle_intersect` raises rather than returning `None`, so they never run. The model lets the error of circles 1 and 2 propagate.
- Geometry.NearestPoints: requires at least two pairs; with fewer the source raises an `IndexError`, which the model does not represent. The index array is `int8` in the source; its entries are 0 or 1, so the width does not matter.
- Default arguments: `trilaterate`'s `variant=1` (trilaterate2d.py:51) and `create_grid`'s `x_size=10, y_size=10, z_size=None` (tools.py:19) are explicit parameters of Trilateration2D.Trilaterate and Tools.CreateGrid; a call that omits them is the call with those values.
- Geometry.FirstMinimum: models `argsort(...)[0]` for the four distances as a position of the minimum, breaking exact ties at the first one. NumPy's default argsort (`'quicksort'`) is not stable, so on an exact tie the library's choice is unspecified; the model fixes one.
- Tools.CreateGrid: `z_size` is modelled as an optional integer (truthy is `Some(z)` with `z != 0`); the final `np.array` conversion is the sequence itself.
- Tools.PointArrayDiff and Tools.ArrayToPointDist: require points of equal dimension wherever a distance is taken; NumPy's broadcasting or shape errors for mismatched points are not modelled.
- Trilateration2D.LeastSquaresSystem: the beacons are a sequence of points (the source's columns of `c`), and `A` is a sequence of rows; `b` is an array filled in the loop. It requires at least as many radii as beacons; with fewer, the source's `r[i]` (trilaterate2d.py:127) raises an `IndexError`, which the model does not represent.

## Findings

| source | as written | input that shows it | evidently intended | confidence | as-written member | corrected member |
|---|---|---|---|---|---|---|
| trilaterate2d.py:130 | returns `[qyx[2], qyx[1]]`, reading the solution as `[q, y, x]` although `A`'s columns (line 123) are `[1, -2x_i, -2y_i]`, so the solution is `[q, x, y]` and the result is `(y, x)` | beacons (0,0), (6,0), (0,8), radii 5, 5, 5: the exact solution is [25, 3, 4] and the function returns (4, 3) instead of (3, 4) | return `[qyx[1], qyx[2]]`, which recovers the point whenever the system is solved exactly | not executed | Trilateration2D.LeastSquaresEstimateAsWritten, Trilateration2D.AsWrittenEstimateSwapsCoordinates | Trilateration2D.LeastSquaresEstimate, Trilateration2D.ExactSolutionRecoversPoint |
