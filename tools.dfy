/** Grid and distance-array helpers (tools.py): the list of integer grid points built by
    nested loops, and two loops that collect distances into a list. */
module Tools {
  import opened Results
  import opened Numerics
  import opened Vectors
  import opened Geometry

  /** An optional argument; create_grid's z_size defaults to None. */
  datatype Option<T> = None | Some(value: T)

  /** The number of values range(k) yields: none for k <= 0. */
  function RangeCount(k: int): (r: nat)
    ensures k <= 0 ==> r == 0
    ensures 0 < k ==> r == k
  {
    if k <= 0 then 0 else k
  }

  /** `if z_size:` is taken for a present, non-zero z_size. */
  predicate HasDepth(zSize: Option<int>) {
    zSize.Some? && zSize.value != 0
  }

  /** Points the innermost step adds per (x, y): range(z_size) of them with a depth, else one. */
  function PerCell(zSize: Option<int>): (r: nat)
    ensures HasDepth(zSize) ==> r == RangeCount(zSize.value)
    ensures !HasDepth(zSize) ==> r == 1
  {
    if HasDepth(zSize) then RangeCount(zSize.value) else 1
  }

  /** The k-th point added for (x, y): [x, y, k] with a depth, else [x, y]. */
  function GridPoint(x: int, y: int, k: int, zSize: Option<int>): seq<int> {
    if HasDepth(zSize) then [x, y, k] else [x, y]
  }

  /** The points added for one (x, y), in the order of the innermost loop. */
  function Cells(x: int, y: int, zSize: Option<int>): (r: seq<seq<int>>)
    ensures |r| == PerCell(zSize)
    ensures forall k :: 0 <= k < |r| ==> r[k] == GridPoint(x, y, k, zSize)
  {
    if HasDepth(zSize) then seq(RangeCount(zSize.value), k => [x, y, k]) else [[x, y]]
  }

  /** The points added for one x while y runs over 0 .. ny - 1. */
  function Column(x: int, ny: nat, zSize: Option<int>): seq<seq<int>> {
    if ny == 0 then [] else Column(x, ny - 1, zSize) + Cells(x, ny - 1, zSize)
  }

  /** The points added while x runs over 0 .. nx - 1 and y over 0 .. ny - 1. */
  function Grid(nx: nat, ny: nat, zSize: Option<int>): seq<seq<int>> {
    if nx == 0 then [] else Grid(nx - 1, ny, zSize) + Column(nx - 1, ny, zSize)
  }

  /** create_grid(x_size, y_size, z_size): for x in range(x_size + 1), y in
      range(y_size + 1) and, with a depth, z in range(z_size), append the point. */
  method CreateGrid(xSize: int, ySize: int, zSize: Option<int>) returns (c: seq<seq<int>>)
    ensures c == Grid(RangeCount(xSize + 1), RangeCount(ySize + 1), zSize)
  {
    var nx, ny := RangeCount(xSize + 1), RangeCount(ySize + 1);
    c := [];
    for x := 0 to nx
      invariant c == Grid(x, ny, zSize)
    {
      c := AppendColumn(c, x, ny, zSize);
    }
  }

  /** The x loop body of create_grid: for y in range(y_size + 1), the points for (x, y). */
  method AppendColumn(c0: seq<seq<int>>, x: int, ny: nat, zSize: Option<int>) returns (c: seq<seq<int>>)
    ensures c == c0 + Column(x, ny, zSize)
  {
    c := c0;
    for y := 0 to ny
      invariant c == c0 + Column(x, y, zSize)
    {
      c := AppendCells(c, x, y, zSize);
    }
  }

  /** The y loop body of create_grid: with a depth, append [x, y, z] for z in
      range(z_size), else append [x, y]. */
  method AppendCells(c0: seq<seq<int>>, x: int, y: int, zSize: Option<int>) returns (c: seq<seq<int>>)
    ensures c == c0 + Cells(x, y, zSize)
  {
    c := c0;
    if HasDepth(zSize) {
      for z := 0 to RangeCount(zSize.value)
        invariant c == c0 + Cells(x, y, zSize)[..z]
      {
        c := c + [[x, y, z]];
      }
      assert Cells(x, y, zSize)[..RangeCount(zSize.value)] == Cells(x, y, zSize);
    } else {
      c := c + [[x, y]];
    }
  }

  /** The grid has nx * (ny * PerCell) points. */
  lemma {:induction false} GridSize(nx: nat, ny: nat, zSize: Option<int>)
    ensures |Grid(nx, ny, zSize)| == nx * (ny * PerCell(zSize))
  {
    if nx > 0 {
      GridSize(nx - 1, ny, zSize);
      ColumnSize(nx - 1, ny, zSize);
      Distribute(nx, ny * PerCell(zSize));
    }
  }

  /** A column has ny * PerCell points. */
  lemma {:induction false} ColumnSize(x: int, ny: nat, zSize: Option<int>)
    ensures |Column(x, ny, zSize)| == ny * PerCell(zSize)
  {
    if ny > 0 {
      ColumnSize(x, ny - 1, zSize);
      Distribute(ny, PerCell(zSize));
    }
  }

  /** (n - 1) m + m == n m */
  lemma Distribute(n: int, m: int)
    ensures (n - 1) * m + m == n * m
  {
  }

  /** The grid is in x-major order, then y, then z: the point for (x, y, k) sits at index
      (x * ny + y) * PerCell + k. */
  lemma GridIndex(nx: nat, ny: nat, zSize: Option<int>, x: int, y: int, k: int)
    requires 0 <= x < nx && 0 <= y < ny && 0 <= k < PerCell(zSize)
    ensures 0 <= (x * ny + y) * PerCell(zSize) + k < |Grid(nx, ny, zSize)|
    ensures Grid(nx, ny, zSize)[(x * ny + y) * PerCell(zSize) + k] == GridPoint(x, y, k, zSize)
  {
    var pc := PerCell(zSize);
    var j := y * pc + k;
    IndexBound(y, ny, pc, k);
    ColumnIndex(x, ny, zSize, y, k);
    GridOffset(nx, ny, zSize, x, j);
    assert (x * ny + y) * pc + k == x * (ny * pc) + j by {
      Regroup(x, ny, y, pc, k);
    }
  }

  /** (x ny + y) pc + k == x (ny pc) + (y pc + k) */
  lemma Regroup(x: int, ny: int, y: int, pc: int, k: int)
    ensures (x * ny + y) * pc + k == x * (ny * pc) + (y * pc + k)
  {
  }

  /** 0 <= y pc + k < n pc for 0 <= y < n and 0 <= k < pc. */
  lemma IndexBound(y: int, n: int, pc: int, k: int)
    requires 0 <= y < n && 0 <= k < pc
    ensures 0 <= y * pc + k < n * pc
  {
    MulMonotone(y + 1, n, pc);
    assert y * pc + pc == (y + 1) * pc;
  }

  lemma MulMonotone(a: int, b: int, m: int)
    requires a <= b && 0 <= m
    ensures a * m <= b * m
  {
    assert b * m - a * m == (b - a) * m;
  }

  /** Column(x, ny)[y * pc + k] is the k-th point for (x, y). */
  lemma {:induction false} ColumnIndex(x: int, ny: nat, zSize: Option<int>, y: int, k: int)
    requires 0 <= y < ny && 0 <= k < PerCell(zSize)
    ensures 0 <= y * PerCell(zSize) + k < |Column(x, ny, zSize)|
    ensures Column(x, ny, zSize)[y * PerCell(zSize) + k] == GridPoint(x, y, k, zSize)
  {
    var pc := PerCell(zSize);
    ColumnSize(x, ny - 1, zSize);
    ColumnSize(x, ny, zSize);
    IndexBound(y, ny, pc, k);
    if y < ny - 1 {
      IndexBound(y, ny - 1, pc, k);
      ColumnIndex(x, ny - 1, zSize, y, k);
    }
  }

  /** Grid(nx, ny)[x * (ny * pc) + j] is the j-th point of column x. */
  lemma {:induction false} GridOffset(nx: nat, ny: nat, zSize: Option<int>, x: int, j: int)
    requires 0 <= x < nx && 0 <= j < |Column(x, ny, zSize)|
    ensures 0 <= x * (ny * PerCell(zSize)) + j < |Grid(nx, ny, zSize)|
    ensures Grid(nx, ny, zSize)[x * (ny * PerCell(zSize)) + j] == Column(x, ny, zSize)[j]
  {
    var m := ny * PerCell(zSize);
    GridSize(nx - 1, ny, zSize);
    GridSize(nx, ny, zSize);
    ColumnSize(x, ny, zSize);
    IndexBound(x, nx, m, j);
    if x < nx - 1 {
      IndexBound(x, nx - 1, m, j);
      GridOffset(nx - 1, ny, zSize, x, j);
    }
  }

  /** Every grid point is the point for some (x, y, k) in range: nothing else is listed. */
  lemma {:induction false} GridMembers(nx: nat, ny: nat, zSize: Option<int>, p: seq<int>)
    requires p in Grid(nx, ny, zSize)
    ensures exists x, y, k :: 0 <= x < nx && 0 <= y < ny && 0 <= k < PerCell(zSize) && p == GridPoint(x, y, k, zSize)
  {
    if p in Grid(nx - 1, ny, zSize) {
      GridMembers(nx - 1, ny, zSize, p);
    } else {
      ColumnMembers(nx - 1, ny, zSize, p);
    }
  }

  lemma {:induction false} ColumnMembers(x: int, ny: nat, zSize: Option<int>, p: seq<int>)
    requires p in Column(x, ny, zSize)
    ensures exists y, k :: 0 <= y < ny && 0 <= k < PerCell(zSize) && p == GridPoint(x, y, k, zSize)
  {
    if p in Column(x, ny - 1, zSize) {
      ColumnMembers(x, ny - 1, zSize, p);
    } else {
      var k :| 0 <= k < |Cells(x, ny - 1, zSize)| && Cells(x, ny - 1, zSize)[k] == p;
    }
  }

  /** Without a depth (z_size None or 0) the grid is the 2D grid. */
  lemma {:induction false} NoDepthIsFlat(nx: nat, ny: nat, zSize: Option<int>)
    requires !HasDepth(zSize)
    ensures Grid(nx, ny, zSize) == Grid(nx, ny, None)
  {
    if nx > 0 {
      NoDepthIsFlat(nx - 1, ny, zSize);
      ColumnFlat(nx - 1, ny, zSize);
    }
  }

  lemma {:induction false} ColumnFlat(x: int, ny: nat, zSize: Option<int>)
    requires !HasDepth(zSize)
    ensures Column(x, ny, zSize) == Column(x, ny, None)
  {
    if ny > 0 {
      ColumnFlat(x, ny - 1, zSize);
    }
  }

  /** A negative z_size is truthy but range(z_size) is empty: the grid has no points. */
  lemma NegativeDepthIsEmpty(nx: nat, ny: nat, z: int)
    requires z < 0
    ensures Grid(nx, ny, Some(z)) == []
  {
    GridSize(nx, ny, Some(z));
  }

  /** point_array_diff(a1, a2): fails when the arrays differ in length, else the list of
      distance(a1[i], a2[i]). */
  method PointArrayDiff(n: Arith, a1: seq<Vec>, a2: seq<Vec>) returns (r: Result<seq<real>>)
    requires n.Valid()
    requires |a1| == |a2| ==> forall i :: 0 <= i < |a1| ==> |a1[i]| == |a2[i]|
    ensures r.Err? <==> |a1| != |a2|
    ensures r.Err? ==> r.error == SizeMismatch
    ensures r.Ok? ==> |r.value| == |a1| && forall i :: 0 <= i < |a1| ==> r.value[i] == Distance(n, a1[i], a2[i])
  {
    if |a1| != |a2| {
      return Err(SizeMismatch);
    }
    var diff: seq<real> := [];
    for i := 0 to |a1|
      invariant |diff| == i
      invariant forall j :: 0 <= j < i ==> diff[j] == Distance(n, a1[j], a2[j])
    {
      diff := diff + [Distance(n, a1[i], a2[i])];
    }
    return Ok(diff);
  }

  /** array_to_point_dist(array, p): the list of distance(array[i], p). */
  method ArrayToPointDist(n: Arith, points: seq<Vec>, p: Vec) returns (d: seq<real>)
    requires n.Valid()
    requires forall i :: 0 <= i < |points| ==> |points[i]| == |p|
    ensures |d| == |points|
    ensures forall i :: 0 <= i < |points| ==> d[i] == Distance(n, points[i], p)
  {
    d := [];
    for i := 0 to |points|
      invariant |d| == i
      invariant forall j :: 0 <= j < i ==> d[j] == Distance(n, points[j], p)
    {
      d := d + [Distance(n, points[i], p)];
    }
  }
}
