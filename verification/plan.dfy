/** The `Plan` class: a shape tag, the `[rows, cols]` dimensions, the corridor
    width and grid pitch, and the occupancy grid computed once by the
    constructor. A grid entry is `true` where the source stores a `Cell` and
    `false` where it stores `null`.
 */
module Layout {
  import opened Host
  import opened Shape

  datatype Plan = Plan(
    shapeType: string,
    dimensions: seq<int>,
    corridorWidth: real,
    gridSize: real,
    grid: seq<seq<bool>>)

  /** The constructor reads `Dimensions[0]` and `Dimensions[1]` before it
      builds anything; a shorter list makes it throw. */
  datatype PlanError = DimensionIndexOutOfRange

  /** `g` is the occupancy matrix of a `rows x cols` box of shape `k`: the
      loops run `rows` and `cols` times (zero for a negative bound) and entry
      `(i, j)` is `IsInShape(i, j)`. */
  ghost predicate IsGridOf(g: seq<seq<bool>>, k: ShapeKind, rows: int, cols: int)
  {
    && |g| == Iterations(rows)
    && (forall i :: 0 <= i < |g| ==> |g[i]| == Iterations(cols))
    && (forall i, j :: 0 <= i < |g| && 0 <= j < |g[i]| ==>
          g[i][j] == InShape(k, Iterations(rows), Iterations(cols), i, j))
  }

  /** `Plan.GenerateGrid`: one row per outer iteration, one entry per inner. */
  method GenerateGrid(k: ShapeKind, rows: int, cols: int) returns (grid: seq<seq<bool>>)
    ensures |grid| == Iterations(rows)
    ensures forall i :: 0 <= i < |grid| ==> |grid[i]| == Iterations(cols)
    ensures forall i, j :: 0 <= i < |grid| && 0 <= j < |grid[i]| ==>
              (grid[i][j] <==> InShape(k, Iterations(rows), Iterations(cols), i, j))
  {
    grid := [];
    var i := 0;
    while i < rows
      invariant 0 <= i <= Iterations(rows)
      invariant |grid| == i
      invariant forall a :: 0 <= a < i ==> |grid[a]| == Iterations(cols)
      invariant forall a, b :: 0 <= a < i && 0 <= b < |grid[a]| ==>
                  (grid[a][b] <==> InShape(k, Iterations(rows), Iterations(cols), a, b))
    {
      var row: seq<bool> := [];
      var j := 0;
      while j < cols
        invariant 0 <= j <= Iterations(cols)
        invariant |row| == j
        invariant forall b :: 0 <= b < j ==> (row[b] <==> InShape(k, Iterations(rows), Iterations(cols), i, b))
      {
        row := row + [InShape(k, Iterations(rows), Iterations(cols), i, j)];
        j := j + 1;
      }
      grid := grid + [row];
      i := i + 1;
    }
  }

  /** `new Plan(type, dimensions, corridorWidth, gridSize)`. */
  method NewPlan(shapeType: string, dimensions: seq<int>, corridorWidth: real, gridSize: real)
    returns (r: Result<Plan, PlanError>)
    ensures r.Failure? <==> |dimensions| < 2
    ensures r.Success? ==>
      && r.value.shapeType == shapeType
      && r.value.dimensions == dimensions
      && r.value.corridorWidth == corridorWidth
      && r.value.gridSize == gridSize
      && IsGridOf(r.value.grid, ParseShape(shapeType), dimensions[0], dimensions[1])
  {
    if |dimensions| < 2 {
      return Failure(DimensionIndexOutOfRange);
    }
    var grid := GenerateGrid(ParseShape(shapeType), dimensions[0], dimensions[1]);
    return Success(Plan(shapeType, dimensions, corridorWidth, gridSize, grid));
  }

  /** The grid is determined by the shape and the two dimensions alone: two
      plans built from the same tag and dimensions have the same grid
      whatever their corridor width and grid pitch. */
  lemma {:induction false} GridDetermined(g1: seq<seq<bool>>, g2: seq<seq<bool>>, k: ShapeKind, rows: int, cols: int)
    requires IsGridOf(g1, k, rows, cols) && IsGridOf(g2, k, rows, cols)
    ensures g1 == g2
  {
    forall i | 0 <= i < |g1|
      ensures g1[i] == g2[i]
    {
      assert |g1[i]| == |g2[i]|;
      forall j | 0 <= j < |g1[i]|
        ensures g1[i][j] == g2[i][j]
      {
      }
    }
  }

  /** Number of `true` entries of a row. */
  function CountRow(row: seq<bool>): (n: nat)
    ensures n <= |row|
  {
    if row == [] then 0
    else CountRow(row[..|row| - 1]) + (if row[|row| - 1] then 1 else 0)
  }

  /** Number of occupied cells of a grid. */
  function Occupied(g: seq<seq<bool>>): nat
  {
    if g == [] then 0 else Occupied(g[..|g| - 1]) + CountRow(g[|g| - 1])
  }

  /** A row occupied exactly at its left `a` and right `|row| - b` entries
      has `a + |row| - b` occupied entries. */
  lemma {:induction false} CountRowEnds(row: seq<bool>, a: nat, b: nat)
    requires a <= b <= |row|
    requires forall j :: 0 <= j < |row| ==> (row[j] <==> j < a || b <= j)
    ensures CountRow(row) == a + |row| - b
  {
    if row != [] {
      var n := |row|;
      var a' := if a < n then a else n - 1;
      var b' := if b < n then b else n - 1;
      CountRowEnds(row[..n - 1], a', b');
    }
  }

  /** A grid whose first `h` rows hold `top` occupied entries each and whose
      other rows hold `bottom` each has `h*top + (|g|-h)*bottom` of them. */
  lemma {:induction false} OccupiedBands(g: seq<seq<bool>>, h: nat, top: nat, bottom: nat)
    requires h <= |g|
    requires forall i :: 0 <= i < h ==> CountRow(g[i]) == top
    requires forall i :: h <= i < |g| ==> CountRow(g[i]) == bottom
    ensures Occupied(g) == h * top + (|g| - h) * bottom
  {
    if g != [] {
      var n := |g|;
      var front := g[..n - 1];
      assert Occupied(g) == Occupied(front) + CountRow(g[n - 1]);
      if h == n {
        forall i | 0 <= i < n - 1
          ensures CountRow(front[i]) == top
        {
          assert front[i] == g[i];
        }
        OccupiedBands(front, n - 1, top, bottom);
        MulSucc(n - 1, top);
      } else {
        forall i | 0 <= i < n - 1
          ensures i < h ==> CountRow(front[i]) == top
          ensures h <= i ==> CountRow(front[i]) == bottom
        {
          assert front[i] == g[i];
        }
        OccupiedBands(front, h, top, bottom);
        MulSucc(n - 1 - h, bottom);
      }
    }
  }

  lemma MulSucc(a: nat, b: nat)
    ensures a * b + b == (a + 1) * b
  {
  }

  /** Splits a grid's occupied count by the two row bands, given each band's
      row pattern as a pair of column bounds. */
  lemma GridBands(g: seq<seq<bool>>, k: ShapeKind, rows: nat, cols: nat,
                  h: nat, a1: nat, b1: nat, a2: nat, b2: nat)
    requires IsGridOf(g, k, rows, cols)
    requires h <= rows && a1 <= b1 <= cols && a2 <= b2 <= cols
    requires forall i, j :: 0 <= i < h && 0 <= j < cols ==>
               (InShape(k, rows, cols, i, j) <==> j < a1 || b1 <= j)
    requires forall i, j :: h <= i < rows && 0 <= j < cols ==>
               (InShape(k, rows, cols, i, j) <==> j < a2 || b2 <= j)
    ensures Occupied(g) == h * (a1 + cols - b1) + (rows - h) * (a2 + cols - b2)
  {
    forall i | 0 <= i < |g|
      ensures i < h ==> CountRow(g[i]) == a1 + cols - b1
      ensures h <= i ==> CountRow(g[i]) == a2 + cols - b2
    {
      if i < h {
        CountRowEnds(g[i], a1, b1);
      } else {
        CountRowEnds(g[i], a2, b2);
      }
    }
    OccupiedBands(g, h, a1 + cols - b1, a2 + cols - b2);
  }

  /** The l-shape occupies `(rows/2)(cols/2) + (rows - rows/2)(cols - cols/2)`
      cells. */
  lemma LShapeOccupied(g: seq<seq<bool>>, rows: nat, cols: nat)
    requires IsGridOf(g, LShape, rows, cols)
    ensures Occupied(g) == (rows / 2) * (cols / 2) + (rows - rows / 2) * (cols - cols / 2)
  {
    GridBands(g, LShape, rows, cols, rows / 2, cols / 2, cols, cols - cols / 2, cols);
  }

  /** The mirrored l-shape occupies as many cells as the l-shape. */
  lemma MirroredLShapeOccupied(g: seq<seq<bool>>, rows: nat, cols: nat)
    requires IsGridOf(g, MirroredLShape, rows, cols)
    ensures Occupied(g) == (rows / 2) * (cols / 2) + (rows - rows / 2) * (cols - cols / 2)
  {
    GridBands(g, MirroredLShape, rows, cols, rows / 2, 0, cols - cols / 2, 0, cols / 2);
  }

  /** The u-shape occupies the two outer thirds of the top half and the
      left `cols - 2*(cols/3)` columns of the bottom half. */
  lemma UShapeOccupied(g: seq<seq<bool>>, rows: nat, cols: nat)
    requires IsGridOf(g, UShape, rows, cols)
    ensures Occupied(g) == (rows / 2) * (2 * (cols / 3)) + (rows - rows / 2) * (cols - 2 * (cols / 3))
  {
    GridBands(g, UShape, rows, cols, rows / 2, cols / 3, cols - cols / 3, cols - 2 * (cols / 3), cols);
  }

  /** The fallback shape occupies the whole `rows x cols` box. */
  lemma FullRectangleOccupied(g: seq<seq<bool>>, rows: nat, cols: nat)
    requires IsGridOf(g, FullRectangle, rows, cols)
    ensures Occupied(g) == rows * cols
  {
    GridBands(g, FullRectangle, rows, cols, rows, cols, cols, cols, cols);
  }

  /** A non-positive dimension leaves nothing occupied: no rows, or rows with
      no entries. */
  lemma NonPositiveDimensionsEmpty(g: seq<seq<bool>>, k: ShapeKind, rows: int, cols: int)
    requires IsGridOf(g, k, rows, cols)
    requires rows <= 0 || cols <= 0
    ensures rows <= 0 ==> g == []
    ensures Occupied(g) == 0
  {
    forall i | 0 <= i < |g|
      ensures CountRow(g[i]) == 0
    {
    }
    OccupiedBands(g, 0, 0, 0);
  }
}
