/** The `FillCells` component: for each unit type, in list order, emit
    `(int)(density * plan.Grid.Count)` rectangles of that type's footprint,
    all at the world origin. `plan.Grid.Count` is the number of grid rows,
    not the number of occupied cells, and no packing into the grid happens.
 */
module Fill {
  import opened Host
  import opened Layout
  import opened Mixes

  /** A unit type: its name in the mix and its footprint in metres. */
  datatype Cell = Cell(unitType: string, width: real, length: real)

  /** A `Rectangle3d` on `Plane.WorldXY`; every emitted rectangle shares that
      plane, so only its size is kept. */
  datatype Rect = Rect(width: real, length: real)

  /** The C# `(int)` cast of a number. */
  function TruncateToInt(x: real): int
  {
    if x >= 0.0 then x.Floor else -((-x).Floor)
  }

  /** The cast truncates toward zero: the floor of a non-negative number and
      the ceiling of a negative one. */
  lemma TruncationTowardZero(x: real)
    ensures x >= 0.0 ==> TruncateToInt(x) as real <= x < TruncateToInt(x) as real + 1.0
    ensures x < 0.0 ==> TruncateToInt(x) as real - 1.0 < x <= TruncateToInt(x) as real
  {
  }

  /** How many rectangles one type with `density` contributes over a grid of
      `rows` rows: the number of iterations of `for (i = 0; i < count; i++)`
      with `count = (int)(density * rows)`. */
  function UnitCount(density: real, rows: nat): nat
  {
    Iterations(TruncateToInt(density * rows as real))
  }

  /** The count is the floor of `density * rows` when that product is not
      negative, and zero when it is below one (negative products included). */
  lemma UnitCountIsFloor(density: real, rows: nat)
    ensures density * rows as real >= 0.0 ==>
      UnitCount(density, rows) as real <= density * rows as real < UnitCount(density, rows) as real + 1.0
    ensures density * rows as real < 1.0 ==> UnitCount(density, rows) == 0
  {
    TruncationTowardZero(density * rows as real);
  }

  /** `n` copies of one rectangle. */
  function Copies(n: nat, r: Rect): seq<Rect>
  {
    if n == 0 then [] else Copies(n - 1, r) + [r]
  }

  /** The rectangles emitted for one unit type. */
  function Group(c: Cell, mix: map<string, real>, rows: nat): seq<Rect>
  {
    if c.unitType in mix then Copies(UnitCount(mix[c.unitType], rows), Rect(c.width, c.length))
    else []
  }

  /** A type the mix does not name contributes nothing; a named type
      contributes its unit count of rectangles, each exactly its footprint. */
  lemma {:induction false} GroupFootprints(c: Cell, mix: map<string, real>, rows: nat, k: nat)
    ensures c.unitType !in mix ==> Group(c, mix, rows) == []
    ensures c.unitType in mix ==> |Group(c, mix, rows)| == UnitCount(mix[c.unitType], rows)
    ensures k < |Group(c, mix, rows)| ==> Group(c, mix, rows)[k] == Rect(c.width, c.length)
  {
    if c.unitType in mix {
      CopiesAll(UnitCount(mix[c.unitType], rows), Rect(c.width, c.length), k);
    }
  }

  lemma {:induction false} CopiesAll(n: nat, r: Rect, k: nat)
    ensures |Copies(n, r)| == n
    ensures k < n ==> Copies(n, r)[k] == r
  {
    if n > 0 {
      CopiesAll(n - 1, r, k);
    }
  }

  /** The output as a reference definition: the groups of the unit types,
      concatenated in list order. */
  function Packed(cells: seq<Cell>, mix: map<string, real>, rows: nat): seq<Rect>
  {
    if cells == [] then []
    else Packed(cells[..|cells| - 1], mix, rows) + Group(cells[|cells| - 1], mix, rows)
  }

  /** Total number of rectangles the unit types ask for. */
  function TotalUnits(cells: seq<Cell>, mix: map<string, real>, rows: nat): nat
  {
    if cells == [] then 0
    else
      var c := cells[|cells| - 1];
      TotalUnits(cells[..|cells| - 1], mix, rows)
        + (if c.unitType in mix then UnitCount(mix[c.unitType], rows) else 0)
  }

  /** The inner loop of `FillCells`: `count` copies of one footprint appended
      to what was emitted so far. */
  method EmitRectangles(before: seq<Rect>, c: Cell, count: int) returns (packed: seq<Rect>)
    ensures packed == before + Copies(Iterations(count), Rect(c.width, c.length))
  {
    packed := before;
    var i := 0;
    while i < count
      invariant 0 <= i <= Iterations(count)
      invariant packed == before + Copies(i, Rect(c.width, c.length))
    {
      packed := packed + [Rect(c.width, c.length)];
      i := i + 1;
    }
  }

  /** One pass of the `foreach` body: skip a type the mix does not name,
      otherwise emit `(int)(density * rows)` copies of its footprint. */
  method EmitType(before: seq<Rect>, cellType: Cell, distribution: map<string, real>, rows: nat)
    returns (packed: seq<Rect>)
    ensures packed == before + Group(cellType, distribution, rows)
  {
    if cellType.unitType !in distribution {
      assert before + Group(cellType, distribution, rows) == before;
      return before;
    }
    var count := TruncateToInt(distribution[cellType.unitType] * rows as real);
    assert Iterations(count) == UnitCount(distribution[cellType.unitType], rows);
    packed := EmitRectangles(before, cellType, count);
  }

  /** `FillCells.SolveInstance`. An input the host does not deliver is
      `None`, and then the component sets no output. */
  method FillCells(plan: Option<Plan>, cells: Option<seq<Cell>>, mix: Option<map<string, real>>)
    returns (out: Option<seq<Rect>>)
    ensures (plan.None? || cells.None? || mix.None?) ==> out.None?
    ensures (plan.Some? && cells.Some? && mix.Some?) ==>
      out == Some(Packed(cells.value, mix.value, |plan.value.grid|))
  {
    if plan.None? || cells.None? || mix.None? {
      return None;
    }
    var rows := |plan.value.grid|;
    var types := cells.value;
    var distribution := mix.value;
    var packed: seq<Rect> := [];
    var t := 0;
    while t < |types|
      invariant 0 <= t <= |types|
      invariant packed == Packed(types[..t], distribution, rows)
    {
      PackedStep(types, t, distribution, rows);
      packed := EmitType(packed, types[t], distribution, rows);
      t := t + 1;
    }
    assert types[..|types|] == types;
    return Some(packed);
  }

  /** Adding the next unit type appends its group. */
  lemma PackedStep(cells: seq<Cell>, t: nat, mix: map<string, real>, rows: nat)
    requires t < |cells|
    ensures Packed(cells[..t + 1], mix, rows) == Packed(cells[..t], mix, rows) + Group(cells[t], mix, rows)
  {
    assert cells[..t + 1][..t] == cells[..t];
  }

  /** The output holds one rectangle per unit the types ask for. */
  lemma {:induction false} PackedLength(cells: seq<Cell>, mix: map<string, real>, rows: nat)
    ensures |Packed(cells, mix, rows)| == TotalUnits(cells, mix, rows)
  {
    if cells != [] {
      PackedLength(cells[..|cells| - 1], mix, rows);
      GroupFootprints(cells[|cells| - 1], mix, rows, 0);
    }
  }

  /** The output for a list is the output for its first part followed by the
      output for the rest: groups follow list order, and a type listed twice
      yields two groups. */
  lemma {:induction false} PackedAppend(a: seq<Cell>, b: seq<Cell>, mix: map<string, real>, rows: nat)
    ensures Packed(a + b, mix, rows) == Packed(a, mix, rows) + Packed(b, mix, rows)
  {
    if b == [] {
      assert a + b == a;
    } else {
      var n := |b|;
      var front := b[..n - 1];
      var last := Group(b[n - 1], mix, rows);
      assert (a + b)[..|a + b| - 1] == a + front;
      assert (a + b)[|a + b| - 1] == b[n - 1];
      assert Packed(a + b, mix, rows) == Packed(a + front, mix, rows) + last;
      assert Packed(b, mix, rows) == Packed(front, mix, rows) + last;
      PackedAppend(a, front, mix, rows);
    }
  }

  /** A unit type missing from the mix contributes nothing and does not
      disturb the others. */
  lemma MissingTypeSkipped(a: seq<Cell>, c: Cell, b: seq<Cell>, mix: map<string, real>, rows: nat)
    requires c.unitType !in mix
    ensures Packed(a + [c] + b, mix, rows) == Packed(a + b, mix, rows)
  {
    PackedAppend(a + [c], b, mix, rows);
    PackedAppend(a, [c], mix, rows);
    PackedAppend(a, b, mix, rows);
    assert Packed([c], mix, rows) == Packed([], mix, rows) + Group(c, mix, rows);
    GroupFootprints(c, mix, rows, 0);
  }

  /** Every emitted rectangle is the footprint of some listed unit type that
      the mix names. */
  lemma {:induction false} PackedFootprints(cells: seq<Cell>, mix: map<string, real>, rows: nat, k: nat)
    requires k < |Packed(cells, mix, rows)|
    ensures exists i :: 0 <= i < |cells| && cells[i].unitType in mix
              && Packed(cells, mix, rows)[k] == Rect(cells[i].width, cells[i].length)
  {
    var n := |cells|;
    var front := Packed(cells[..n - 1], mix, rows);
    if k < |front| {
      PackedFootprints(cells[..n - 1], mix, rows, k);
      var i :| 0 <= i < n - 1 && cells[..n - 1][i].unitType in mix
               && front[k] == Rect(cells[..n - 1][i].width, cells[..n - 1][i].length);
      assert cells[i] == cells[..n - 1][i];
    } else {
      GroupFootprints(cells[n - 1], mix, rows, k - |front|);
      assert Packed(cells, mix, rows)[k] == Group(cells[n - 1], mix, rows)[k - |front|];
    }
  }

  /** Only the row count of the plan matters: two plans with the same first
      dimension yield the same rectangles whatever their shapes and column
      counts. */
  lemma RowsDecideOutput(p1: Plan, p2: Plan, k1: Shape.ShapeKind, k2: Shape.ShapeKind,
                         rows: int, cols1: int, cols2: int,
                         cells: seq<Cell>, mix: map<string, real>)
    requires IsGridOf(p1.grid, k1, rows, cols1)
    requires IsGridOf(p2.grid, k2, rows, cols2)
    ensures Packed(cells, mix, |p1.grid|) == Packed(cells, mix, |p2.grid|)
    ensures |p1.grid| == Iterations(rows)
  {
  }

  /** A mix defined from types "A", "B" and densities 0.6, 0.4, applied to a
      100-row plan filled with one 5 x 10 type "A": sixty rectangles, all
      5 x 10; "B" is not listed and adds nothing. */
  lemma SingleTypeExample(k: nat)
    ensures DefineMix(Some(["A", "B"]), Some([0.6, 0.4])).output == Some(Mix(["A", "B"], [0.6, 0.4]))
    ensures |Packed([Cell("A", 5.0, 10.0)], Densities(["A", "B"], [0.6, 0.4]), 100)| == 60
    ensures k < 60 ==>
      Packed([Cell("A", 5.0, 10.0)], Densities(["A", "B"], [0.6, 0.4]), 100)[k] == Rect(5.0, 10.0)
  {
    var m := Densities(["A", "B"], [0.6, 0.4]);
    DensitiesLookup(["A", "B"], [0.6, 0.4], 0);
    assert m["A"] == 0.6;
    UnitCountIsFloor(0.6, 100);
    assert UnitCount(0.6, 100) == 60;
    assert [Cell("A", 5.0, 10.0)][..0] == [];
    assert Packed([Cell("A", 5.0, 10.0)], m, 100) == Group(Cell("A", 5.0, 10.0), m, 100);
    GroupFootprints(Cell("A", 5.0, 10.0), m, 100, k);
  }
}
