# Nabr layout core in Dafny

Nabr is a Grasshopper plugin with a small browser demo. Most of it is host glue. This project models its three pure transforms:

- **Plan grid** (`Plan`): a shape tag and `[rows, cols]` become a `rows x cols` occupancy grid. The tag is lower-cased and matched against `l-shape`, `mirrored-l-shape` and `u-shape`. Each shape splits the bounding box in halves or thirds with truncating division. Any other tag, including the component default `L`, occupies every cell. Modules: `Shape` (tag and occupancy predicate) and `Layout` (the plan and its grid).
- **Mix and fill** (`DefineMix`, `FillCells`): two parallel lists of unit types and densities become a mix, or one warning when their lengths differ. The fill walks the unit types in list order and skips any type the mix does not name. For every other type it emits `(int)(density * plan.Grid.Count)` rectangles of that type's footprint, all on the same origin plane. Modules: `Mixes` and `Fill`.
- **Demo L-grid** (`createLShapedGrid` in the browser demo): a `width x length` corridor block of squares, then a `length x width` leg block directly below it. Module: `Drawing`.

`Host` holds the shared `Option` and `Result` types. An input the host does not deliver is `None`. A constructor that would throw is a `Failure`.

Every operation has a partner that it is proved against:
- The grid loops are proved against the occupancy predicate. The grid's occupied count is proved against a closed formula for each shape.
- The fill loops are proved against a reference definition `Packed`. `Packed` is proved to split over concatenation, to count one rectangle per requested unit, and to emit only footprints of listed types.
- The demo loops are proved against a row-major `Block` definition. `Block` is proved to place square `(r, c)` at index `r * cols + c`.

The reference definitions are:
- `Shape.InShape` for the occupancy test (`NabrGH/Layout/Plan.cs:41-66`).
- `Fill.TruncateToInt` for the C# `(int)` cast, and `Fill.UnitCount` for the per-type rectangle count (`NabrGH/Components/FillCells.cs:70`).
- `Fill.Packed` for the whole fill output, and `Drawing.Block` for one block of demo squares.

Two facts about the source shape the model:
- `FillCells.cs:70` counts with `plan.Grid.Count`. That is the number of grid rows. The comment on the same line takes it to be the total number of cells. `Fill.RowsDecideOutput` states that only the row count matters.
- The l-shape (`Plan.cs:46-50`) is a left block of width `cols/2` in the top half over a left block of width `cols - cols/2` in the bottom half. For odd `cols`, column `cols/2` is occupied in the bottom half only. For even `cols` the shape is a plain rectangle (`Shape.LShapeEvenColsIsRectangle`).

## Model

| member | source | states |
|---|---|---|
| Shape.Lower | NabrGH/Layout/Plan.cs:44 | the lower-cased tag keeps its length, has no upper-case letter left, and differs from the tag only where the tag has an upper-case letter, which becomes the same letter in lower case |
| Shape.LowerIdempotent | NabrGH/Layout/Plan.cs:44 | lower-casing an already lower-cased tag changes nothing |
| Shape.ParseShape | NabrGH/Layout/Plan.cs:44-65 | the shape is l-shape, mirrored-l-shape or u-shape exactly when the lower-cased tag equals that name, and the full rectangle otherwise |
| Shape.ParseShapeIgnoresCase | NabrGH/Layout/Plan.cs:44-65 | two tags that lower-case to the same string select the same shape |
| Shape.ParseShapeOfLowered | NabrGH/Layout/Plan.cs:44 | tag matching ignores letter case: lower-casing the tag first changes nothing |
| Shape.DefaultTagIsFullRectangle | NabrGH/Components/GeneratePlan.cs:21 | the default tag "L" gives the full rectangle, while mixed-case spellings of the three names are recognised |
| Shape.LShapeBlocks | NabrGH/Layout/Plan.cs:45-50 | in the l-shape the top half is occupied left of cols/2 and the bottom half left of cols - cols/2, so every occupied cell lies left of cols - cols/2 |
| Shape.LShapeEvenColsIsRectangle | NabrGH/Layout/Plan.cs:45-50 | with an even column count the l-shape occupies exactly the columns left of cols/2 in every row |
| Shape.MirroredLIsMirror | NabrGH/Layout/Plan.cs:50-56 | cell (r, c) is occupied in the mirrored l-shape iff (r, cols-1-c) is occupied in the l-shape |
| Shape.UShapeBands | NabrGH/Layout/Plan.cs:57-62 | in the u-shape's top half the middle [cols/3, cols - cols/3) is empty and the outer thirds are occupied; in the bottom half exactly the columns left of cols - 2*(cols/3) are occupied |
| Shape.UnknownTagFillsBox | NabrGH/Layout/Plan.cs:63-64 | any tag other than the three names occupies every cell |
| Layout.GenerateGrid | NabrGH/Layout/Plan.cs:20-39 | the grid has max(rows,0) rows of max(cols,0) entries, and entry (i, j) is occupied iff the shape predicate holds at (i, j) |
| Layout.NewPlan | NabrGH/Layout/Plan.cs:12-24 | construction fails iff the dimension list has fewer than two entries; otherwise the plan keeps its four inputs and its grid is the occupancy grid of the parsed tag and the first two dimensions |
| Layout.GridDetermined | NabrGH/Layout/Plan.cs:12-39 | two grids of the same shape and dimensions are equal, so building twice gives the same grid and the corridor width and grid pitch play no part |
| Layout.LShapeOccupied | NabrGH/Layout/Plan.cs:45-50 | the l-shape grid has (rows/2)(cols/2) + (rows - rows/2)(cols - cols/2) occupied cells |
| Layout.MirroredLShapeOccupied | NabrGH/Layout/Plan.cs:51-56 | the mirrored l-shape grid has as many occupied cells as the l-shape |
| Layout.UShapeOccupied | NabrGH/Layout/Plan.cs:57-62 | the u-shape grid has (rows/2)(2(cols/3)) + (rows - rows/2)(cols - 2(cols/3)) occupied cells |
| Layout.FullRectangleOccupied | NabrGH/Layout/Plan.cs:63-64 | the fallback grid has rows*cols occupied cells |
| Layout.NonPositiveDimensionsEmpty | NabrGH/Layout/Plan.cs:23-37 | a non-positive row count gives no rows, and a non-positive dimension leaves no cell occupied |
| Mixes.DefineMix | NabrGH/Components/DefineMix.cs:37-60 | a missing input gives no output and no warning; when both lists are present, a mix is output iff their lengths agree and is built from the two lists as given; a mismatch gives exactly the one fixed warning |
| Mixes.OnlyLengthsChecked | NabrGH/Components/DefineMix.cs:49-55 | any equal-length lists, including negative densities or repeated types, produce a mix |
| Mixes.MismatchExample | NabrGH/Components/DefineMix.cs:49-53 | two types and one density give no mix and one warning |
| Mixes.Densities | NabrGH/Components/FillCells.cs:63 | the density dictionary's keys are exactly the listed types |
| Mixes.DensitiesLookup | NabrGH/Components/FillCells.cs:63-66 | in a mix without repeated types, each type looks up its own density |
| Mixes.DensitiesLastWins | NabrGH/Components/FillCells.cs:63-66 | a repeated type looks up the density paired with its last occurrence |
| Fill.TruncationTowardZero | NabrGH/Components/FillCells.cs:70 | the (int) cast truncates toward zero: the floor for a non-negative number and the ceiling for a negative one |
| Fill.UnitCountIsFloor | NabrGH/Components/FillCells.cs:70-71 | a type contributes floor(density*rows) rectangles when the product is not negative, and none when it is below 1 |
| Fill.GroupFootprints | NabrGH/Components/FillCells.cs:66-74 | a type missing from the mix contributes nothing; otherwise it contributes its unit count of rectangles, each exactly the type's width by length |
| Fill.EmitType | NabrGH/Components/FillCells.cs:65-75 | one pass of the type loop appends exactly that type's group to what was emitted before, and nothing for a type the mix does not name |
| Fill.EmitRectangles | NabrGH/Components/FillCells.cs:71-74 | the inner loop appends exactly max(count,0) copies of the footprint and keeps what was emitted before |
| Fill.FillCells | NabrGH/Components/FillCells.cs:42-80 | a missing plan, cell list or mix gives no output; otherwise the output is the reference concatenation of per-type groups over the plan's row count |
| Fill.PackedLength | NabrGH/Components/FillCells.cs:71-78 | the output length is the sum of the per-type unit counts, one outline per rectangle |
| Fill.PackedAppend | NabrGH/Components/FillCells.cs:65-75 | the output for a concatenated type list is the concatenation of the outputs, so groups follow list order and a type listed twice yields two groups |
| Fill.MissingTypeSkipped | NabrGH/Components/FillCells.cs:66-68 | inserting a type the mix does not name anywhere in the list leaves the output unchanged |
| Fill.PackedFootprints | NabrGH/Components/FillCells.cs:72 | every emitted rectangle is the footprint of some listed type that the mix names |
| Fill.RowsDecideOutput | NabrGH/Components/FillCells.cs:70 | two plans with the same row dimension give the same output whatever their shapes and column counts |
| Fill.SingleTypeExample | NabrGH/Components/FillCells.cs:70-73 | the mix A:0.6, B:0.4 over a 100-row plan with one 5 x 10 type A gives sixty 5 x 10 rectangles |
| Drawing.BlockLength | NabrJS/src/drawing/drawing.js:83-92 | a block of rows x cols squares has rows*cols squares |
| Drawing.BlockSquare | NabrJS/src/drawing/drawing.js:83-92 | every square of a block has a column below cols, a row within the block's band of rows, and the block's side |
| Drawing.BlockIndex | NabrJS/src/drawing/drawing.js:83-92 | blocks are row-major: square (r, c) sits at index r*cols + c |
| Drawing.AppendRow | NabrJS/src/drawing/drawing.js:84-102 | the inner loop appends one row of max(cols,0) squares and keeps the earlier ones |
| Drawing.ScaledSize | NabrJS/src/drawing/drawing.js:76-81 | a call without a square size uses side 8.5; otherwise the side is the given size, the scale factor being 1 |
| Drawing.CreateLShapedGrid | NabrJS/src/drawing/drawing.js:76-105 | with the square size given or left out (then 8.5), the result is the corridor block (width rows of length squares from row 0) followed by the leg block (length rows of width squares from row width) |
| Drawing.LShapedGridLayout | NabrJS/src/drawing/drawing.js:83-104 | there are 2*length*width squares when both are positive and none otherwise; every square has the same side; corridor squares lie above row width, and leg squares lie at or below it and left of column width, so the blocks never overlap |
| Drawing.LShapedGridPositions | NabrJS/src/drawing/drawing.js:83-103 | corridor square (row, col) is at index row*length + col and position (col, row); leg square (row, col) is at index width*length + row*width + col and position (col, width + row) |

## Left out

- Host plumbing is not modelled: component registration, icons, GUIDs, `GlobalLogger` and the output setters. A missing input is an `Option` argument. The one runtime warning is a list of message strings.
- Rhino geometry is not modelled. `Rectangle3d` on `Plane.WorldXY` and its `ToNurbsCurve` outline are a plain width/length record. Every rectangle is on that same plane, so the plane is not stored.
- The source of the `Mix` and `Cell` classes is not available, so both are modelled as plain records. `Mixes.Mix` holds the two lists its constructor receives. `Fill.Cell` holds the three fields `FillCells` reads: `UnitType`, `Width` and `Length`.
- Mixes.Densities: `GetAllDensities` is not part of this model. Its dictionary is assumed to be built in list order, so that a repeated type keeps its last density. Only the duplicate-free lookup is independent of that assumption.
- Fill.UnitCount: densities are reals. The IEEE-754 effects of `(int)(double)` are not modelled: rounding of the product, NaN, and overflow of the cast.
- Shape.Lower: only ASCII letters are lower-cased. The culture-specific mappings of `string.ToLower` are not modelled.
- A `null` shape tag, which would throw in `ToLower`, is not modelled. Neither is a `null` unit type or list entry in `FillCells`, which would throw in the dictionary lookup. Nor are the public setters that can change a plan after construction.
- `GeneratePlan` is not modelled beyond its default tag. It only forwards its inputs to the plan constructor.
- The demo models `createLShapedGrid` only, in integer grid units. The pixel position of a square is its grid position times its side. Non-integer `length` and `width` arguments are not modelled. The canvas and SVG drawing functions, the load listener and the static file server are left out, because they are side effects and I/O.
- Plan.cs has no C# integer-overflow cases: every division and subtraction stays inside the dimensions.
