/** The plan-shape tag and the occupancy predicate `Plan.IsInShape`.

    The tag is lower-cased and compared against three names; every other tag,
    including the component's default "L", means the whole bounding box is
    occupied. Each shape splits the `rows x cols` box with truncating integer
    division; the predicate is only ever asked about cells inside the box, so
    the dimensions it sees are positive and C#'s `/` agrees with Dafny's.
 */
module Shape {

  datatype ShapeKind = LShape | MirroredLShape | UShape | FullRectangle

  /** `char.ToLower` restricted to ASCII letters. */
  function LowerChar(c: char): (r: char)
    ensures 'A' <= c <= 'Z' ==> 'a' <= r <= 'z' && r as int - c as int == 32
    ensures !('A' <= c <= 'Z') ==> r == c
    ensures !('A' <= r <= 'Z')
  {
    if 'A' <= c <= 'Z' then (c as int + 32) as char else c
  }

  /** `string.ToLower`, character by character: the result has no upper-case
      letter left, and it differs from the input only where the input has an
      upper-case letter, which becomes the same letter in lower case. */
  function Lower(s: string): (r: string)
    ensures |r| == |s|
    ensures forall i :: 0 <= i < |r| ==> !('A' <= r[i] <= 'Z')
    ensures forall i :: 0 <= i < |s| && r[i] != s[i] ==>
              'A' <= s[i] <= 'Z' && r[i] as int == s[i] as int + 32
  {
    seq(|s|, i requires 0 <= i < |s| => LowerChar(s[i]))
  }

  lemma LowerIdempotent(s: string)
    ensures Lower(Lower(s)) == Lower(s)
  {
    assert forall i :: 0 <= i < |s| ==> Lower(Lower(s))[i] == Lower(s)[i];
  }

  /** The `switch (Type.ToLower())` of `IsInShape`. */
  function ParseShape(tag: string): (k: ShapeKind)
    ensures k == LShape <==> Lower(tag) == "l-shape"
    ensures k == MirroredLShape <==> Lower(tag) == "mirrored-l-shape"
    ensures k == UShape <==> Lower(tag) == "u-shape"
  {
    match Lower(tag)
    case "l-shape" => LShape
    case "mirrored-l-shape" => MirroredLShape
    case "u-shape" => UShape
    case _ => FullRectangle
  }

  /** Tags that differ only in letter case name the same shape. */
  lemma ParseShapeIgnoresCase(a: string, b: string)
    requires Lower(a) == Lower(b)
    ensures ParseShape(a) == ParseShape(b)
  {
  }

  /** Lower-casing a tag first changes nothing. */
  lemma ParseShapeOfLowered(tag: string)
    ensures ParseShape(Lower(tag)) == ParseShape(tag)
  {
    LowerIdempotent(tag);
  }

  /** The component's default tag "L" is not one of the three names, so the
      default plan is a full rectangle; upper-case spellings of the names
      are recognised. */
  lemma DefaultTagIsFullRectangle()
    ensures ParseShape("L") == FullRectangle
    ensures ParseShape("L-Shape") == LShape
    ensures ParseShape("U-SHAPE") == UShape
    ensures ParseShape("Mirrored-L-Shape") == MirroredLShape
  {
    assert Lower("L") == "l";
    assert Lower("L-Shape") == "l-shape";
    assert Lower("U-SHAPE") == "u-shape";
    assert Lower("Mirrored-L-Shape") == "mirrored-l-shape";
  }

  /** Occupancy of cell `(row, col)` of a `rows x cols` box. */
  predicate InShape(k: ShapeKind, rows: nat, cols: nat, row: nat, col: nat)
  {
    match k
    case LShape =>
      var arm1Length := rows / 2;
      var arm1Width := cols / 2;
      var arm2Width := cols - arm1Width;
      (row < arm1Length && col < arm1Width) || (row >= arm1Length && col < arm2Width)
    case MirroredLShape =>
      var arm1Length := rows / 2;
      var arm1Width := cols / 2;
      var arm2Width := cols - arm1Width;
      (row < arm1Length && col >= cols - arm1Width) || (row >= arm1Length && col >= cols - arm2Width)
    case UShape =>
      var arm1Length := rows / 2;
      var arm1Width := cols / 3;
      var arm2Width := cols - 2 * arm1Width;
      (row < arm1Length && col < arm1Width)
        || (row < arm1Length && col >= cols - arm1Width)
        || (row >= arm1Length && col < arm2Width)
    case FullRectangle => true
  }

  /** The l-shape is a left block of width `cols/2` in the top half over a
      left block of width `cols - cols/2` in the bottom half: every occupied
      cell lies left of `cols - cols/2`, and the top-left block is full. */
  lemma LShapeBlocks(rows: nat, cols: nat, row: nat, col: nat)
    requires row < rows && col < cols
    ensures row < rows / 2 ==> (InShape(LShape, rows, cols, row, col) <==> col < cols / 2)
    ensures row >= rows / 2 ==> (InShape(LShape, rows, cols, row, col) <==> col < cols - cols / 2)
    ensures InShape(LShape, rows, cols, row, col) ==> col < cols - cols / 2
  {
  }

  /** With an even column count both blocks of the l-shape have width
      `cols/2`, so the occupied cells form a plain rectangle. */
  lemma LShapeEvenColsIsRectangle(rows: nat, cols: nat, row: nat, col: nat)
    requires cols % 2 == 0
    requires row < rows && col < cols
    ensures InShape(LShape, rows, cols, row, col) <==> col < cols / 2
  {
  }

  /** The mirrored l-shape is the l-shape reflected left to right. */
  lemma MirroredLIsMirror(rows: nat, cols: nat, row: nat, col: nat)
    requires col < cols
    ensures InShape(MirroredLShape, rows, cols, row, col)
        <==> InShape(LShape, rows, cols, row, cols - 1 - col)
  {
  }

  /** The u-shape: in the top half the outer thirds are occupied and the
      middle `[cols/3, cols - cols/3)` is empty; in the bottom half exactly
      the columns left of `cols - 2*(cols/3)` are occupied, so the shape is
      not left-right symmetric. */
  lemma UShapeBands(rows: nat, cols: nat, row: nat, col: nat)
    requires row < rows && col < cols
    ensures row < rows / 2 ==>
      (InShape(UShape, rows, cols, row, col) <==> !(cols / 3 <= col < cols - cols / 3))
    ensures row >= rows / 2 ==>
      (InShape(UShape, rows, cols, row, col) <==> col < cols - 2 * (cols / 3))
  {
  }

  /** Any tag other than the three names occupies every cell. */
  lemma UnknownTagFillsBox(tag: string, rows: nat, cols: nat, row: nat, col: nat)
    requires Lower(tag) != "l-shape" && Lower(tag) != "mirrored-l-shape" && Lower(tag) != "u-shape"
    ensures InShape(ParseShape(tag), rows, cols, row, col)
  {
  }
}
