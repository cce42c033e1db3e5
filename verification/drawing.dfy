/** `createLShapedGrid` of the browser demo: a list of equal squares laid out
    as an L, a `width x length` corridor block followed by a `length x width`
    leg block placed directly below it.

    A square is kept in grid units: the drawing places it at
    `(col * side, row * side)` with width and height `side`, where `side` is
    `squareSize * scaleFactor`.
 */
module Drawing {
  import opened Host

  /** `scaleFactor` of the drawing module. */
  const ScaleFactor: real := 1.0

  /** The default `squareSize`, used when the argument is left out. */
  const DefaultSquareSize: real := 8.5

  datatype Square = Square(col: int, row: int, side: real)

  /** `squareSize * scaleFactor`, with a missing `squareSize` taking its
      default. */
  function ScaledSize(squareSize: Option<real>): (side: real)
    ensures squareSize.None? ==> side == 8.5
    ensures squareSize.Some? ==> side == squareSize.value
  {
    match squareSize
    case None => DefaultSquareSize * ScaleFactor
    case Some(size) => size * ScaleFactor
  }

  /** One row of `cols` squares at grid row `y`, left to right. */
  function RowOf(y: int, cols: nat, side: real): (r: seq<Square>)
    ensures |r| == cols
    ensures forall c :: 0 <= c < cols ==> r[c] == Square(c, y, side)
  {
    seq(cols, c requires 0 <= c < cols => Square(c, y, side))
  }

  /** `rows` rows of `cols` squares in row-major order, the first at grid
      row `y0`. */
  function Block(rows: nat, cols: nat, y0: int, side: real): seq<Square>
  {
    if rows == 0 then []
    else Block(rows - 1, cols, y0, side) + RowOf(y0 + rows - 1, cols, side)
  }

  /** A block holds `rows * cols` squares. */
  lemma {:induction false} BlockLength(rows: nat, cols: nat, y0: int, side: real)
    ensures |Block(rows, cols, y0, side)| == rows * cols
  {
    if rows > 0 {
      BlockLength(rows - 1, cols, y0, side);
      assert |Block(rows, cols, y0, side)| == (rows - 1) * cols + cols;
    }
  }

  /** Every square of a block lies in its `cols` columns and its band of
      `rows` rows, and has the block's side. */
  lemma {:induction false} BlockSquare(rows: nat, cols: nat, y0: int, side: real, k: nat)
    requires k < |Block(rows, cols, y0, side)|
    ensures 0 <= Block(rows, cols, y0, side)[k].col < cols
    ensures y0 <= Block(rows, cols, y0, side)[k].row < y0 + rows
    ensures Block(rows, cols, y0, side)[k].side == side
  {
    var front := Block(rows - 1, cols, y0, side);
    if k < |front| {
      BlockSquare(rows - 1, cols, y0, side, k);
      assert Block(rows, cols, y0, side)[k] == front[k];
    } else {
      assert Block(rows, cols, y0, side)[k] == RowOf(y0 + rows - 1, cols, side)[k - |front|];
    }
  }

  /** A block with fewer rows is a prefix of one with more. */
  lemma {:induction false} BlockPrefix(r: nat, rows: nat, cols: nat, y0: int, side: real)
    requires r <= rows
    ensures Block(r, cols, y0, side) <= Block(rows, cols, y0, side)
  {
    if r < rows {
      BlockPrefix(r, rows - 1, cols, y0, side);
    }
  }

  /** Row-major layout: square `(r, c)` of a block follows the first `r`
      full rows, at index `|Block(r, ...)| + c`, which is `r * cols + c`. */
  lemma BlockIndex(rows: nat, cols: nat, y0: int, side: real, r: nat, c: nat)
    requires r < rows && c < cols
    ensures |Block(r, cols, y0, side)| == r * cols
    ensures r * cols + c < |Block(rows, cols, y0, side)|
    ensures Block(rows, cols, y0, side)[r * cols + c] == Square(c, y0 + r, side)
  {
    BlockPrefix(r + 1, rows, cols, y0, side);
    BlockLength(r, cols, y0, side);
    var k := |Block(r, cols, y0, side)| + c;
    assert Block(r + 1, cols, y0, side)[k] == RowOf(y0 + r, cols, side)[c];
    assert Block(rows, cols, y0, side)[k] == Block(r + 1, cols, y0, side)[k];
  }

  /** `createLShapedGrid(length, width, squareSize)`, where `None` stands for
      a call that leaves `squareSize` out. The JavaScript loops run zero times
      for a non-positive bound. */
  method CreateLShapedGrid(length: int, width: int, squareSize: Option<real>) returns (squares: seq<Square>)
    ensures squares == Block(Iterations(width), Iterations(length), 0, ScaledSize(squareSize))
                     + Block(Iterations(length), Iterations(width), width, ScaledSize(squareSize))
  {
    squares := [];
    var scaledSize := ScaledSize(squareSize);
    // Horizontal corridor
    var row := 0;
    while row < width
      invariant 0 <= row <= Iterations(width)
      invariant squares == Block(row, Iterations(length), 0, scaledSize)
    {
      squares := AppendRow(squares, row, length, scaledSize);
      row := row + 1;
    }
    var corridor := squares;
    // Vertical leg, below the corridor
    row := 0;
    while row < length
      invariant 0 <= row <= Iterations(length)
      invariant squares == corridor + Block(row, Iterations(width), width, scaledSize)
    {
      squares := AppendRow(squares, width + row, width, scaledSize);
      row := row + 1;
    }
  }

  /** The inner `for (col …)` loop: one row of squares appended. */
  method AppendRow(before: seq<Square>, y: int, cols: int, side: real) returns (squares: seq<Square>)
    ensures squares == before + RowOf(y, Iterations(cols), side)
  {
    squares := before;
    var col := 0;
    while col < cols
      invariant 0 <= col <= Iterations(cols)
      invariant squares == before + RowOf(y, col, side)
    {
      squares := squares + [Square(col, y, side)];
      col := col + 1;
    }
  }

  /** The corridor and leg squares of the result, by index. */
  lemma {:induction false} SplitAt(corridor: seq<Square>, leg: seq<Square>, k: nat)
    requires k < |corridor| + |leg|
    ensures k < |corridor| ==> (corridor + leg)[k] == corridor[k]
    ensures |corridor| <= k ==> (corridor + leg)[k] == leg[k - |corridor|]
  {
  }

  /** The shape of the result: `2 * length * width` squares, all of the
      same size, corridor squares above row `width`, leg squares at or below
      it and left of column `width`, so the blocks never overlap; and nothing
      at all when either count is not positive. */
  lemma LShapedGridLayout(length: int, width: int, side: real, squares: seq<Square>)
    requires squares == Block(Iterations(width), Iterations(length), 0, side)
                      + Block(Iterations(length), Iterations(width), width, side)
    ensures length > 0 && width > 0 ==> |squares| == 2 * length * width
    ensures length <= 0 || width <= 0 ==> squares == []
    ensures forall k :: 0 <= k < |squares| ==> squares[k].side == side
    ensures forall k :: 0 <= k < Iterations(width) * Iterations(length) ==>
              0 <= squares[k].row < width && 0 <= squares[k].col < length
    ensures forall k :: Iterations(width) * Iterations(length) <= k < |squares| ==>
              width <= squares[k].row < width + length && 0 <= squares[k].col < width
  {
    var w, l := Iterations(width), Iterations(length);
    var corridor := Block(w, l, 0, side);
    var leg := Block(l, w, width, side);
    var n := |corridor|;
    BlockLength(w, l, 0, side);
    BlockLength(l, w, width, side);
    BlockSizes(w, l, n, |leg|);
    forall k | 0 <= k < |squares|
      ensures squares[k].side == side
      ensures k < n ==> 0 <= squares[k].row < width && 0 <= squares[k].col < length
      ensures n <= k ==> width <= squares[k].row < width + length && 0 <= squares[k].col < width
    {
      SplitAt(corridor, leg, k);
      if k < n {
        BlockSquare(w, l, 0, side, k);
      } else {
        BlockSquare(l, w, width, side, k - n);
      }
    }
  }

  /** The arithmetic behind the size of the result. */
  lemma BlockSizes(w: nat, l: nat, n: nat, m: nat)
    requires n == w * l && m == l * w
    ensures n + m == 2 * w * l
    ensures w == 0 || l == 0 ==> n + m == 0
  {
  }

  /** Corridor square `(row, col)` is the `row * length + col`-th square and
      sits at grid position `(col, row)`; leg square `(row, col)` follows the
      corridor at offset `row * width + col` and sits at `(col, width + row)`. */
  lemma LShapedGridPositions(length: nat, width: nat, side: real,
                             squares: seq<Square>, row: nat, col: nat)
    requires squares == Block(width, length, 0, side) + Block(length, width, width, side)
    ensures row < width && col < length ==>
      row * length + col < |squares| && squares[row * length + col] == Square(col, row, side)
    ensures row < length && col < width ==>
      width * length + row * width + col < |squares|
      && squares[width * length + row * width + col] == Square(col, width + row, side)
  {
    var corridor := Block(width, length, 0, side);
    var leg := Block(length, width, width, side);
    BlockLength(width, length, 0, side);
    if row < width && col < length {
      BlockIndex(width, length, 0, side, row, col);
      SplitAt(corridor, leg, row * length + col);
    }
    if row < length && col < width {
      BlockIndex(length, width, width, side, row, col);
      SplitAt(corridor, leg, |corridor| + (row * width + col));
    }
  }
}
