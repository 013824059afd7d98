/** The on-screen emulator of the wall
    (lib/wrappers/python/contourwall_emulator.py): a grid of `rows` x `cols`
    pixels, each drawn as a filled square of `cell_size` screen pixels with
    a black border, and a `pushed_frames` counter. The OpenCV drawing calls
    are recorded on a `Window` as the rectangles they are asked to draw;
    the rasterising itself is not modelled. */
module Emulator {
  import opened Common

  datatype Point = Point(x: int, y: int)

  /** A colour as the three channel values of one pixel, in storage order. */
  datatype Color = Color(c0: int, c1: int, c2: int)

  /** One `cv.rectangle` call: corners, colour and line thickness (-1 fills). */
  datatype Rectangle = Rectangle(topLeft: Point, bottomRight: Point, color: Color, thickness: int)

  /** Height and width of an image buffer, in screen pixels. */
  datatype Shape = Shape(height: nat, width: nat)

  /** The drawing surface as the emulator uses it: the rectangles drawn on
      it so far and how many times it was put on screen. */
  class Window {
    var drawn: seq<Rectangle>
    var shown: nat

    constructor ()
      ensures drawn == [] && shown == 0
    {
      drawn := [];
      shown := 0;
    }

    method DrawRectangle(r: Rectangle)
      modifies this
      ensures drawn == old(drawn) + [r] && shown == old(shown)
    {
      drawn := drawn + [r];
    }

    /** `cv.imshow` followed by `cv.waitKey(1)`. */
    method Present()
      modifies this
      ensures drawn == old(drawn) && shown == old(shown) + 1
    {
      shown := shown + 1;
    }
  }

  /** The screen square of grid cell (row, col): x runs along columns and
      y along rows, `cellSize` screen pixels per cell. */
  function CellTopLeft(row: nat, col: nat, cellSize: nat): Point
  {
    Point(col * cellSize, row * cellSize)
  }

  function CellBottomRight(row: nat, col: nat, cellSize: nat): Point
  {
    Point((col + 1) * cellSize, (row + 1) * cellSize)
  }

  /** The two rectangles of one cell: filled in its pixel's colour, then
      outlined in black. */
  function CellFill(row: nat, col: nat, cellSize: nat, color: Color): Rectangle
  {
    Rectangle(CellTopLeft(row, col, cellSize), CellBottomRight(row, col, cellSize), color, -1)
  }

  function CellBorder(row: nat, col: nat, cellSize: nat): Rectangle
  {
    Rectangle(CellTopLeft(row, col, cellSize), CellBottomRight(row, col, cellSize), Color(0, 0, 0), 1)
  }

  /** The colour of grid cell (row, col). */
  function PixelColor(pixels: array3<Byte>, row: nat, col: nat): Color
    requires row < pixels.Length0 && col < pixels.Length1 && pixels.Length2 == 3
    reads pixels
  {
    Color(pixels[row, col, 0], pixels[row, col, 1], pixels[row, col, 2])
  }

  /** What the inner loop of `show` draws for the first `n` cells of a row. */
  ghost function CellsDrawn(pixels: array3<Byte>, row: nat, n: nat, cellSize: nat): (cells: seq<Rectangle>)
    requires row < pixels.Length0 && n <= pixels.Length1 && pixels.Length2 == 3
    reads pixels
    ensures |cells| == 2 * n
  {
    if n == 0 then []
    else
      var fill := CellFill(row, n - 1, cellSize, PixelColor(pixels, row, n - 1));
      CellsDrawn(pixels, row, n - 1, cellSize) + [fill, CellBorder(row, n - 1, cellSize)]
  }

  /** What the loops of `show` draw for the first `m` rows. */
  ghost function RowsDrawn(pixels: array3<Byte>, m: nat, cellSize: nat): seq<Rectangle>
    requires m <= pixels.Length0 && pixels.Length2 == 3
    reads pixels
  {
    if m == 0 then []
    else RowsDrawn(pixels, m - 1, cellSize) + CellsDrawn(pixels, m - 1, pixels.Length1, cellSize)
  }

  /** Within a row, cell `col` is drawn as rectangles 2*col (its fill) and
      2*col + 1 (its border). */
  lemma {:induction false} CellsDrawnAt(pixels: array3<Byte>, row: nat, n: nat, cellSize: nat, col: nat)
    requires row < pixels.Length0 && n <= pixels.Length1 && pixels.Length2 == 3 && col < n
    ensures 2 * col + 1 < |CellsDrawn(pixels, row, n, cellSize)|
    ensures CellsDrawn(pixels, row, n, cellSize)[2 * col] == CellFill(row, col, cellSize, PixelColor(pixels, row, col))
    ensures CellsDrawn(pixels, row, n, cellSize)[2 * col + 1] == CellBorder(row, col, cellSize)
  {
    if col < n - 1 {
      CellsDrawnAt(pixels, row, n - 1, cellSize, col);
    }
  }

  /** One `show` draws 2*rows*cols rectangles, two per cell. */
  lemma {:induction false} RowsDrawnLength(pixels: array3<Byte>, m: nat, cellSize: nat)
    requires m <= pixels.Length0 && pixels.Length2 == 3
    ensures |RowsDrawn(pixels, m, cellSize)| == 2 * m * pixels.Length1
  {
    if m > 0 {
      RowsDrawnLength(pixels, m - 1, cellSize);
      assert 2 * m * pixels.Length1 == 2 * (m - 1) * pixels.Length1 + 2 * pixels.Length1;
    }
  }

  /** Drawing more rows leaves what the first k rows drew in place. */
  lemma {:induction false} RowsDrawnKeeps(pixels: array3<Byte>, k: nat, m: nat, cellSize: nat, i: nat)
    requires k <= m <= pixels.Length0 && pixels.Length2 == 3
    requires i < |RowsDrawn(pixels, k, cellSize)|
    ensures i < |RowsDrawn(pixels, m, cellSize)|
    ensures RowsDrawn(pixels, m, cellSize)[i] == RowsDrawn(pixels, k, cellSize)[i]
  {
    if k < m {
      RowsDrawnKeeps(pixels, k, m - 1, cellSize, i);
      assert RowsDrawn(pixels, m, cellSize)
        == RowsDrawn(pixels, m - 1, cellSize) + CellsDrawn(pixels, m - 1, pixels.Length1, cellSize);
    }
  }

  /** One `show` draws the cells in row-major order: after the 2*row*cols
      rectangles of the rows above it (`RowsDrawnLength`), cell (row, col)
      is filled by rectangle 2*col of its row and outlined by the next. */
  lemma CellDrawnAt(pixels: array3<Byte>, m: nat, cellSize: nat, row: nat, col: nat)
    requires m <= pixels.Length0 && pixels.Length2 == 3
    requires row < m && col < pixels.Length1
    ensures var slot := |RowsDrawn(pixels, row, cellSize)| + 2 * col;
      && slot + 1 < |RowsDrawn(pixels, m, cellSize)|
      && RowsDrawn(pixels, m, cellSize)[slot] == CellFill(row, col, cellSize, PixelColor(pixels, row, col))
      && RowsDrawn(pixels, m, cellSize)[slot + 1] == CellBorder(row, col, cellSize)
  {
    CellsDrawnAt(pixels, row, pixels.Length1, cellSize, col);
    var above, cells := RowsDrawn(pixels, row, cellSize), CellsDrawn(pixels, row, pixels.Length1, cellSize);
    var upTo := RowsDrawn(pixels, row + 1, cellSize);
    assert upTo == above + cells;
    var slot := |above| + 2 * col;
    assert upTo[slot] == cells[2 * col] && upTo[slot + 1] == cells[2 * col + 1];
    RowsDrawnKeeps(pixels, row + 1, m, cellSize, slot);
    RowsDrawnKeeps(pixels, row + 1, m, cellSize, slot + 1);
  }

  lemma AppendTwo<T>(a: seq<T>, b: seq<T>, x: T, y: T)
    ensures a + b + [x] + [y] == a + (b + [x, y])
  {
  }

  lemma MulLe(a: nat, b: nat, c: nat)
    requires a <= b
    ensures a * c <= b * c
  {
  }

  /** The cells tile the canvas: every screen point inside the
      `rows*cellSize` x `cols*cellSize` canvas lies in the square of cell
      (y / cellSize, x / cellSize), and in the half-open square of no other
      cell. */
  lemma CellCovers(rows: nat, cols: nat, cellSize: nat, p: Point)
    requires cellSize > 0
    requires 0 <= p.x < cols * cellSize && 0 <= p.y < rows * cellSize
    ensures p.y / cellSize < rows && p.x / cellSize < cols
    ensures var tl, br := CellTopLeft(p.y / cellSize, p.x / cellSize, cellSize),
                          CellBottomRight(p.y / cellSize, p.x / cellSize, cellSize);
      tl.x <= p.x < br.x && tl.y <= p.y < br.y
    ensures forall row: nat, col: nat ::
      CellTopLeft(row, col, cellSize).x <= p.x < CellBottomRight(row, col, cellSize).x
      && CellTopLeft(row, col, cellSize).y <= p.y < CellBottomRight(row, col, cellSize).y
      ==> row == p.y / cellSize && col == p.x / cellSize
  {
    CellIndex(p.x, cols, cellSize);
    CellIndex(p.y, rows, cellSize);
    forall row: nat, col: nat |
      CellTopLeft(row, col, cellSize).x <= p.x < CellBottomRight(row, col, cellSize).x
      && CellTopLeft(row, col, cellSize).y <= p.y < CellBottomRight(row, col, cellSize).y
      ensures row == p.y / cellSize && col == p.x / cellSize
    {
      OnlyCell(p.x, col, cellSize);
      OnlyCell(p.y, row, cellSize);
    }
  }

  lemma CellIndex(v: int, n: nat, cellSize: nat)
    requires cellSize > 0 && 0 <= v < n * cellSize
    ensures v / cellSize < n
    ensures (v / cellSize) * cellSize <= v < (v / cellSize + 1) * cellSize
  {
  }

  lemma OnlyCell(v: int, k: nat, cellSize: nat)
    requires cellSize > 0 && k * cellSize <= v < (k + 1) * cellSize
    ensures v / cellSize == k
  {
    var q := v / cellSize;
    assert q * cellSize <= v < (q + 1) * cellSize;
    if q < k {
      MulLe(q + 1, k, cellSize);
    } else if q > k {
      MulLe(k + 1, q, cellSize);
    }
  }

  /** Every cell lies inside the canvas: its far corner is at most the
      canvas size (the corner itself is the first point outside). */
  lemma CellInCanvas(rows: nat, cols: nat, cellSize: nat, row: nat, col: nat)
    requires row < rows && col < cols
    ensures 0 <= CellTopLeft(row, col, cellSize).x && 0 <= CellTopLeft(row, col, cellSize).y
    ensures CellBottomRight(row, col, cellSize).x <= cols * cellSize
    ensures CellBottomRight(row, col, cellSize).y <= rows * cellSize
  {
    assert (col + 1) * cellSize <= cols * cellSize;
    assert (row + 1) * cellSize <= rows * cellSize;
  }

  class ContourWallEmulator {
    var rows: nat
    var cols: nat
    var cellSize: nat
    var pushedFrames: int
    /** The canvas the cells are drawn on (`__matrix`). */
    var canvas: Shape
    /** The separate `matrix` attribute that `single_new_with_port` sets. */
    var matrix: Option<Shape>
    var pixels: array3<Byte>
    const window: Window

    /** The pixel grid has the grid's size and the canvas fits it exactly. */
    ghost predicate Valid()
      reads this
    {
      && pixels.Length0 == rows && pixels.Length1 == cols && pixels.Length2 == 3
      && canvas == Shape(rows * cellSize, cols * cellSize)
    }

    /** `__init__`: a 40x60 grid of 10-pixel cells, all black, nothing
        pushed yet. */
    constructor (window: Window)
      ensures Valid() && fresh(pixels) && this.window == window && matrix.None?
      ensures rows == 40 && cols == 60 && cellSize == 10 && pushedFrames == 0
      ensures forall r, c, k :: 0 <= r < 40 && 0 <= c < 60 && 0 <= k < 3 ==> pixels[r, c, k] == 0
    {
      rows := 40;
      cols := 60;
      cellSize := 10;
      pushedFrames := 0;
      canvas := Shape(40 * 10, 60 * 10);
      matrix := None;
      pixels := new Byte[40, 60, 3]((_, _, _) => 0);
      this.window := window;
    }

    /** `single_new_with_port` as written: a 20x20 grid of 20-pixel cells,
        all black; the new 400x400 canvas goes to `matrix`, so the canvas
        the cells are drawn on keeps its old size. */
    method SingleNewWithPortAsWritten()
      modifies this
      ensures rows == 20 && cols == 20 && cellSize == 20 && fresh(pixels)
      ensures pixels.Length0 == 20 && pixels.Length1 == 20 && pixels.Length2 == 3
      ensures forall r, c, k :: 0 <= r < 20 && 0 <= c < 20 && 0 <= k < 3 ==> pixels[r, c, k] == 0
      ensures canvas == old(canvas) && matrix == Some(Shape(400, 400))
      ensures pushedFrames == old(pushedFrames)
    {
      rows := 20;
      cols := 20;
      cellSize := 20;
      matrix := Some(Shape(rows * cellSize, cols * cellSize));
      pixels := new Byte[rows, cols, 3]((_, _, _) => 0);
    }

    /** `single_new_with_port` as evidently meant: the same grid, and the
        canvas the cells are drawn on resized to 400x400. */
    method SingleNewWithPort()
      modifies this
      ensures Valid()
      ensures rows == 20 && cols == 20 && cellSize == 20 && fresh(pixels)
      ensures forall r, c, k :: 0 <= r < 20 && 0 <= c < 20 && 0 <= k < 3 ==> pixels[r, c, k] == 0
      ensures canvas == Shape(400, 400) && matrix == old(matrix)
      ensures pushedFrames == old(pushedFrames)
    {
      rows := 20;
      cols := 20;
      cellSize := 20;
      canvas := Shape(rows * cellSize, cols * cellSize);
      pixels := new Byte[rows, cols, 3]((_, _, _) => 0);
    }

    /** `show`: every cell drawn, filled then outlined, row by row;
        `pushed_frames` goes up once per cell; the canvas is put on screen;
        then a sleep of `sleepMs` milliseconds (given in seconds), only
        when `sleepMs` is positive. `optimize` is not used. */
    method Show(sleepMs: int, optimize: bool) returns (sleep: Option<real>)
      requires pixels.Length0 == rows && pixels.Length1 == cols && pixels.Length2 == 3
      modifies this`pushedFrames, window
      ensures pushedFrames == old(pushedFrames) + rows * cols
      ensures window.drawn == old(window.drawn) + RowsDrawn(pixels, rows, cellSize)
      ensures window.shown == old(window.shown) + 1
      ensures sleepMs > 0 ==> sleep == Some(sleepMs as real / 1000.0)
      ensures sleepMs <= 0 ==> sleep.None?
    {
      for row := 0 to rows
        invariant pushedFrames == old(pushedFrames) + row * cols
        invariant window.drawn == old(window.drawn) + RowsDrawn(pixels, row, cellSize)
        invariant window.shown == old(window.shown)
      {
        DrawRow(row);
        assert row * cols + cols == (row + 1) * cols;
      }
      window.Present();
      if sleepMs > 0 {
        sleep := Some(sleepMs as real / 1000.0);
      } else {
        sleep := None;
      }
    }

    /** The inner loop of `show` for one row: each cell filled and outlined,
        and counted in `pushed_frames`. */
    method DrawRow(row: nat)
      requires pixels.Length0 == rows && pixels.Length1 == cols && pixels.Length2 == 3 && row < rows
      modifies this`pushedFrames, window
      ensures pushedFrames == old(pushedFrames) + cols
      ensures window.drawn == old(window.drawn) + CellsDrawn(pixels, row, cols, cellSize)
      ensures window.shown == old(window.shown)
    {
      for col := 0 to cols
        invariant pushedFrames == old(pushedFrames) + col
        invariant window.drawn == old(window.drawn) + CellsDrawn(pixels, row, col, cellSize)
        invariant window.shown == old(window.shown)
      {
        var topLeft := Point(col * cellSize, row * cellSize);
        var bottomRight := Point((col + 1) * cellSize, (row + 1) * cellSize);
        var color := PixelColor(pixels, row, col);
        ghost var done := CellsDrawn(pixels, row, col, cellSize);
        window.DrawRectangle(Rectangle(topLeft, bottomRight, color, -1));
        var borderColor := Color(0, 0, 0);
        window.DrawRectangle(Rectangle(topLeft, bottomRight, borderColor, 1));
        AppendTwo(old(window.drawn), done, CellFill(row, col, cellSize, color), CellBorder(row, col, cellSize));
        pushedFrames := pushedFrames + 1;
      }
    }

    /** `fill_solid`: every pixel set to (r, g, b). A value outside 0..255
        does not fit the `uint8` grid and the assignment raises, leaving
        the grid as it was. */
    method FillSolid(r: int, g: int, b: int) returns (ok: bool)
      modifies pixels
      ensures ok <==> 0 <= r < 256 && 0 <= g < 256 && 0 <= b < 256
      ensures ok ==> forall row, col :: 0 <= row < pixels.Length0 && 0 <= col < pixels.Length1 ==>
        pixels.Length2 == 3 ==> PixelColor(pixels, row, col) == Color(r, g, b)
      ensures !ok ==> unchanged(pixels)
    {
      if !(0 <= r < 256 && 0 <= g < 256 && 0 <= b < 256) {
        return false;
      }
      forall row, col, k | 0 <= row < pixels.Length0 && 0 <= col < pixels.Length1 && 0 <= k < pixels.Length2 {
        pixels[row, col, k] := if k % 3 == 0 then r else if k % 3 == 1 then g else b;
      }
      ok := true;
    }
  }

  /** The emulator as written: after `single_new_with_port` the grid needs
      a 400x400 canvas, but the cells are still drawn on the 400x600 one. */
  method ResetKeepsWideCanvas(window: Window) returns (e: ContourWallEmulator)
    ensures e.rows * e.cellSize == 400 && e.cols * e.cellSize == 400
    ensures e.canvas == Shape(400, 600) && !e.Valid()
  {
    e := new ContourWallEmulator(window);
    e.SingleNewWithPortAsWritten();
  }
}
