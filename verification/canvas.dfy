/** The drawing facade (`Graphics`, src/Zen.Barcode.Core/Graphics.cs:7-30):
    rectangle fills translated into one `SetPixel` call per pixel. */
module Canvas {

  import opened Colors
  import opened Results
  import opened Monochrome

  /** `System.Drawing.Rectangle`: a position and a size. */
  datatype Rectangle = Rectangle(x: int, y: int, width: int, height: int)

  /** Whether cell (col, row) lies in `[x, x + w) × [y, y + h)`. */
  predicate InRect(col: int, row: int, x: int, y: int, w: int, h: int)
  {
    x <= col < x + w && y <= row < y + h
  }

  /** The fills the model covers: an empty rectangle anywhere, since the
      loops then never call `SetPixel`, or a non-empty one inside the raster. */
  predicate Drawable(b: Bitmap, x: int, y: int, w: int, h: int)
  {
    w <= 0 || h <= 0 || (0 <= x && x + w <= b.width && 0 <= y && y + h <= b.height)
  }

  /** `r` is `b` with the rectangle painted: every cell inside it has the
      colour and every other cell, padding included, is as in `b`. */
  predicate IsFill(b: Bitmap, r: Bitmap, color: BWColor, x: int, y: int, w: int, h: int)
    requires Valid(b)
  {
    && Valid(r) && r.width == b.width && r.height == b.height && r.stride == b.stride
    && forall col, row | 0 <= col < 8 * b.stride && 0 <= row < b.height ::
         Cell(r, col, row) == if InRect(col, row, x, y, w, h) then color.isWhite else Cell(b, col, row)
  }

  /** `FillRectangle(brush, x, y, w, h)`: for each column `i < w` and, inside
      it, each row `j < h`, `SetPixel(x + i, y + j, brush)`. */
  method FillRectangle(b: Bitmap, color: BWColor, x: int, y: int, w: int, h: int) returns (r: Bitmap)
    requires Valid(b) && Drawable(b, x, y, w, h)
    ensures IsFill(b, r, color, x, y, w, h)
  {
    r := b;
    var i := 0;
    while i < w
      invariant 0 <= i && (i <= w || i == 0)
      invariant IsFill(b, r, color, x, y, i, h)
    {
      r := FillColumn(b, r, color, x, y, i, w, h);
      i := i + 1;
    }
    if w <= 0 {
      EmptyWidth(b, r, color, x, y, i, w, h);
    }
  }

  /** One pass of the outer loop: `SetPixel(x + i, y + j, brush)` for each `j < h`. */
  method FillColumn(b: Bitmap, r: Bitmap, color: BWColor, x: int, y: int, i: int, w: int, h: int)
    returns (r': Bitmap)
    requires Valid(b) && Drawable(b, x, y, w, h) && 0 <= i < w
    requires IsFill(b, r, color, x, y, i, h)
    ensures IsFill(b, r', color, x, y, i + 1, h)
  {
    r' := r;
    var px := x + i;
    var j := 0;
    while j < h
      invariant 0 <= j && (j <= h || j == 0)
      invariant PartialFill(b, r', color, x, y, i, j, h)
    {
      var py, next := y + j, j + 1;
      PaintNext(b, r', color, x, y, i, j, next, h, px, py);
      var written := SetPixel(r', px, py, color);
      r' := written.value;
      j := next;
    }
    ColumnDone(b, r', color, x, y, i, j, h);
  }

  /** Cells painted once `i` whole columns and `j` rows of column `i` are done. */
  predicate Painted(col: int, row: int, x: int, y: int, i: int, j: int, h: int)
  {
    InRect(col, row, x, y, i, h) || (col == x + i && y <= row < y + j)
  }

  /** The state of the raster part-way through a fill. */
  predicate PartialFill(b: Bitmap, r: Bitmap, color: BWColor, x: int, y: int, i: int, j: int, h: int)
    requires Valid(b)
  {
    && Valid(r) && r.width == b.width && r.height == b.height && r.stride == b.stride
    && forall col, row | 0 <= col < 8 * b.stride && 0 <= row < b.height ::
         Cell(r, col, row) == if Painted(col, row, x, y, i, j, h) then color.isWhite else Cell(b, col, row)
  }

  /** The next `SetPixel` call of a fill succeeds and paints the next cell
      of the current column. */
  lemma PaintNext(b: Bitmap, r: Bitmap, color: BWColor, x: int, y: int, i: int, j: int, next: int, h: int, px: int, py: int)
    requires Valid(b) && 0 <= j && next == j + 1
    requires px == x + i && py == y + j && 0 <= px < b.width && 0 <= py < b.height
    requires PartialFill(b, r, color, x, y, i, j, h)
    ensures Valid(r) && Addressable(r, px, py) && SetPixel(r, px, py, color).Success?
    ensures PartialFill(b, SetPixel(r, px, py, color).value, color, x, y, i, next, h)
  {
    SetPixelWritesOwnCell(r, px, py, color);
    FillStep(b, r, SetPixel(r, px, py, color).value, color, x, y, i, j, next, h, px, py);
  }

  /** Painting the next cell of the current column advances the fill. */
  lemma FillStep(b: Bitmap, r: Bitmap, r': Bitmap, color: BWColor, x: int, y: int, i: int, j: int, next: int, h: int, px: int, py: int)
    requires Valid(b) && PartialFill(b, r, color, x, y, i, j, h) && 0 <= j && next == j + 1
    requires px == x + i && py == y + j
    requires Valid(r) && CellWritten(r, px, py, color.isWhite, r')
    ensures PartialFill(b, r', color, x, y, i, next, h)
  {
    forall col, row | 0 <= col < 8 * b.stride && 0 <= row < b.height
      ensures Cell(r', col, row) == if Painted(col, row, x, y, i, next, h) then color.isWhite else Cell(b, col, row)
    {
      RowAdvance(col, row, x, y, i, j, h);
      assert Cell(r', col, row) == if col == px && row == py then color.isWhite else Cell(r, col, row);
    }
  }

  lemma RowAdvance(col: int, row: int, x: int, y: int, i: int, j: int, h: int)
    requires 0 <= j
    ensures Painted(col, row, x, y, i, j + 1, h)
            == (Painted(col, row, x, y, i, j, h) || (col == x + i && row == y + j))
  {
  }

  lemma ColumnComplete(col: int, row: int, x: int, y: int, i: int, j: int, h: int)
    requires 0 <= i
    requires j == h || (h <= 0 && j == 0)
    ensures InRect(col, row, x, y, i + 1, h) == Painted(col, row, x, y, i, j, h)
  {
  }

  /** With no columns to paint, the fill leaves every cell as it was. */
  lemma EmptyWidth(b: Bitmap, r: Bitmap, color: BWColor, x: int, y: int, i: int, w: int, h: int)
    requires Valid(b) && IsFill(b, r, color, x, y, i, h) && i == 0 && w <= 0
    ensures IsFill(b, r, color, x, y, w, h)
  {
    forall col, row | 0 <= col < 8 * b.stride && 0 <= row < b.height
      ensures Cell(r, col, row) == if InRect(col, row, x, y, w, h) then color.isWhite else Cell(b, col, row)
    {
      assert !InRect(col, row, x, y, i, h) && !InRect(col, row, x, y, w, h);
    }
  }

  /** A finished column turns a partial fill of `i` columns into a fill of `i + 1`. */
  lemma ColumnDone(b: Bitmap, r: Bitmap, color: BWColor, x: int, y: int, i: int, j: int, h: int)
    requires Valid(b) && PartialFill(b, r, color, x, y, i, j, h) && 0 <= i
    requires j == h || (h <= 0 && j == 0)
    ensures IsFill(b, r, color, x, y, i + 1, h)
  {
    forall col, row | 0 <= col < 8 * b.stride && 0 <= row < b.height
      ensures Cell(r, col, row) == if InRect(col, row, x, y, i + 1, h) then color.isWhite else Cell(b, col, row)
    {
      ColumnComplete(col, row, x, y, i, j, h);
    }
  }

  /** `FillRectangle(brush, bounds)`: the same fill, given a `Rectangle`. */
  method FillRectangleBounds(b: Bitmap, color: BWColor, bounds: Rectangle) returns (r: Bitmap)
    requires Valid(b) && Drawable(b, bounds.x, bounds.y, bounds.width, bounds.height)
    ensures IsFill(b, r, color, bounds.x, bounds.y, bounds.width, bounds.height)
  {
    r := FillRectangle(b, color, bounds.x, bounds.y, bounds.width, bounds.height);
  }

  /** A fill has exactly one outcome, so the `Rectangle` overload and the
      four-integer call produce the same raster. */
  lemma FillIsUnique(b: Bitmap, r1: Bitmap, r2: Bitmap, color: BWColor, x: int, y: int, w: int, h: int)
    requires Valid(b)
    requires IsFill(b, r1, color, x, y, w, h) && IsFill(b, r2, color, x, y, w, h)
    ensures r1 == r2
  {
    CellsDetermineBitmap(r1, r2);
  }

  /** A fill with no width or no height leaves the raster unchanged. */
  lemma EmptyFillIsNoOp(b: Bitmap, r: Bitmap, color: BWColor, x: int, y: int, w: int, h: int)
    requires Valid(b) && (w <= 0 || h <= 0)
    requires IsFill(b, r, color, x, y, w, h)
    ensures r == b
  {
    CellsDetermineBitmap(r, b);
  }

  /** After a fill, each pixel inside the rectangle reads the fill colour
      and each pixel outside it reads as before. */
  lemma FillPixels(b: Bitmap, r: Bitmap, color: BWColor, x: int, y: int, w: int, h: int, px: int, py: int)
    requires Valid(b) && IsFill(b, r, color, x, y, w, h)
    requires 0 <= px < b.width && 0 <= py < b.height
    ensures Addressable(b, px, py) && Addressable(r, px, py)
    ensures GetPixel(r, px, py) == if InRect(px, py, x, y, w, h) then Success(color) else GetPixel(b, px, py)
  {
    GetPixelReadsOwnCell(b, px, py);
    GetPixelReadsOwnCell(r, px, py);
  }
}
