/** The 1-bit-per-pixel raster (`Bitmap`, src/Zen.Barcode.Core/Graphics.cs:50-98).

    Pixels are packed eight to a byte, the leftmost pixel in the most
    significant bit, and every row is padded to a multiple of four bytes.
    A set bit is a WHITE pixel, so a freshly zeroed raster is all black.

    Addressing is done without any coordinate check: only the buffer's own
    bounds are enforced. To state what an unchecked access touches, the
    buffer is also viewed as a grid of CELLS, one per bit: cell (col, row)
    with `col < 8 * stride` is bit `col % 8` of byte `row * stride + col / 8`.
    Cells with `col < width` are the pixels; the rest are row padding. */
module Monochrome {

  import opened Bytes
  import opened Colors
  import opened Results
  import LittleEndian

  /** Bytes the encoder writes before the pixel rows; the file size it
      records (this plus the buffer length) must fit an `Int32`. */
  const HeaderSize: int := 62

  /** Bytes that hold one row of `width` pixels before padding. `/` here is
      C#'s truncating division, equal to Dafny's on non-negative operands. */
  function RowBytes(width: int): int
  {
    (width + 7) / 8
  }

  /** The row stride: the row bytes rounded up to a multiple of four. It is
      the LEAST multiple of four whose bytes hold `width` bits. */
  function Stride(width: int): (s: int)
    requires width > 0
    ensures s > 0 && s % 4 == 0
    ensures 8 * s >= width
    ensures 8 * (s - 4) < width
    ensures RowBytes(width) <= s < RowBytes(width) + 4
  {
    (RowBytes(width) + 3) / 4 * 4
  }

  /** Dimensions the constructor is modelled for: positive, with `width + 7`
      and the encoded file size `62 + Stride * height` within `Int32`. */
  predicate ValidDimensions(width: int, height: int)
  {
    && 0 < width && 0 < height
    && width + 7 <= LittleEndian.Int32Max
    && HeaderSize + Stride(width) * height <= LittleEndian.Int32Max
  }

  /** A raster: its size, its stride and its packed rows, row 0 first. */
  datatype Bitmap = Bitmap(width: int, height: int, stride: int, buffer: seq<byte>)

  /** The invariant every constructed raster keeps. */
  predicate Valid(b: Bitmap)
  {
    && ValidDimensions(b.width, b.height)
    && b.stride == Stride(b.width)
    && |b.buffer| == b.stride * b.height
  }

  /** The exceptions the raster can raise. */
  datatype BitmapError = IndexOutOfRange | NotSupported

  /** The argument of `RotateFlip`. */
  datatype RotateFlipType = Rotate90FlipNone

  /** `new Bitmap(width, height)`: a zero-filled buffer of `Stride * height` bytes. */
  function New(width: int, height: int): (b: Bitmap)
    requires ValidDimensions(width, height)
    ensures Valid(b)
    ensures b.width == width && b.height == height
    ensures forall i | 0 <= i < |b.buffer| :: b.buffer[i] == 0
  {
    var stride := Stride(width);
    PositiveProduct(stride, height);
    Bitmap(width, height, stride, seq(stride * height, _ => 0))
  }

  /** `y * Stride + x / 8`: the byte that holds pixel (x, y). */
  function Address(stride: int, x: int, y: int): (a: int)
    ensures 0 <= stride && 0 <= x && 0 <= y ==> 0 <= a
  {
    y * stride + x / 8
  }

  /** Whether the bit of cell (col, row) is set. */
  predicate Cell(b: Bitmap, col: int, row: int)
    requires Valid(b)
    requires 0 <= col < 8 * b.stride && 0 <= row < b.height
  {
    CellAddress(b.stride, b.height, col, row);
    BitsOf(b.buffer[Address(b.stride, col, row)])[col % 8]
  }

  /** The column of the cell an unchecked access to (x, y) lands on. */
  function CellColumn(b: Bitmap, x: int): (col: int)
    requires Valid(b) && 0 <= x
    ensures 0 <= col < 8 * b.stride
    ensures x < 8 * b.stride ==> col == x
  {
    DivideBy(x, 8 * b.stride);
    x % (8 * b.stride)
  }

  /** The row of the cell an unchecked access to (x, y) lands on: an `x`
      beyond the padded row spills into the following rows. */
  function CellRow(b: Bitmap, x: int, y: int): (row: int)
    requires Valid(b) && 0 <= x
    ensures y <= row
    ensures x < 8 * b.stride ==> row == y
  {
    DivideBy(x, 8 * b.stride);
    y + x / (8 * b.stride)
  }

  /** What the source demands before it computes an address: non-negative
      coordinates whose address does not overflow `Int32`. */
  predicate Addressable(b: Bitmap, x: int, y: int)
  {
    0 <= x && 0 <= y && Address(b.stride, x, y) <= LittleEndian.Int32Max
  }

  /** `GetPixel(x, y)`: reads the addressed bit, set meaning white. The only
      failure is the buffer's own bound; no coordinate is checked. Which
      cell that bit belongs to is stated by `GetPixelReadsCell`. */
  function GetPixel(b: Bitmap, x: int, y: int): (r: Result<BWColor, BitmapError>)
    requires Valid(b) && Addressable(b, x, y)
    ensures r.Failure? <==> Address(b.stride, x, y) >= |b.buffer|
    ensures r.Failure? ==> r.error == IndexOutOfRange
    ensures r.Success? ==> (r.value.isWhite <==> BitsOf(b.buffer[Address(b.stride, x, y)])[x % 8])
  {
    var index := Address(b.stride, x, y);
    if index >= |b.buffer| then Failure(IndexOutOfRange)
    else
      var mask := Mask(x % 8);
      TestBit(b.buffer[index], x % 8);
      Success(BWColor(And(b.buffer[index], mask) != 0))
  }

  /** `b'` is `b` with bit `bit` of byte `index` made `white` and every other
      bit of the buffer kept. */
  predicate BitWritten(b: Bitmap, index: int, bit: int, white: bool, b': Bitmap)
    requires 0 <= index < |b.buffer| && 0 <= bit < 8
  {
    && b'.width == b.width && b'.height == b.height && b'.stride == b.stride
    && |b'.buffer| == |b.buffer|
    && (forall j | 0 <= j < |b.buffer| && j != index :: b'.buffer[j] == b.buffer[j])
    && forall i | 0 <= i < 8 :: BitsOf(b'.buffer[index])[i] == if i == bit then white else BitsOf(b.buffer[index])[i]
  }

  /** `SetPixel(x, y, color)`: `|=` the mask for white, `&= ~mask` for black.
      It fails only on the buffer's own bound; otherwise the addressed bit
      takes the colour and every other bit of the buffer is kept. Which cell
      that bit belongs to is stated by `SetPixelWritesCell`. */
  function SetPixel(b: Bitmap, x: int, y: int, color: BWColor): (r: Result<Bitmap, BitmapError>)
    requires Valid(b) && Addressable(b, x, y)
    ensures r.Failure? <==> Address(b.stride, x, y) >= |b.buffer|
    ensures r.Failure? ==> r.error == IndexOutOfRange
    ensures r.Success? ==> Valid(r.value) && r.value.width == b.width && r.value.height == b.height
  {
    var index := Address(b.stride, x, y);
    if index >= |b.buffer| then Failure(IndexOutOfRange)
    else
      Success(b.(buffer := b.buffer[index := SetBit(b.buffer[index], x % 8, ToBool(color))]))
  }

  /** `b'` is `b` with cell (col0, row0) made `white` and every other cell kept. */
  predicate CellWritten(b: Bitmap, col0: int, row0: int, white: bool, b': Bitmap)
    requires Valid(b)
  {
    && Valid(b') && b'.width == b.width && b'.height == b.height && b'.stride == b.stride
    && forall col, row | 0 <= col < 8 * b.stride && 0 <= row < b.height ::
         Cell(b', col, row) == if col == col0 && row == row0 then white else Cell(b, col, row)
  }

  /** The addressed bit takes the colour and every other bit is kept. */
  lemma SetPixelWritesBit(b: Bitmap, x: int, y: int, color: BWColor)
    requires Valid(b) && Addressable(b, x, y) && Address(b.stride, x, y) < |b.buffer|
    ensures SetPixel(b, x, y, color).Success?
    ensures BitWritten(b, Address(b.stride, x, y), x % 8, color.isWhite, SetPixel(b, x, y, color).value)
  {
    var index := Address(b.stride, x, y);
    var v := SetBit(b.buffer[index], x % 8, ToBool(color));
    UpdateWritesBit(b, index, x % 8, color.isWhite, v);
  }

  /** Storing a byte whose bits differ from the old byte's only at `bit`. */
  lemma UpdateWritesBit(b: Bitmap, index: int, bit: int, white: bool, v: byte)
    requires Valid(b) && 0 <= index < |b.buffer| && 0 <= bit < 8
    requires forall i | 0 <= i < 8 :: BitsOf(v)[i] == if i == bit then white else BitsOf(b.buffer[index])[i]
    ensures Valid(b.(buffer := b.buffer[index := v]))
    ensures BitWritten(b, index, bit, white, b.(buffer := b.buffer[index := v]))
  {
  }

  /** `Clone()`: a new raster of the same size into which the buffer is copied. */
  function Clone(b: Bitmap): (copy: Bitmap)
    requires Valid(b)
    ensures Valid(copy)
    ensures copy == b
    ensures forall col, row | 0 <= col < 8 * b.stride && 0 <= row < b.height :: Cell(copy, col, row) == Cell(b, col, row)
  {
    var blank := New(b.width, b.height);
    var copy := blank.(buffer := CopyTo(b.buffer, blank.buffer, 0));
    assert copy.buffer == b.buffer;
    copy
  }

  /** `Array.CopyTo(dst, index)`: `src` overwrites `dst` from `index` on. */
  function CopyTo(src: seq<byte>, dst: seq<byte>, index: int): (r: seq<byte>)
    requires 0 <= index && index + |src| <= |dst|
    ensures |r| == |dst|
    ensures forall k | 0 <= k < |r| :: r[k] == if index <= k < index + |src| then src[k - index] else dst[k]
  {
    dst[..index] + src + dst[index + |src|..]
  }

  /** `RotateFlip`: unsupported; it always throws and has no success outcome. */
  function RotateFlip(b: Bitmap, rotation: RotateFlipType): (r: Result<Bitmap, BitmapError>)
    ensures r.Failure? && r.error == NotSupported
  {
    Failure(NotSupported)
  }

  // Pixel-level properties

  /** Every cell of a new raster is clear. */
  lemma NewIsBlank(width: int, height: int)
    requires ValidDimensions(width, height)
    ensures var b := New(width, height);
      forall col, row | 0 <= col < 8 * b.stride && 0 <= row < b.height :: !Cell(b, col, row)
  {
    var b := New(width, height);
    ZeroHasNoBits(0);
    forall col, row | 0 <= col < 8 * b.stride && 0 <= row < b.height
      ensures !Cell(b, col, row)
    {
      CellAddress(b.stride, b.height, col, row);
      assert b.buffer[Address(b.stride, col, row)] == 0;
    }
  }

  /** A new raster reads black at every pixel. */
  lemma NewIsBlack(width: int, height: int, x: int, y: int)
    requires ValidDimensions(width, height)
    requires 0 <= x < width && 0 <= y < height
    ensures Addressable(New(width, height), x, y)
    ensures GetPixel(New(width, height), x, y) == Success(Black)
  {
    NewIsBlank(width, height);
    GetPixelReadsOwnCell(New(width, height), x, y);
  }

  /** What `GetPixel` reads in general: it succeeds exactly when the cell
      its address lands on exists, and then reads that cell. */
  lemma GetPixelReadsCell(b: Bitmap, x: int, y: int)
    requires Valid(b) && Addressable(b, x, y)
    ensures GetPixel(b, x, y).Success? <==> CellRow(b, x, y) < b.height
    ensures GetPixel(b, x, y).Success? ==>
      (GetPixel(b, x, y).value.isWhite <==> Cell(b, CellColumn(b, x), CellRow(b, x, y)))
  {
    LandingRow(b, x, y);
    if Address(b.stride, x, y) < |b.buffer| {
      CellAt(b, x, y);
    }
  }

  /** Reading at the coordinates of a cell, a pixel or a padding cell,
      succeeds and reads that cell. */
  lemma GetPixelReadsOwnCell(b: Bitmap, x: int, y: int)
    requires Valid(b) && 0 <= x < 8 * b.stride && 0 <= y < b.height
    ensures Addressable(b, x, y)
    ensures GetPixel(b, x, y).Success? && (GetPixel(b, x, y).value.isWhite <==> Cell(b, x, y))
  {
    CellInBuffer(b, x, y);
  }

  /** What `SetPixel` writes in general: it succeeds exactly when the cell
      its address lands on exists, and then exactly that cell takes the
      colour while every other cell of the buffer keeps its bit. */
  lemma SetPixelWritesCell(b: Bitmap, x: int, y: int, color: BWColor)
    requires Valid(b) && Addressable(b, x, y)
    ensures SetPixel(b, x, y, color).Success? <==> CellRow(b, x, y) < b.height
    ensures SetPixel(b, x, y, color).Success? ==>
      CellWritten(b, CellColumn(b, x), CellRow(b, x, y), color.isWhite, SetPixel(b, x, y, color).value)
  {
    LandingRow(b, x, y);
    var index := Address(b.stride, x, y);
    if index < |b.buffer| {
      SetPixelWritesBit(b, x, y, color);
      var r := SetPixel(b, x, y, color).value;
      var col0, row0 := CellColumn(b, x), CellRow(b, x, y);
      CellAt(b, x, y);
      forall col, row | 0 <= col < 8 * b.stride && 0 <= row < b.height
        ensures Cell(r, col, row) == if col == col0 && row == row0 then color.isWhite else Cell(b, col, row)
      {
        WriteFrameCell(b, index, x % 8, color.isWhite, r, col0, row0, col, row);
      }
    }
  }

  /** Writing at the coordinates of a cell, a pixel or a padding cell,
      succeeds and sets exactly that cell. */
  lemma SetPixelWritesOwnCell(b: Bitmap, x: int, y: int, color: BWColor)
    requires Valid(b) && 0 <= x < 8 * b.stride && 0 <= y < b.height
    ensures Addressable(b, x, y)
    ensures SetPixel(b, x, y, color).Success?
    ensures CellWritten(b, x, y, color.isWhite, SetPixel(b, x, y, color).value)
  {
    CellInBuffer(b, x, y);
    SetPixelWritesBit(b, x, y, color);
    var index := Address(b.stride, x, y);
    var r := SetPixel(b, x, y, color).value;
    forall col, row | 0 <= col < 8 * b.stride && 0 <= row < b.height
      ensures Cell(r, col, row) == if col == x && row == y then color.isWhite else Cell(b, col, row)
    {
      WriteFrameCell(b, index, x % 8, color.isWhite, r, x, y, col, row);
    }
  }

  /** Setting a pixel and reading it back yields the colour set, and every
      other pixel reads as before. */
  lemma SetThenGet(b: Bitmap, x: int, y: int, color: BWColor, px: int, py: int)
    requires Valid(b)
    requires 0 <= x < b.width && 0 <= y < b.height
    requires 0 <= px < b.width && 0 <= py < b.height
    ensures Addressable(b, x, y) && SetPixel(b, x, y, color).Success?
    ensures Addressable(SetPixel(b, x, y, color).value, px, py) && Addressable(b, px, py)
    ensures GetPixel(SetPixel(b, x, y, color).value, px, py)
         == if px == x && py == y then Success(color) else GetPixel(b, px, py)
  {
    SetPixelWritesOwnCell(b, x, y, color);
    var r := SetPixel(b, x, y, color).value;
    GetPixelReadsOwnCell(b, px, py);
    GetPixelReadsOwnCell(r, px, py);
  }

  /** An `x` in the row padding (`width <= x < 8 * Stride`) is not rejected:
      the write succeeds and changes no pixel. */
  lemma PaddingWriteIsInvisible(b: Bitmap, x: int, y: int, color: BWColor, px: int, py: int)
    requires Valid(b)
    requires b.width <= x < 8 * b.stride && 0 <= y < b.height
    requires 0 <= px < b.width && 0 <= py < b.height
    ensures Addressable(b, x, y) && SetPixel(b, x, y, color).Success?
    ensures Addressable(b, px, py)
    ensures GetPixel(SetPixel(b, x, y, color).value, px, py) == GetPixel(b, px, py)
  {
    SetPixelWritesOwnCell(b, x, y, color);
    var r := SetPixel(b, x, y, color).value;
    GetPixelReadsOwnCell(b, px, py);
    GetPixelReadsOwnCell(r, px, py);
  }

  /** An `x` past the padded row is not rejected either: it addresses the
      same bit as `x - 8 * Stride` on the next row. */
  lemma OverlongRowSpills(b: Bitmap, x: int, y: int, color: BWColor)
    requires Valid(b)
    requires 8 * b.stride <= x && 0 <= y && Addressable(b, x, y)
    ensures Addressable(b, x - 8 * b.stride, y + 1)
    ensures SetPixel(b, x, y, color) == SetPixel(b, x - 8 * b.stride, y + 1, color)
    ensures GetPixel(b, x, y) == GetPixel(b, x - 8 * b.stride, y + 1)
  {
    NextRowAddress(b.stride, x, y);
  }

  /** The cells determine the raster: two valid rasters of the same size
      whose cells all agree are equal, buffers included. */
  lemma CellsDetermineBitmap(a: Bitmap, b: Bitmap)
    requires Valid(a) && Valid(b)
    requires a.width == b.width && a.height == b.height
    requires forall col, row | 0 <= col < 8 * a.stride && 0 <= row < a.height :: Cell(a, col, row) == Cell(b, col, row)
    ensures a == b
  {
    forall i | 0 <= i < |a.buffer|
      ensures a.buffer[i] == b.buffer[i]
    {
      var row := i / a.stride;
      var byteColumn := i % a.stride;
      DivisionSplit(i, a.stride);
      AddressBelow(a.stride, a.height, row, byteColumn);
      forall p | 0 <= p < 8
        ensures BitsOf(a.buffer[i])[p] == BitsOf(b.buffer[i])[p]
      {
        var col := 8 * byteColumn + p;
        assert col / 8 == byteColumn && col % 8 == p;
        assert Cell(a, col, row) == Cell(b, col, row);
      }
      assert BitsOf(a.buffer[i]) == BitsOf(b.buffer[i]);
      BitsDetermineByte(a.buffer[i], b.buffer[i]);
    }
  }

  // Proof of the addressing arithmetic

  lemma PositiveProduct(a: int, b: int)
    requires 0 < a && 0 < b
    ensures 0 < a * b
  {
  }

  lemma DivideBy(x: int, d: int)
    requires 0 <= x && 0 < d
    ensures 0 <= x / d && 0 <= x % d < d
    ensures x < d ==> x / d == 0 && x % d == x
  {
  }

  lemma MulMono(a: int, b: int, c: int)
    requires a <= b && 0 <= c
    ensures a * c <= b * c
  {
  }

  lemma DivisionSplit(i: int, stride: int)
    requires 0 <= i && 0 < stride
    ensures i == (i / stride) * stride + i % stride
    ensures 0 <= i / stride && 0 <= i % stride < stride
  {
  }

  /** For a byte column `0 <= a < stride`, the address `row * stride + a`
      lies in a buffer of `height` rows exactly when `row < height`. */
  lemma AddressBelow(stride: int, height: int, row: int, a: int)
    requires 0 < stride && 0 <= row && 0 <= a < stride
    ensures 0 <= row * stride + a
    ensures row * stride + a < stride * height <==> row < height
  {
    if row < height {
      MulMono(row + 1, height, stride);
    } else {
      MulMono(height, row, stride);
    }
  }

  /** Addresses are unique: the byte column below `stride` and the row are
      recovered from the address. */
  lemma AddressUnique(stride: int, r1: int, a1: int, r2: int, a2: int)
    requires 0 < stride && 0 <= a1 < stride && 0 <= a2 < stride
    requires r1 * stride + a1 == r2 * stride + a2
    ensures r1 == r2 && a1 == a2
  {
    if r1 < r2 {
      MulMono(r1 + 1, r2, stride);
    } else if r2 < r1 {
      MulMono(r2 + 1, r1, stride);
    }
  }

  /** Every cell lies inside the buffer. */
  lemma CellAddress(stride: int, height: int, col: int, row: int)
    requires 0 < stride && 0 <= col < 8 * stride && 0 <= row < height
    ensures 0 <= Address(stride, col, row) < stride * height
  {
    AddressBelow(stride, height, row, col / 8);
  }

  /** The address of (x, y) is the address of the cell it lands on. */
  lemma WrapAddress(stride: int, height: int, x: int, y: int)
    requires 0 < stride && 0 <= x && 0 <= y
    ensures var col, row := x % (8 * stride), y + x / (8 * stride);
      && 0 <= col < 8 * stride && 0 <= row
      && col % 8 == x % 8
      && Address(stride, x, y) == Address(stride, col, row)
      && (Address(stride, x, y) < stride * height <==> row < height)
  {
    var q, col := x / (8 * stride), x % (8 * stride);
    assert x == 8 * (stride * q) + col;
    assert x / 8 == stride * q + col / 8;
    assert x % 8 == col % 8;
    assert y * stride + stride * q == (y + q) * stride;
    AddressBelow(stride, height, y + q, col / 8);
  }

  /** An `x` of at least `8 * stride` addresses the next row. */
  lemma NextRowAddress(stride: int, x: int, y: int)
    requires 0 < stride && 8 * stride <= x
    ensures Address(stride, x, y) == Address(stride, x - 8 * stride, y + 1)
    ensures x % 8 == (x - 8 * stride) % 8
  {
    assert x == 8 * stride + (x - 8 * stride);
  }

  /** The coordinates of a cell are addressable and lie in the buffer. */
  lemma CellInBuffer(b: Bitmap, x: int, y: int)
    requires Valid(b)
    requires 0 <= x < 8 * b.stride && 0 <= y < b.height
    ensures Addressable(b, x, y) && Address(b.stride, x, y) < |b.buffer|
  {
    CellAddress(b.stride, b.height, x, y);
  }

  /** The cell an unchecked access lands on holds the bit it addresses. */
  lemma CellAt(b: Bitmap, x: int, y: int)
    requires Valid(b) && 0 <= x && 0 <= y
    requires Address(b.stride, x, y) < |b.buffer|
    ensures 0 <= CellColumn(b, x) < 8 * b.stride && 0 <= CellRow(b, x, y) < b.height
    ensures Address(b.stride, CellColumn(b, x), CellRow(b, x, y)) == Address(b.stride, x, y)
    ensures CellColumn(b, x) % 8 == x % 8
    ensures Cell(b, CellColumn(b, x), CellRow(b, x, y)) == BitsOf(b.buffer[Address(b.stride, x, y)])[x % 8]
  {
    WrapAddress(b.stride, b.height, x, y);
  }

  /** An access stays inside the buffer exactly when the row it lands on exists. */
  lemma LandingRow(b: Bitmap, x: int, y: int)
    requires Valid(b) && 0 <= x && 0 <= y
    ensures Address(b.stride, x, y) < |b.buffer| <==> CellRow(b, x, y) < b.height
  {
    WrapAddress(b.stride, b.height, x, y);
  }

  /** Two cells with the same address and the same bit are the same cell. */
  lemma SameAddressSameCell(stride: int, col1: int, row1: int, col2: int, row2: int)
    requires 0 < stride && 0 <= col1 < 8 * stride && 0 <= col2 < 8 * stride
    requires Address(stride, col1, row1) == Address(stride, col2, row2)
    ensures row1 == row2 && col1 / 8 == col2 / 8
    ensures col1 == col2 <==> col1 % 8 == col2 % 8
  {
    AddressUnique(stride, row1, col1 / 8, row2, col2 / 8);
  }

  /** The frame for one cell: writing bit `bit` of byte `index`, which is
      the bit of cell (col0, row0), moves that cell alone. */
  lemma WriteFrameCell(b: Bitmap, index: int, bit: int, white: bool, b': Bitmap, col0: int, row0: int, col: int, row: int)
    requires Valid(b) && 0 <= index < |b.buffer| && 0 <= bit < 8
    requires BitWritten(b, index, bit, white, b')
    requires 0 <= col0 < 8 * b.stride && 0 <= row0 < b.height
    requires Address(b.stride, col0, row0) == index && col0 % 8 == bit
    requires 0 <= col < 8 * b.stride && 0 <= row < b.height
    ensures Valid(b')
    ensures Cell(b', col, row) == if col == col0 && row == row0 then white else Cell(b, col, row)
  {
    var j := Address(b.stride, col, row);
    CellAddress(b.stride, b.height, col, row);
    if j == index {
      SameAddressSameCell(b.stride, col, row, col0, row0);
      assert Cell(b', col, row) == BitsOf(b'.buffer[index])[col % 8];
      assert Cell(b, col, row) == BitsOf(b.buffer[index])[col % 8];
    } else {
      assert b'.buffer[j] == b.buffer[j];
    }
  }
}
