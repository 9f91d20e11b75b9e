# Zen.Barcode monochrome raster, in Dafny

This project models the small raster library that Zen.Barcode renders its
barcodes into. It replaces `System.Drawing` in `src/Zen.Barcode.Core/Graphics.cs`
and has these parts:

- **`Bitmap`** is a 1-bit-per-pixel image.
  - Eight pixels are packed into each byte, the leftmost pixel in the most significant bit.
  - Rows are padded to a multiple of four bytes (the *stride*).
  - It has `GetPixel`, `SetPixel`, `Clone`, `RotateFlip` and a Windows BMP encoder, `WriteBmp`.
- **`Graphics`** is a drawing facade whose only operation fills a rectangle, one `SetPixel` per pixel.
- **`StreamExtensions`** writes 32- and 16-bit integers as bytes.
- **`BWColor`** is the two-valued colour, with conversions to `bool`, `Color` and `Brush`.

The Dafny modules follow that structure:

| module | file | models |
|---|---|---|
| `Results` | results.dfy | `Result`/`Option` for exceptions and rejected input |
| `Colors` | colors.dfy | `BWColor`, `Brush`, `Color` and their conversions |
| `Bytes` | bytes.dfy | the `byte` type and `&`, `\|`, `~`, `>>`, defined on an eight-bit view |
| `LittleEndian` | little_endian.dfy | `WriteInt32`/`WriteInt16`, each with an independent reader |
| `Monochrome` | monochrome.dfy | `Bitmap`: constructor, stride, pixel access, clone, rotate |
| `Canvas` | canvas.dfy | `Graphics.FillRectangle`, both overloads |
| `BmpEncoder` | bmp.dfy | `Bitmap.WriteBmp`, with a decoder as its inverse |

The raster is an immutable value. Every mutating call returns the new raster,
and an exception becomes a `Failure`.

## How the code behaves

- **Polarity.**
  - `GetPixel` returns `(Buffer[index] & mask) != 0` as `IsWhite`, and `SetPixel` sets the bit for white.
  - So a set bit is white, and a new, zero-filled raster reads black at every pixel (`Monochrome.NewIsBlack`).
  - The colour table matches this: entry 0 (bit clear) is black `0x000000` and entry 1 (bit set) is white `0xFFFFFF`.
  - Filling a fresh raster with black therefore leaves its data bytes zero.
- **Bounds.**
  - No coordinate is checked against the width or the height; only the array bound is.
  - An `x` in the row padding (`width <= x < 8 * Stride`) succeeds and touches a padding bit (`Monochrome.PaddingWriteIsInvisible`).
  - An `x` past the padded row addresses the cell `(x - 8 * Stride, y + 1)` (`Monochrome.OverlongRowSpills`), which may itself be a padding cell or lie further on.
  - Only an address beyond the buffer fails, with `IndexOutOfRange`.
  - To state all this, the buffer is also viewed as a grid of *cells*, one per bit.
    - Cell `(col, row)`, with `col < 8 * stride`, is bit `col % 8` of byte `row * stride + col / 8`.
    - `GetPixelReadsCell` and `SetPixelWritesCell` say which cell any access lands on.
- **File size.** A 4×2 raster has stride 4 and encodes to a 70-byte file. Its size and offset fields read 70 and 62 (`BmpEncoder.SmallFile`, `BmpEncoder.SmallFileBytes`).

`BitConverter.GetBytes` uses the platform's byte order. The model fixes it to
little-endian, which is the order the BMP format requires.

## Model

| member | source | states |
|---|---|---|
| Colors.ToBool | src/Zen.Barcode.Core/Graphics.cs:151 | a colour converts to `true` exactly when it is white |
| Colors.FromBool | src/Zen.Barcode.Core/Graphics.cs:152 | `true` becomes white and `false` black, and converting back gives the same `bool` |
| Colors.ToColor | src/Zen.Barcode.Core/Graphics.cs:154 | white becomes the known colour White, black the known colour Black |
| Colors.FromColor | src/Zen.Barcode.Core/Graphics.cs:155 | only the known colour White becomes white; every other colour, including Black and any colour built from components, becomes black; the two known colours survive the trip back |
| Colors.ToBrush | src/Zen.Barcode.Core/Graphics.cs:157 | white becomes the White brush; `FromBrush` undoes the conversion |
| Colors.FromBrush | src/Zen.Barcode.Core/Graphics.cs:158 | the White brush becomes white and the Black brush black |
| Colors.Equal | src/Zen.Barcode.Core/Graphics.cs:166-168 | two colours are equal exactly when they are the same value, which means they agree on `IsWhite` |
| Colors.NotEqual | src/Zen.Barcode.Core/Graphics.cs:169 | `!=` is the negation of `==` |
| Colors.ConversionsRoundTrip | src/Zen.Barcode.Core/Graphics.cs:151-158 | every colour survives a trip through `bool`, `Color` and `Brush`; `bool` and `Brush` survive a trip through `BWColor` |
| LittleEndian.WriteInt32 | src/Zen.Barcode.Core/Graphics.cs:34-37 | four bytes that the independent two's-complement reader reads back as the value written |
| LittleEndian.WriteInt16 | src/Zen.Barcode.Core/Graphics.cs:39-42 | two bytes that read back as the value written |
| LittleEndian.WriteReadInt32 | src/Zen.Barcode.Core/Graphics.cs:34-37 | every four bytes are what the writer produces for the value they read as, so writer and reader are mutually inverse |
| LittleEndian.WriteReadInt16 | src/Zen.Barcode.Core/Graphics.cs:39-42 | every two bytes are the writer's output for the value they read as |
| LittleEndian.WriteInt32Digits | src/Zen.Barcode.Core/Graphics.cs:123-124 | a non-negative value is written as its base-256 digits, least significant first; below 2^24 the last byte is zero |
| Bytes.Mask | src/Zen.Barcode.Core/Graphics.cs:76 | `(byte)(0x80 >> k)` has bit `k` set, counting from the most significant bit, and no other bit |
| Bytes.And | src/Zen.Barcode.Core/Graphics.cs:77 | each bit of `a & b` is set exactly when it is set in both |
| Bytes.Or | src/Zen.Barcode.Core/Graphics.cs:86 | each bit of `a \| b` is set exactly when it is set in either |
| Bytes.Not | src/Zen.Barcode.Core/Graphics.cs:90 | `(byte)~a` flips each of the eight bits |
| Bytes.ZeroHasNoBits | src/Zen.Barcode.Core/Graphics.cs:77 | a byte is zero exactly when none of its bits is set |
| Bytes.TestBit | src/Zen.Barcode.Core/Graphics.cs:76-77 | `(b & mask) != 0` holds exactly when bit `k` of `b` is set |
| Bytes.SetBit | src/Zen.Barcode.Core/Graphics.cs:83-91 | `\|= mask` for white and `&= ~mask` for black give bit `k` the colour and keep the other seven bits |
| Monochrome.Stride | src/Zen.Barcode.Core/Graphics.cs:55-56 | the stride is the least positive multiple of four bytes that holds `width` bits |
| Monochrome.New | src/Zen.Barcode.Core/Graphics.cs:52-58 | a new raster keeps its size and stride, and its `Stride * height` buffer bytes are all zero |
| Monochrome.GetPixel | src/Zen.Barcode.Core/Graphics.cs:73-78 | fails with `IndexOutOfRange` exactly when `y * Stride + x / 8` is beyond the buffer; otherwise reads white exactly when bit `x % 8` of that byte is set |
| Monochrome.SetPixel | src/Zen.Barcode.Core/Graphics.cs:80-92 | fails with `IndexOutOfRange` exactly when the address is beyond the buffer; otherwise the raster keeps its size and its invariant |
| Monochrome.SetPixelWritesBit | src/Zen.Barcode.Core/Graphics.cs:80-92 | a successful write gives the addressed bit the colour and keeps every other bit of every byte |
| Monochrome.GetPixelReadsCell | src/Zen.Barcode.Core/Graphics.cs:73-78 | for any coordinates, a read succeeds exactly when the cell its address lands on exists, and then reads that cell |
| Monochrome.GetPixelReadsOwnCell | src/Zen.Barcode.Core/Graphics.cs:73-78 | a read at the coordinates of a pixel or padding cell succeeds and reads that cell |
| Monochrome.SetPixelWritesCell | src/Zen.Barcode.Core/Graphics.cs:80-92 | for any coordinates, a write succeeds exactly when the landing cell exists, and then that cell alone changes, to the colour |
| Monochrome.SetPixelWritesOwnCell | src/Zen.Barcode.Core/Graphics.cs:80-92 | a write at the coordinates of a pixel or padding cell succeeds and changes exactly that cell |
| Monochrome.SetThenGet | src/Zen.Barcode.Core/Graphics.cs:73-92 | after setting a pixel, that pixel reads the colour set and every other pixel reads as before |
| Monochrome.PaddingWriteIsInvisible | src/Zen.Barcode.Core/Graphics.cs:80-92 | a write at `width <= x < 8 * Stride` is not rejected and changes no pixel |
| Monochrome.OverlongRowSpills | src/Zen.Barcode.Core/Graphics.cs:73-92 | at `x >= 8 * Stride`, reads and writes act on the bit of `(x - 8 * Stride, y + 1)` |
| Monochrome.Clone | src/Zen.Barcode.Core/Graphics.cs:66-71 | the copy has the same size and buffer, so every cell matches the original |
| Monochrome.CopyTo | src/Zen.Barcode.Core/Graphics.cs:69 | the target keeps its length; the source bytes replace those from the index on, and the other bytes are kept |
| Monochrome.RotateFlip | src/Zen.Barcode.Core/Graphics.cs:94-97 | always fails with `NotSupported` |
| Monochrome.NewIsBlank | src/Zen.Barcode.Core/Graphics.cs:57 | no cell of a new raster is set |
| Monochrome.NewIsBlack | src/Zen.Barcode.Core/Graphics.cs:52-58 | every pixel of a new raster reads black |
| Monochrome.CellsDetermineBitmap | src/Zen.Barcode.Core/Graphics.cs:56-57 | two valid rasters of the same size whose cells all agree are equal, buffers included |
| Canvas.FillRectangle | src/Zen.Barcode.Core/Graphics.cs:15-24 | every cell inside `[x, x+w) × [y, y+h)` takes the colour; every other cell, padding included, keeps its bit |
| Canvas.FillColumn | src/Zen.Barcode.Core/Graphics.cs:19-22 | one pass of the outer loop extends a fill of `i` columns to `i + 1` |
| Canvas.PaintNext | src/Zen.Barcode.Core/Graphics.cs:21 | each `SetPixel` call of a fill succeeds and paints the next cell of the current column |
| Canvas.FillRectangleBounds | src/Zen.Barcode.Core/Graphics.cs:14 | the `Rectangle` overload fills the rectangle's position and size |
| Canvas.FillIsUnique | src/Zen.Barcode.Core/Graphics.cs:14-15 | a fill has one outcome, so the two overloads give the same raster for the same rectangle |
| Canvas.EmptyFillIsNoOp | src/Zen.Barcode.Core/Graphics.cs:17-19 | with no width or no height, the raster is unchanged |
| Canvas.FillPixels | src/Zen.Barcode.Core/Graphics.cs:15-24 | after a fill, a pixel inside the rectangle reads the colour and a pixel outside reads as before |
| BmpEncoder.FileHeader | src/Zen.Barcode.Core/Graphics.cs:103-107 | 14 bytes: "BM", then the file size `62 + buffer length`, then 0, then the data offset 62, as little-endian fields |
| BmpEncoder.InfoHeader | src/Zen.Barcode.Core/Graphics.cs:109-120 | 40 bytes: size 40, the width, the height, 1 plane, 1 bit per pixel, no compression, the image size, no resolution, 2 colours, 2 important |
| BmpEncoder.InfoSizes | src/Zen.Barcode.Core/Graphics.cs:110-112 | the info header's size, width and height fields |
| BmpEncoder.InfoFormat | src/Zen.Barcode.Core/Graphics.cs:113-116 | the planes, bit-depth, compression and image-size fields |
| BmpEncoder.InfoCounts | src/Zen.Barcode.Core/Graphics.cs:117-120 | the resolution fields and the two colour counts |
| BmpEncoder.ColorTable | src/Zen.Barcode.Core/Graphics.cs:122-124 | black `00 00 00 00`, then white `FF FF FF 00` |
| BmpEncoder.Header | src/Zen.Barcode.Core/Graphics.cs:101-127 | everything written before the pixel data is 62 bytes long |
| BmpEncoder.WriteBmp | src/Zen.Barcode.Core/Graphics.cs:99-132 | for a stream written at its end, never takes the header-length error branch; the output is `62 + Stride * height` bytes, carries the full header table, and ends with the buffer verbatim |
| BmpEncoder.DecodeBmp | src/Zen.Barcode.Core/Graphics.cs:99-132 | a file is accepted only with the header table for its declared size and exactly one padded raster of data, and decodes to a valid raster holding that data |
| BmpEncoder.DecodeWrite | src/Zen.Barcode.Core/Graphics.cs:99-132 | decoding the encoder's output gives back the raster |
| BmpEncoder.WriteDecode | src/Zen.Barcode.Core/Graphics.cs:99-132 | encoding a raster the decoder accepted gives back the file byte for byte, so the encoder writes each raster's only file |
| BmpEncoder.HeaderDetermined | src/Zen.Barcode.Core/Graphics.cs:103-124 | the header fields fix all 62 header bytes |
| BmpEncoder.PaletteChoice | src/Zen.Barcode.Core/Graphics.cs:123-124 | under the encoder's colour table, a set bit selects the white entry and a clear bit the black one |
| BmpEncoder.FileShowsPixel | src/Zen.Barcode.Core/Graphics.cs:122-131 | for every pixel, the colour-table entry the file selects is white exactly when `GetPixel` reads white, and black exactly when it reads black |
| BmpEncoder.PixelThroughPalette | src/Zen.Barcode.Core/Graphics.cs:122-131 | the same agreement for any file that carries the buffer behind the encoder's colour table |
| BmpEncoder.SmallFile | src/Zen.Barcode.Core/Graphics.cs:99-132 | a 4×2 raster has stride 4 and a 70-byte file with the header table for 8 data bytes |
| BmpEncoder.SmallFileBytes | src/Zen.Barcode.Core/Graphics.cs:104-107 | in that file, bytes 0-1 are "BM", bytes 2-5 are 70, 0, 0, 0, and bytes 10-13 are 62, 0, 0, 0 |

## Left out

- Monochrome.GetPixel: negative coordinates, and addresses that overflow `Int32`, are excluded by the precondition. In C#, `x / 8` and `x % 8` truncate, so a negative `x` that is not a multiple of 8 gives a negative shift count, which `>>` reduces modulo 32. That behaviour is not modelled.
- Monochrome.SetPixel: the same exclusion of negative coordinates and `Int32` address overflow.
- Monochrome.New: requires positive dimensions for which `width + 7` and the file size `62 + Stride * height` fit `Int32`. The source itself checks nothing, and none of the following is modelled. A zero height, a zero width, or a width from -62 to 0 gives stride 0 or an empty buffer, so the raster is empty and its file is just the 62-byte header. A more negative width gives a negative stride, and `new byte[...]` then throws `OverflowException` for a negative size. Sizes past `Int32` wrap around in `width + 7` or `Stride * height`.
- Canvas.FillRectangle: a non-empty rectangle must lie inside the raster. Outside it, the source writes into row padding or the next row, or throws part-way after some pixels are already written. That partial state is not modelled. Single out-of-raster writes are covered by `SetPixelWritesCell`.
- Canvas.FillRectangleBounds: the same `Drawable` requirement as `Canvas.FillRectangle`, for the same reason; the source passes any rectangle straight through to the four-integer overload.
- Colors.Equal: models the `==` operator and `Equals` between two `BWColor` values. `Equals(object)` with an argument that is not a `BWColor`, such as a boxed `bool`, returns false even when `==` after the implicit conversion would hold; that case is not modelled, since the model has no `object` type.
- LittleEndian.WriteInt32: fixes little-endian order. `BitConverter.GetBytes` follows the platform, and big-endian platforms are not modelled.
- LittleEndian.WriteInt16: the same fixed order.
- `Stream` mechanics are not modelled: the stream's starting length and position, and what a failing write leaves behind. The encoder's output is the byte sequence it writes.
- BmpEncoder.WriteBmp: its header-length check passes only for a stream written at its end. The source measures the header as the growth of `o.Length` (Graphics.cs lines 101 and 127-128). A seekable stream positioned before its end grows by less than 62 bytes, so the source throws `InvalidOperationException` after the header is already written. A stream that cannot report its length throws `NotSupportedException` at line 101. Neither case is modelled.
- `Graphics.FromImage` and `Dispose` have no effect to model. `Dispose` does nothing, and the facade is modelled by passing the raster to the fill.
- `SolidBrush` and its conversions are not modelled. They only carry a `Color` through the `Color` conversions, which are modelled.
- `ToString` and `GetHashCode` only produce text or a hash, and are not modelled.
- `System.Drawing.Color` is reduced to the known colours White and Black plus any other colour. Only that distinction reaches the raster.
- `Clone`'s independence of storage holds here by value semantics: a copy can never alias the original.
- The BMP row order (bottom-up for a positive height) is not stated. The encoder writes the buffer as it is, and the model only proves that the bytes match.
