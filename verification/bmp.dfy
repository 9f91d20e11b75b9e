/** `Bitmap.WriteBmp` (src/Zen.Barcode.Core/Graphics.cs:99-132): an
    uncompressed 1-bit-per-pixel Windows BMP file, made of a 14-byte
    BITMAPFILEHEADER, a 40-byte BITMAPINFOHEADER, a two-entry RGBQUAD colour
    table and then the raster's buffer, verbatim. The stream becomes a byte
    sequence. `DecodeBmp` reads the header fields back through `Describes`
    and `ReadInt32` and is the encoder's inverse. */
module BmpEncoder {

  import opened Bytes
  import opened Colors
  import opened Results
  import opened LittleEndian
  import opened Monochrome

  const FileHeaderSize := 14
  const InfoHeaderSize := 40
  const ColorTableSize := 8

  /** The colour-table entries, as stored: blue, green, red, reserved. */
  const BlackQuad: seq<byte> := [0x00, 0x00, 0x00, 0x00]
  const WhiteQuad: seq<byte> := [0xFF, 0xFF, 0xFF, 0x00]

  /** The failure the source raises when the header it wrote is not 62 bytes. */
  datatype EncodeError = UnexpectedHeaderLength(length: int)

  /** A little-endian `Int32` field at `offset` holds `v`. */
  predicate Int32At(file: seq<byte>, offset: nat, v: int)
  {
    offset + 4 <= |file| && ReadInt32(file[offset..offset + 4]) == v
  }

  /** A little-endian `Int16` field at `offset` holds `v`. */
  predicate Int16At(file: seq<byte>, offset: nat, v: int)
  {
    offset + 2 <= |file| && ReadInt16(file[offset..offset + 2]) == v
  }

  /** The header table of a 1-bpp BMP file whose pixel data holds
      `imageSize` bytes: the file header, the info header and the
      black-then-white colour table, field by field. */
  predicate Describes(file: seq<byte>, width: int, height: int, imageSize: int)
  {
    && |file| >= HeaderSize
    && FileHeaderAt(file, imageSize)
    && InfoHeaderAt(file, width, height, imageSize)
    && ColorTableAt(file)
  }

  /** BITMAPFILEHEADER fields: "BM", the file size, a reserved zero and the
      offset of the pixel data. */
  predicate FileHeaderAt(file: seq<byte>, imageSize: int)
  {
    && |file| >= FileHeaderSize
    && file[0] == 0x42 && file[1] == 0x4D
    && Int32At(file, 2, HeaderSize + imageSize)
    && Int32At(file, 6, 0)
    && Int32At(file, 10, HeaderSize)
  }

  /** BITMAPINFOHEADER fields, at offset 14. */
  predicate InfoHeaderAt(file: seq<byte>, width: int, height: int, imageSize: int)
  {
    && Int32At(file, 14, InfoHeaderSize)
    && Int32At(file, 18, width)
    && Int32At(file, 22, height)
    && Int16At(file, 26, 1)
    && Int16At(file, 28, 1)
    && Int32At(file, 30, 0)
    && Int32At(file, 34, imageSize)
    && Int32At(file, 38, 0)
    && Int32At(file, 42, 0)
    && Int32At(file, 46, 2)
    && Int32At(file, 50, 2)
  }

  /** The two RGBQUAD entries, at offset 54. */
  predicate ColorTableAt(file: seq<byte>)
  {
    && |file| >= HeaderSize
    && file[54..58] == BlackQuad
    && file[58..62] == WhiteQuad
  }

  /** BITMAPFILEHEADER: "BM", the file size, a reserved zero and the offset
      of the pixel data. */
  function FileHeader(imageSize: int): (h: seq<byte>)
    requires 0 <= imageSize && HeaderSize + imageSize <= Int32Max
    ensures |h| == FileHeaderSize
    ensures h[0] == 0x42 && h[1] == 0x4D
    ensures Int32At(h, 2, HeaderSize + imageSize) && Int32At(h, 6, 0) && Int32At(h, 10, HeaderSize)
  {
    var magic: seq<byte> := [0x42, 0x4D];
    var size := WriteInt32(HeaderSize + imageSize);
    var reserved := WriteInt32(0);
    var offset := WriteInt32(HeaderSize);
    Written32(HeaderSize + imageSize);
    Written32(0);
    Written32(HeaderSize);
    Append(magic, size);
    Append(magic + size, reserved);
    Append(magic + size + reserved, offset);
    magic + size + reserved + offset
  }

  /** BITMAPINFOHEADER: its own size, the dimensions, one plane of one bit
      per pixel, no compression, the image size, no resolution and a
      two-colour palette. */
  function InfoHeader(width: int, height: int, imageSize: int): (h: seq<byte>)
    requires IsInt32(width) && IsInt32(height) && IsInt32(imageSize)
    ensures |h| == InfoHeaderSize
    ensures Int32At(h, 0, InfoHeaderSize) && Int32At(h, 4, width) && Int32At(h, 8, height)
    ensures Int16At(h, 12, 1) && Int16At(h, 14, 1)
    ensures Int32At(h, 16, 0) && Int32At(h, 20, imageSize)
    ensures Int32At(h, 24, 0) && Int32At(h, 28, 0)
    ensures Int32At(h, 32, 2) && Int32At(h, 36, 2)
  {
    var sizes := InfoSizes(width, height);
    var format := InfoFormat(imageSize);
    var counts := InfoCounts();
    Append(sizes, format);
    Append(sizes + format, counts);
    sizes + format + counts
  }

  /** The first three info-header fields: its size, the width, the height. */
  function InfoSizes(width: int, height: int): (h: seq<byte>)
    requires IsInt32(width) && IsInt32(height)
    ensures |h| == 12
    ensures Int32At(h, 0, InfoHeaderSize) && Int32At(h, 4, width) && Int32At(h, 8, height)
  {
    var a := WriteInt32(InfoHeaderSize);
    var b := WriteInt32(width);
    var c := WriteInt32(height);
    Written32(InfoHeaderSize);
    Written32(width);
    Written32(height);
    Append(a, b);
    Append(a + b, c);
    a + b + c
  }

  /** Planes, bits per pixel, compression and image size. */
  function InfoFormat(imageSize: int): (h: seq<byte>)
    requires IsInt32(imageSize)
    ensures |h| == 12
    ensures Int16At(h, 0, 1) && Int16At(h, 2, 1) && Int32At(h, 4, 0) && Int32At(h, 8, imageSize)
  {
    var planes := WriteInt16(1);
    var depth := WriteInt16(1);
    var compression := WriteInt32(0);
    var size := WriteInt32(imageSize);
    Written16(1);
    Written32(0);
    Written32(imageSize);
    Append(planes, depth);
    Append(planes + depth, compression);
    Append(planes + depth + compression, size);
    planes + depth + compression + size
  }

  /** Horizontal and vertical resolution, then the two colour counts. */
  function InfoCounts(): (h: seq<byte>)
    ensures |h| == 16
    ensures Int32At(h, 0, 0) && Int32At(h, 4, 0) && Int32At(h, 8, 2) && Int32At(h, 12, 2)
  {
    var zero := WriteInt32(0);
    var two := WriteInt32(2);
    Written32(0);
    Written32(2);
    Append(zero, zero);
    Append(zero + zero, two);
    Append(zero + zero + two, two);
    zero + zero + two + two
  }

  /** A written `Int32` reads back at offset 0. */
  lemma Written32(v: int)
    requires IsInt32(v)
    ensures Int32At(WriteInt32(v), 0, v)
  {
    assert WriteInt32(v)[0..4] == WriteInt32(v);
  }

  /** A written `Int16` reads back at offset 0. */
  lemma Written16(v: int)
    requires IsInt16(v)
    ensures Int16At(WriteInt16(v), 0, v)
  {
    assert WriteInt16(v)[0..2] == WriteInt16(v);
  }

  /** Appending keeps the fields of both parts, those of the second shifted
      by the length of the first. */
  lemma Append(s: seq<byte>, t: seq<byte>)
    ensures forall offset: nat, v | Int32At(s, offset, v) :: Int32At(s + t, offset, v)
    ensures forall offset: nat, v | Int32At(t, offset, v) :: Int32At(s + t, |s| + offset, v)
    ensures forall offset: nat, v | Int16At(s, offset, v) :: Int16At(s + t, offset, v)
    ensures forall offset: nat, v | Int16At(t, offset, v) :: Int16At(s + t, |s| + offset, v)
  {
    forall offset: nat, v | Int32At(s, offset, v)
      ensures Int32At(s + t, offset, v)
    {
      assert (s + t)[offset..offset + 4] == s[offset..offset + 4];
    }
    forall offset: nat, v | Int32At(t, offset, v)
      ensures Int32At(s + t, |s| + offset, v)
    {
      assert (s + t)[|s| + offset..|s| + offset + 4] == t[offset..offset + 4];
    }
    forall offset: nat, v | Int16At(s, offset, v)
      ensures Int16At(s + t, offset, v)
    {
      assert (s + t)[offset..offset + 2] == s[offset..offset + 2];
    }
    forall offset: nat, v | Int16At(t, offset, v)
      ensures Int16At(s + t, |s| + offset, v)
    {
      assert (s + t)[|s| + offset..|s| + offset + 2] == t[offset..offset + 2];
    }
  }

  /** The colour table: entry 0, for a clear bit, is black (0x000000) and
      entry 1, for a set bit, is white (0xFFFFFF). */
  function ColorTable(): (t: seq<byte>)
    ensures t == BlackQuad + WhiteQuad
  {
    WriteInt32Digits(0xFFFFFF);
    WriteInt32(0x000000) + WriteInt32(0xFFFFFF)
  }

  /** Everything `WriteBmp` writes before the pixel data. */
  function Header(b: Bitmap): (h: seq<byte>)
    requires Valid(b)
    ensures |h| == HeaderSize
  {
    BufferFits(b);
    FileHeader(|b.buffer|) + InfoHeader(b.width, b.height, |b.buffer|) + ColorTable()
  }

  /** `WriteBmp`: the header, then a length check the header always passes,
      then the buffer. The source measures the header as the growth of the
      stream's length, so the check passes for a stream written at its end,
      which is the stream this model stands for. */
  function WriteBmp(b: Bitmap): (r: Result<seq<byte>, EncodeError>)
    requires Valid(b)
    ensures r.Success?
    ensures |r.value| == HeaderSize + b.stride * b.height
    ensures Describes(r.value, b.width, b.height, |b.buffer|)
    ensures r.value[HeaderSize..] == b.buffer
  {
    var header := Header(b);
    if |header| != HeaderSize then
      Failure(UnexpectedHeaderLength(|header|))
    else
      HeaderFields(b);
      Success(header + b.buffer)
  }

  /** Reads a file back into a raster: the header must be the one the
      encoder writes for the dimensions it declares, and the pixel data
      must be exactly one padded raster long. */
  function DecodeBmp(file: seq<byte>): (r: Option<Bitmap>)
    ensures r.Some? ==> |file| >= HeaderSize && Valid(r.value) && r.value.buffer == file[HeaderSize..]
    ensures r.Some? ==> Describes(file, r.value.width, r.value.height, |r.value.buffer|)
  {
    if |file| < HeaderSize then None
    else
      var width := ReadInt32(file[18..22]);
      var height := ReadInt32(file[22..26]);
      var image := file[HeaderSize..];
      if ValidDimensions(width, height) && |image| == Stride(width) * height
         && Describes(file, width, height, |image|)
      then Some(Bitmap(width, height, Stride(width), image))
      else None
  }

  /** The colour-table entry the file gives to a bit. */
  function PaletteEntry(file: seq<byte>, bit: bool): (q: seq<byte>)
    requires |file| >= HeaderSize
    ensures |q| == 4
  {
    if bit then file[58..62] else file[54..58]
  }

  /** The bit the file stores for pixel (x, y). */
  predicate FileBit(file: seq<byte>, stride: int, x: int, y: int)
    requires 0 < stride && 0 <= x && 0 <= y && HeaderSize + Address(stride, x, y) < |file|
  {
    BitsOf(file[HeaderSize + Address(stride, x, y)])[x % 8]
  }

  /** Decoding what the encoder wrote gives back the raster. */
  lemma DecodeWrite(b: Bitmap)
    requires Valid(b)
    ensures DecodeBmp(WriteBmp(b).value) == Some(b)
  {
    var file := WriteBmp(b).value;
    assert file[18..22] == file[18..18 + 4] && file[22..26] == file[22..22 + 4];
  }

  /** Encoding what the decoder accepts gives back the file, byte for byte. */
  lemma WriteDecode(file: seq<byte>, b: Bitmap)
    requires DecodeBmp(file) == Some(b)
    ensures WriteBmp(b) == Success(file)
  {
    var out := WriteBmp(b).value;
    HeaderDetermined(file, out, b.width, b.height, |b.buffer|);
    SameParts(file, out, HeaderSize);
  }

  /** Two sequences that agree before and after a cut are equal. */
  lemma SameParts(f: seq<byte>, g: seq<byte>, cut: nat)
    requires cut <= |f| && cut <= |g|
    requires f[..cut] == g[..cut] && f[cut..] == g[cut..]
    ensures f == g
  {
    assert f == f[..cut] + f[cut..];
    assert g == g[..cut] + g[cut..];
  }

  /** The header table fixes every header byte. */
  lemma HeaderDetermined(f: seq<byte>, g: seq<byte>, width: int, height: int, imageSize: int)
    requires Describes(f, width, height, imageSize) && Describes(g, width, height, imageSize)
    ensures f[..HeaderSize] == g[..HeaderSize]
  {
    FileHeaderDetermined(f, g, imageSize);
    InfoHeaderDetermined(f, g, width, height, imageSize);
    forall k | 0 <= k < HeaderSize
      ensures f[k] == g[k]
    {
      if k >= 58 {
        SameFieldByte(f, g, 58, 4, k);
      } else if k >= 54 {
        SameFieldByte(f, g, 54, 4, k);
      }
    }
  }

  /** The file-header fields fix bytes 0 to 13. */
  lemma FileHeaderDetermined(f: seq<byte>, g: seq<byte>, imageSize: int)
    requires FileHeaderAt(f, imageSize) && FileHeaderAt(g, imageSize)
    ensures forall k | 0 <= k < FileHeaderSize :: f[k] == g[k]
  {
    SameInt32(f, g, 2, HeaderSize + imageSize);
    SameInt32(f, g, 6, 0);
    SameInt32(f, g, 10, HeaderSize);
    forall k | 2 <= k < FileHeaderSize
      ensures f[k] == g[k]
    {
      var offset := FieldOf(k);
      SameFieldByte(f, g, offset, 4, k);
    }
  }

  /** The info-header fields fix bytes 14 to 53. */
  lemma InfoHeaderDetermined(f: seq<byte>, g: seq<byte>, width: int, height: int, imageSize: int)
    requires InfoHeaderAt(f, width, height, imageSize) && InfoHeaderAt(g, width, height, imageSize)
    ensures forall k | FileHeaderSize <= k < FileHeaderSize + InfoHeaderSize :: f[k] == g[k]
  {
    SameInt32(f, g, 14, InfoHeaderSize);
    SameInt32(f, g, 18, width);
    SameInt32(f, g, 22, height);
    SameInt16(f, g, 26, 1);
    SameInt16(f, g, 28, 1);
    SameInt32(f, g, 30, 0);
    SameInt32(f, g, 34, imageSize);
    SameInt32(f, g, 38, 0);
    SameInt32(f, g, 42, 0);
    SameInt32(f, g, 46, 2);
    SameInt32(f, g, 50, 2);
    forall k | FileHeaderSize <= k < FileHeaderSize + InfoHeaderSize
      ensures f[k] == g[k]
    {
      var offset := FieldOf(k);
      if offset == 26 || offset == 28 {
        SameFieldByte(f, g, offset, 2, k);
      } else {
        SameFieldByte(f, g, offset, 4, k);
      }
    }
  }

  /** Equal fields agree on each of their bytes. */
  lemma SameFieldByte(f: seq<byte>, g: seq<byte>, offset: nat, length: nat, k: int)
    requires offset + length <= |f| && offset + length <= |g|
    requires f[offset..offset + length] == g[offset..offset + length]
    requires offset <= k < offset + length
    ensures f[k] == g[k]
  {
    assert f[k] == f[offset..offset + length][k - offset];
    assert g[k] == g[offset..offset + length][k - offset];
  }

  /** Two `Int32` fields holding the same value are the same four bytes. */
  lemma SameInt32(f: seq<byte>, g: seq<byte>, offset: nat, v: int)
    requires Int32At(f, offset, v) && Int32At(g, offset, v)
    ensures f[offset..offset + 4] == g[offset..offset + 4]
  {
    WriteReadInt32(f[offset..offset + 4]);
    WriteReadInt32(g[offset..offset + 4]);
  }

  /** Two `Int16` fields holding the same value are the same two bytes. */
  lemma SameInt16(f: seq<byte>, g: seq<byte>, offset: nat, v: int)
    requires Int16At(f, offset, v) && Int16At(g, offset, v)
    ensures f[offset..offset + 2] == g[offset..offset + 2]
  {
    WriteReadInt16(f[offset..offset + 2]);
    WriteReadInt16(g[offset..offset + 2]);
  }

  /** The start of the header field byte `k` belongs to. */
  function FieldOf(k: int): (offset: int)
    requires 0 <= k < HeaderSize
    ensures offset in {0, 2, 6, 10, 14, 18, 22, 26, 28, 30, 34, 38, 42, 46, 50, 54, 58}
    ensures offset <= k
    ensures offset == 0 ==> k < 2
    ensures offset in {26, 28} ==> k < offset + 2
    ensures offset !in {0, 26, 28} ==> k < offset + 4
  {
    if k < 2 then 0
    else if k < 26 then 2 + (k - 2) / 4 * 4
    else if k < 28 then 26
    else if k < 30 then 28
    else 30 + (k - 30) / 4 * 4
  }

  /** The colour-table entry selected by the bit the file stores for
      (x, y) is white exactly when `GetPixel` reads white: a set bit. */
  lemma FileShowsPixel(b: Bitmap, x: int, y: int)
    requires Valid(b) && 0 <= x < b.width && 0 <= y < b.height
    ensures Addressable(b, x, y) && HeaderSize + Address(b.stride, x, y) < |WriteBmp(b).value|
    ensures var file := WriteBmp(b).value;
            var entry := PaletteEntry(file, FileBit(file, b.stride, x, y));
            && (entry == WhiteQuad <==> GetPixel(b, x, y) == Success(White))
            && (entry == BlackQuad <==> GetPixel(b, x, y) == Success(Black))
  {
    CellInBuffer(b, x, y);
    var file := WriteBmp(b).value;
    PixelThroughPalette(b, file, x, y);
  }

  /** The palette argument, for any file that carries the buffer behind a
      black-then-white colour table. */
  lemma PixelThroughPalette(b: Bitmap, file: seq<byte>, x: int, y: int)
    requires Valid(b) && 0 <= x < b.width && 0 <= y < b.height
    requires |file| == HeaderSize + |b.buffer| && file[HeaderSize..] == b.buffer && ColorTableAt(file)
    ensures Addressable(b, x, y) && HeaderSize + Address(b.stride, x, y) < |file|
    ensures var entry := PaletteEntry(file, FileBit(file, b.stride, x, y));
            && (entry == WhiteQuad <==> GetPixel(b, x, y) == Success(White))
            && (entry == BlackQuad <==> GetPixel(b, x, y) == Success(Black))
  {
    CellInBuffer(b, x, y);
    var index := Address(b.stride, x, y);
    assert file[HeaderSize + index] == b.buffer[index];
    var bit := FileBit(file, b.stride, x, y);
    assert GetPixel(b, x, y) == Success(BWColor(bit));
    PaletteChoice(file, bit);
  }

  /** A black-then-white colour table gives a set bit the white entry and a
      clear bit the black one. */
  lemma PaletteChoice(file: seq<byte>, bit: bool)
    requires ColorTableAt(file)
    ensures PaletteEntry(file, bit) == WhiteQuad <==> bit
    ensures PaletteEntry(file, bit) == BlackQuad <==> !bit
  {
    assert WhiteQuad != BlackQuad by {
      assert WhiteQuad[0] != BlackQuad[0];
    }
  }

  /** A 4×2 raster has stride 4, so its file is 70 bytes: the 62-byte
      header for a 4×2 image of 8 data bytes, then the data. */
  lemma SmallFile(b: Bitmap)
    requires Valid(b) && b.width == 4 && b.height == 2
    ensures b.stride == 4
    ensures var file := WriteBmp(b).value;
            |file| == 70 && Describes(file, 4, 2, 8)
  {
    assert b.stride == 4 && |b.buffer| == 8 by {
      assert Stride(4) == 4;
    }
  }

  /** In a file under the 4×2 header table, the file-size field holds the
      bytes 70, 0, 0, 0 and the data-offset field 62, 0, 0, 0. */
  lemma SmallFileBytes(file: seq<byte>)
    requires Describes(file, 4, 2, 8)
    ensures file[0] == 0x42 && file[1] == 0x4D
    ensures file[2] == 70 && file[3] == 0 && file[4] == 0 && file[5] == 0
    ensures file[10] == 62 && file[11] == 0 && file[12] == 0 && file[13] == 0
  {
    SmallInt32(file, 2, 70);
    SmallInt32(file, 10, 62);
  }

  /** An `Int32` field holding a value below 0x100 is that byte and three
      zero bytes. */
  lemma SmallInt32(file: seq<byte>, offset: nat, v: int)
    requires Int32At(file, offset, v) && 0 <= v < 0x100
    ensures file[offset] as int == v
    ensures file[offset + 1] == 0 && file[offset + 2] == 0 && file[offset + 3] == 0
  {
    WriteReadInt32(file[offset..offset + 4]);
    WriteInt32Digits(v);
    assert file[offset..offset + 4] == WriteInt32(v);
    assert file[offset + 1] == file[offset..offset + 4][1];
    assert file[offset + 2] == file[offset..offset + 4][2];
    assert file[offset + 3] == file[offset..offset + 4][3];
  }

  /** The header fields the encoder writes, at their offsets in the file. */
  lemma HeaderFields(b: Bitmap)
    requires Valid(b)
    ensures Describes(Header(b) + b.buffer, b.width, b.height, |b.buffer|)
  {
    BufferFits(b);
    var fh := FileHeader(|b.buffer|);
    var ih := InfoHeader(b.width, b.height, |b.buffer|);
    FileHeaderFields(fh, ih, ColorTable(), b.buffer, |b.buffer|);
    InfoHeaderFields(fh, ih, ColorTable(), b.buffer, b.width, b.height, |b.buffer|);
    ColorTableFields(fh + ih, b.buffer);
  }

  /** The file header's fields survive whatever follows it. */
  lemma FileHeaderFields(fh: seq<byte>, ih: seq<byte>, ct: seq<byte>, rest: seq<byte>, imageSize: int)
    requires 0 <= imageSize && HeaderSize + imageSize <= Int32Max
    requires fh == FileHeader(imageSize)
    ensures FileHeaderAt(fh + ih + ct + rest, imageSize)
  {
    Append(fh, ih);
    Append(fh + ih, ct);
    Append(fh + ih + ct, rest);
  }

  /** The info header's fields land at offset 14. */
  lemma InfoHeaderFields(fh: seq<byte>, ih: seq<byte>, ct: seq<byte>, rest: seq<byte>, width: int, height: int, imageSize: int)
    requires |fh| == FileHeaderSize
    requires IsInt32(width) && IsInt32(height) && IsInt32(imageSize)
    requires ih == InfoHeader(width, height, imageSize)
    ensures InfoHeaderAt(fh + ih + ct + rest, width, height, imageSize)
  {
    Append(fh, ih);
    Append(fh + ih, ct);
    Append(fh + ih + ct, rest);
  }

  /** The colour table lands at offset 54. */
  lemma ColorTableFields(headers: seq<byte>, rest: seq<byte>)
    requires |headers| == FileHeaderSize + InfoHeaderSize
    ensures ColorTableAt(headers + ColorTable() + rest)
  {
    var file := headers + ColorTable() + rest;
    assert file[54..62] == ColorTable();
  }

  /** The sizes the header records fit its `Int32` fields. */
  lemma BufferFits(b: Bitmap)
    requires Valid(b)
    ensures 0 <= |b.buffer| && HeaderSize + |b.buffer| <= Int32Max
    ensures IsInt32(b.width) && IsInt32(b.height) && IsInt32(|b.buffer|)
  {
    MulMono(1, b.stride, b.height);
  }
}
