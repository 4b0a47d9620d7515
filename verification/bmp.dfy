/**
 * The BMP writer (src/bmp.rs) as a pure producer of bytes: a 14-byte file
 * header and a 40-byte BITMAPINFOHEADER, all fields little-endian, followed
 * by the pixel rows bottom-up, each pixel a B, G, R triple, with no padding
 * at the end of a row.
 */
module Bmp {
  import opened Colors
  import opened Wrappers
  import opened RowMajor

  type byte = x: int | 0 <= x < 0x100

  const HeaderSize: nat := 54
  const PixelOffset: nat := 54
  const BitsPerPixel: nat := 24
  const DibHeaderSize: nat := 40
  const Two32: nat := 0x1_0000_0000

  // ---------------------------------------------------------------------------
  // Little-endian fields.

  /** `(v as u32).to_le_bytes()`: the value modulo 2^32, least significant byte first. */
  function LeU32(v: nat): (bs: seq<byte>)
    ensures |bs| == 4
  {
    var w := v % Two32;
    [w % 0x100, (w / 0x100) % 0x100, (w / 0x1_0000) % 0x100, w / 0x100_0000]
  }

  /** `(v as u16).to_le_bytes()`: the value modulo 2^16, least significant byte first. */
  function LeU16(v: nat): (bs: seq<byte>)
    ensures |bs| == 2
    ensures DecodeLe(bs) == v % 0x1_0000
  {
    var w := v % 0x1_0000;
    assert w == w % 0x100 + 0x100 * (w / 0x100);
    DecodeLe2([w % 0x100, w / 0x100]);
    [w % 0x100, w / 0x100]
  }

  lemma DecodeLe2(bs: seq<byte>)
    requires |bs| == 2
    ensures DecodeLe(bs) == bs[0] as int + 0x100 * bs[1] as int
  {
    var t1 := bs[1..];
    assert t1[1..] == [];
    assert DecodeLe(t1) == t1[0] as int;
  }

  /** The reader's side: the number a little-endian byte string denotes. */
  function DecodeLe(bs: seq<byte>): nat
  {
    if |bs| == 0 then 0 else bs[0] + 0x100 * DecodeLe(bs[1..])
  }

  lemma DecodeLe4(bs: seq<byte>)
    requires |bs| == 4
    ensures DecodeLe(bs) == bs[0] as int + 0x100 * bs[1] as int + 0x1_0000 * bs[2] as int + 0x100_0000 * bs[3] as int
  {
    var t1 := bs[1..];
    var t2 := t1[1..];
    var t3 := t2[1..];
    assert t3[1..] == [];
    assert DecodeLe(t3) == t3[0] as int;
    assert DecodeLe(t2) == t2[0] as int + 0x100 * DecodeLe(t3);
    assert DecodeLe(t1) == t1[0] as int + 0x100 * DecodeLe(t2);
  }

  lemma DecodeLeU32(v: nat)
    ensures DecodeLe(LeU32(v)) == v % Two32
  {
    var w := v % Two32;
    var q1 := w / 0x100;
    var q2 := q1 / 0x100;
    assert q2 == w / 0x1_0000;
    assert q2 / 0x100 == w / 0x100_0000;
    assert w == w % 0x100 + 0x100 * q1;
    assert q1 == q1 % 0x100 + 0x100 * q2;
    assert q2 == q2 % 0x100 + 0x100 * (q2 / 0x100);
    DecodeLe4(LeU32(v));
  }

  // ---------------------------------------------------------------------------
  // The header (`write_bmp_header`).

  /** BITMAPFILEHEADER: signature "BM", file size, reserved, pixel offset. */
  function FileHeader(fileSize: nat): (bs: seq<byte>)
    ensures |bs| == 14
  {
    [0x42, 0x4D] + LeU32(fileSize) + LeU32(0) + LeU32(PixelOffset)
  }

  /** First half of BITMAPINFOHEADER: size 40, width, height, 1 plane, 24 bits per pixel. */
  function InfoGeometry(width: nat, height: nat): (bs: seq<byte>)
    ensures |bs| == 16
  {
    LeU32(DibHeaderSize) + LeU32(width) + LeU32(height) + LeU16(1) + LeU16(BitsPerPixel)
  }

  /** Second half: no compression, the image size, zero resolution, zero palette counts. */
  function InfoSizes(imageSize: nat): (bs: seq<byte>)
    ensures |bs| == 24
  {
    LeU32(0) + LeU32(imageSize) + LeU32(0) + LeU32(0) + LeU32(0) + LeU32(0)
  }

  /**
   * `write_bmp_header(width, height)`: the file size is computed as
   * `54 + width * height * 3` and the image size as `width * height * 3`,
   * both cast `as u32`.
   */
  function Header(width: nat, height: nat): (bs: seq<byte>)
    ensures |bs| == HeaderSize
    ensures bs[0] == 'B' as int && bs[1] == 'M' as int
  {
    var imageSize := width * height * 3;
    FileHeader(HeaderSize + imageSize) + InfoGeometry(width, height) + InfoSizes(imageSize)
  }

  /** The fields a reader recovers from the 14-byte file header. */
  datatype FileFields = FileFields(fileSize: nat, reserved: nat, pixelOffset: nat)

  /** The fields a reader recovers from the first 16 bytes of the info header. */
  datatype GeometryFields = GeometryFields(dibSize: nat, width: nat, height: nat, planes: nat, bitsPerPixel: nat)

  /** The fields a reader recovers from the last 24 bytes of the info header. */
  datatype SizeFields = SizeFields(
    compression: nat, imageSize: nat, xPpm: nat, yPpm: nat, totalColors: nat, importantColors: nat)

  datatype HeaderInfo = HeaderInfo(file: FileFields, geometry: GeometryFields, sizes: SizeFields)

  function ParseFileFields(f: seq<byte>): FileFields
    requires |f| == 14
  {
    FileFields(DecodeLe(f[2..6]), DecodeLe(f[6..10]), DecodeLe(f[10..14]))
  }

  function ParseGeometryFields(g: seq<byte>): GeometryFields
    requires |g| == 16
  {
    GeometryFields(DecodeLe(g[0..4]), DecodeLe(g[4..8]), DecodeLe(g[8..12]), DecodeLe(g[12..14]), DecodeLe(g[14..16]))
  }

  function ParseSizeFields(z: seq<byte>): SizeFields
    requires |z| == 24
  {
    SizeFields(DecodeLe(z[0..4]), DecodeLe(z[4..8]), DecodeLe(z[8..12]),
               DecodeLe(z[12..16]), DecodeLe(z[16..20]), DecodeLe(z[20..24]))
  }

  /** A reader of the header: `None` unless there are 54 bytes starting with "BM". */
  function ParseHeader(bs: seq<byte>): (r: Option<HeaderInfo>)
    ensures r.Some? <==> |bs| >= HeaderSize && bs[0] == 0x42 && bs[1] == 0x4D
  {
    if |bs| < HeaderSize || bs[0] != 0x42 || bs[1] != 0x4D then None
    else Some(HeaderInfo(ParseFileFields(bs[..14]), ParseGeometryFields(bs[14..30]), ParseSizeFields(bs[30..HeaderSize])))
  }

  lemma ParseFileHeader(fileSize: nat)
    ensures ParseFileFields(FileHeader(fileSize)) == FileFields(fileSize % Two32, 0, PixelOffset)
  {
    var f := FileHeader(fileSize);
    assert f[2..6] == LeU32(fileSize);
    assert f[6..10] == LeU32(0);
    assert f[10..14] == LeU32(PixelOffset);
    DecodeLeU32(fileSize);
    DecodeLeU32(0);
    DecodeLeU32(PixelOffset);
  }

  lemma ParseInfoGeometry(width: nat, height: nat)
    ensures ParseGeometryFields(InfoGeometry(width, height))
         == GeometryFields(DibHeaderSize, width % Two32, height % Two32, 1, BitsPerPixel)
  {
    var g := InfoGeometry(width, height);
    assert g[0..4] == LeU32(DibHeaderSize);
    assert g[4..8] == LeU32(width);
    assert g[8..12] == LeU32(height);
    assert g[12..14] == LeU16(1);
    assert g[14..16] == LeU16(BitsPerPixel);
    DecodeLeU32(DibHeaderSize);
    DecodeLeU32(width);
    DecodeLeU32(height);
  }

  lemma ParseInfoSizes(imageSize: nat)
    ensures ParseSizeFields(InfoSizes(imageSize)) == SizeFields(0, imageSize % Two32, 0, 0, 0, 0)
  {
    var z := InfoSizes(imageSize);
    var zero := LeU32(0);
    assert zero == [0, 0, 0, 0];
    var tail := zero + zero + zero + zero;
    assert z == zero + LeU32(imageSize) + tail;
    assert z[0..4] == zero;
    assert z[4..8] == LeU32(imageSize);
    assert z[8..12] == tail[0..4] == zero;
    assert z[12..16] == tail[4..8] == zero;
    assert z[16..20] == tail[8..12] == zero;
    assert z[20..24] == tail[12..16] == zero;
    DecodeLeU32(0);
    DecodeLeU32(imageSize);
  }

  /**
   * Reading back a written header yields every field: the sizes and the
   * dimensions reduced modulo 2^32 by the `as u32` casts, pixel offset 54,
   * DIB size 40, one plane, 24 bits per pixel and zeros elsewhere.
   */
  lemma ParseHeaderOfHeader(width: nat, height: nat)
    ensures ParseHeader(Header(width, height)) == Some(HeaderInfo(
      FileFields((HeaderSize + width * height * 3) % Two32, 0, PixelOffset),
      GeometryFields(DibHeaderSize, width % Two32, height % Two32, 1, BitsPerPixel),
      SizeFields(0, (width * height * 3) % Two32, 0, 0, 0, 0)))
  {
    var size := width * height * 3;
    var bs := Header(width, height);
    assert bs[..14] == FileHeader(HeaderSize + size);
    assert bs[14..30] == InfoGeometry(width, height);
    assert bs[30..HeaderSize] == InfoSizes(size);
    ParseFileHeader(HeaderSize + size);
    ParseInfoGeometry(width, height);
    ParseInfoSizes(size);
  }

  /**
   * For dimensions below 2^32 and a file that fits in 2^32 bytes, the header
   * round-trips the width, the height and the pixel-data size, and the file
   * size is the pixel-data size plus 54.
   */
  lemma HeaderRoundTrip(width: nat, height: nat)
    requires width < Two32 && height < Two32
    requires HeaderSize + width * height * 3 < Two32
    ensures var r := ParseHeader(Header(width, height));
      && r.Some?
      && r.value.geometry.width == width
      && r.value.geometry.height == height
      && r.value.sizes.imageSize == width * height * 3
      && r.value.file.fileSize == r.value.sizes.imageSize + HeaderSize
  {
    var size := width * height * 3;
    ParseHeaderOfHeader(width, height);
    ModSmall(size);
    ModSmall(HeaderSize + size);
    ModSmall(width);
    ModSmall(height);
  }

  lemma ModSmall(x: nat)
    requires x < Two32
    ensures x % Two32 == x
  {
  }

  // ---------------------------------------------------------------------------
  // The pixel rows (`write_pixel_data`).

  /**
   * One framebuffer pixel as written: `[b, g, r]`, the channels unpacked as
   * `Color::from_hex` does.  Read back little-endian, the three bytes are the
   * pixel's low 24 bits: blue is the least significant byte.
   */
  function Bgr(p: u32): (bs: seq<byte>)
    ensures |bs| == 3
    ensures DecodeLe(bs) == p % 0x100_0000
  {
    var c := FromHex(p);
    ToHexFromHex(p);
    DecodeLe3([c.b, c.g, c.r]);
    [c.b, c.g, c.r]
  }

  lemma DecodeLe3(bs: seq<byte>)
    requires |bs| == 3
    ensures DecodeLe(bs) == bs[0] as int + 0x100 * bs[1] as int + 0x1_0000 * bs[2] as int
  {
    var t1 := bs[1..];
    var t2 := t1[1..];
    assert t2[1..] == [];
    assert DecodeLe(t2) == t2[0] as int;
    assert DecodeLe(t1) == t1[0] as int + 0x100 * DecodeLe(t2);
  }

  /** Pixels 0 .. n-1 of framebuffer row y, left to right: the inner `for x in 0..width`. */
  function RowBytes(buffer: seq<u32>, width: nat, y: nat, n: nat): (bs: seq<byte>)
    requires n <= width && y * width + width <= |buffer|
    ensures |bs| == 3 * n
  {
    if n == 0 then [] else RowBytes(buffer, width, y, n - 1) + Bgr(buffer[y * width + n - 1])
  }

  /** Framebuffer rows height-1 down to height-n: the outer `for y in (0..height).rev()`. */
  function RowsBytes(buffer: seq<u32>, width: nat, height: nat, n: nat): (bs: seq<byte>)
    requires n <= height && width * height <= |buffer|
    ensures |bs| == 3 * (width * n)
  {
    if n == 0 then []
    else
      RowFits(height - n, width, height);
      RowsSucc(width, n);
      RowsBytes(buffer, width, height, n - 1) + RowBytes(buffer, width, height - n, width)
  }

  /**
   * `write_pixel_data(buffer, width, height)`.  The buffer must hold at least
   * `width * height` pixels: a shorter one makes the indexing panic.
   */
  function PixelData(buffer: seq<u32>, width: nat, height: nat): (bs: seq<byte>)
    requires width * height <= |buffer|
    ensures |bs| == 3 * (width * height)
  {
    RowsBytes(buffer, width, height, height)
  }

  /** `write_bmp_file` without the file: the header followed by the pixel rows. */
  function BmpFile(buffer: seq<u32>, width: nat, height: nat): (f: seq<byte>)
    requires width * height <= |buffer|
    ensures |f| == HeaderSize + 3 * (width * height)
    ensures f[..HeaderSize] == Header(width, height)
    ensures f[HeaderSize..] == PixelData(buffer, width, height)
  {
    Header(width, height) + PixelData(buffer, width, height)
  }

  /** The framebuffer index written as output triple k: rows bottom-up, each left to right. */
  function SourceIndex(k: nat, width: nat, height: nat): (i: nat)
    requires k < width * height
    ensures i < width * height
  {
    DivBelow(k, width, height);
    RowFits(height - 1 - k / width, width, height);
    (height - 1 - k / width) * width + k % width
  }

  /**
   * The pixel section is exactly three bytes per pixel with no row padding,
   * and triple k holds the blue, green and red bytes of framebuffer pixel
   * `(height-1-k/width)*width + k%width`.
   */
  lemma PixelDataLayout(buffer: seq<u32>, width: nat, height: nat)
    requires width * height <= |buffer|
    ensures |PixelData(buffer, width, height)| == 3 * (width * height)
    ensures forall k, c | 0 <= k < width * height && 0 <= c < 3 ::
      PixelData(buffer, width, height)[3 * k + c] == Bgr(buffer[SourceIndex(k, width, height)])[c]
  {
    forall k, c | 0 <= k < width * height && 0 <= c < 3
      ensures PixelData(buffer, width, height)[3 * k + c] == Bgr(buffer[SourceIndex(k, width, height)])[c]
    {
      RowsBytesAt(buffer, width, height, height, k, c);
    }
  }

  /** The whole file is the 54 header bytes followed by three bytes per pixel, and its size field says so. */
  lemma BmpFileSize(buffer: seq<u32>, width: nat, height: nat)
    requires width * height <= |buffer|
    requires width < Two32 && height < Two32
    requires HeaderSize + width * height * 3 < Two32
    ensures |BmpFile(buffer, width, height)| == HeaderSize + 3 * (width * height)
    ensures BmpFile(buffer, width, height)[..HeaderSize] == Header(width, height)
    ensures ParseHeader(BmpFile(buffer, width, height)).Some?
    ensures ParseHeader(BmpFile(buffer, width, height)).value.file.fileSize == |BmpFile(buffer, width, height)|
  {
    var f := BmpFile(buffer, width, height);
    var hd := Header(width, height);
    var px := PixelData(buffer, width, height);
    assert f == hd + px;
    assert |px| == 3 * (width * height);
    assert f[..HeaderSize] == hd;
    ParseHeaderPrefix(f);
    HeaderRoundTrip(width, height);
    assert 3 * (width * height) == width * height * 3;
  }

  /** Only the first 54 bytes matter to the header reader. */
  lemma ParseHeaderPrefix(bs: seq<byte>)
    requires |bs| >= HeaderSize
    ensures ParseHeader(bs) == ParseHeader(bs[..HeaderSize])
  {
    var h := bs[..HeaderSize];
    assert h[..14] == bs[..14];
    assert h[14..30] == bs[14..30];
    assert h[30..HeaderSize] == bs[30..HeaderSize];
  }

  lemma {:induction false} RowBytesAt(buffer: seq<u32>, width: nat, y: nat, n: nat, x: nat, c: nat)
    requires n <= width && y * width + width <= |buffer|
    requires x < n && c < 3
    ensures RowBytes(buffer, width, y, n)[3 * x + c] == Bgr(buffer[y * width + x])[c]
  {
    if x < n - 1 {
      RowBytesAt(buffer, width, y, n - 1, x, c);
    }
  }

  lemma {:induction false} RowsBytesAt(buffer: seq<u32>, width: nat, height: nat, n: nat, k: nat, c: nat)
    requires n <= height && width * height <= |buffer|
    requires k < width * n && c < 3
    ensures k < width * height
    ensures RowsBytes(buffer, width, height, n)[3 * k + c] == Bgr(buffer[SourceIndex(k, width, height)])[c]
  {
    MulMonotone(n, height, width);
    var y := height - n;
    RowFits(y, width, height);
    var before := width * (n - 1);
    assert width * n == before + width;
    var prefix := RowsBytes(buffer, width, height, n - 1);
    var row := RowBytes(buffer, width, y, width);
    assert |prefix| == 3 * before;
    assert RowsBytes(buffer, width, height, n) == prefix + row;
    if k < before {
      RowsBytesAt(buffer, width, height, n - 1, k, c);
      assert 3 * k + c < |prefix|;
    } else {
      var x := k - before;
      assert k == (n - 1) * width + x;
      DivModOf(k, n - 1, x, width);
      assert 3 * k + c == |prefix| + (3 * x + c);
      RowBytesAt(buffer, width, y, width, x, c);
      assert SourceIndex(k, width, height) == y * width + x;
    }
  }
}
