/**
 * Textures (src/texture.rs): a decoded image copied into a row-major colour
 * grid, looked up by pixel coordinate with an out-of-range sentinel, or by
 * normalised (u, v) with clamping and a vertical flip.
 */
module Textures {
  import opened Colors
  import opened Numeric
  import opened RowMajor

  /** A decoded pixel, `get_pixel(x, y).to_rgb()`. */
  datatype Rgb = Rgb(r: u8, g: u8, b: u8)

  /**
   * The image as the external decoder exposes it: its dimensions and its
   * pixel accessor.  Opening and decoding the file is not modelled.
   */
  datatype Image = Image(width: nat, height: nat, pixel: (nat, nat) -> Rgb)

  /** `Texture`, without the decoded image it keeps alongside the grid. */
  datatype Texture = Texture(width: nat, height: nat, colors: seq<Color>) {
    /** The grid has one cell per pixel, as `vec![..; width * height]` allocates. */
    predicate Valid()
    {
      |colors| == width * height
    }
  }

  /** The out-of-range sentinel, `Color::from_hex(0xFF00FF)`. */
  const Magenta: Color := FromHex(0xFF00FF)

  lemma MagentaChannels()
    ensures Magenta == Color(255, 0, 255)
  {
  }

  /**
   * The colour `load_color_array` stores for a decoded pixel: the channels
   * packed as 0xRRGGBB and unpacked again with `from_hex`, which gives back
   * the pixel's own red, green and blue.
   */
  function PixelColor(p: Rgb): (c: Color)
    ensures c.r == p.r && c.g == p.g && c.b == p.b
  {
    FromHexToHex(Color(p.r, p.g, p.b));
    FromHex(ToHex(Color(p.r, p.g, p.b)))
  }

  /** Every cell whose column is below `columns` holds its pixel's colour. */
  predicate ColumnsLoaded(img: Image, colors: seq<Color>, columns: nat)
    requires img.width > 0
  {
    forall k | 0 <= k < |colors| && k % img.width < columns ::
      colors[k] == PixelColor(img.pixel(k % img.width, k / img.width))
  }

  /**
   * `Texture::new` after decoding: a grid of `width * height` black cells,
   * filled by `load_color_array` column by column, each cell `y * width + x`
   * receiving pixel (x, y).
   */
  method New(img: Image) returns (t: Texture)
    ensures t.Valid() && t.width == img.width && t.height == img.height
    ensures forall x: nat, y: nat | x < img.width && y < img.height :: GetColor(t, x, y) == PixelColor(img.pixel(x, y))
  {
    var w, h := img.width, img.height;
    var colors := seq(w * h, _ => Black());
    for x := 0 to w
      invariant |colors| == w * h
      invariant w > 0 ==> ColumnsLoaded(img, colors, x)
    {
      colors := LoadColumn(img, colors, x);
    }
    t := Texture(w, h, colors);
    forall x: nat, y: nat | x < w && y < h
      ensures GetColor(t, x, y) == PixelColor(img.pixel(x, y))
    {
      CellInRange(x, y, w, h);
      DivModOf(y * w + x, y, x, w);
    }
  }

  /** Columns below x are loaded, and so are rows 0 to y-1 of column x. */
  predicate PartlyLoaded(img: Image, colors: seq<Color>, x: nat, y: nat)
    requires img.width > 0
  {
    forall k | 0 <= k < |colors| && (k % img.width < x || (k % img.width == x && k / img.width < y)) ::
      colors[k] == PixelColor(img.pixel(k % img.width, k / img.width))
  }

  /** Writing cell (x, y) extends the loaded region by one row of column x. */
  lemma LoadCellStep(img: Image, before: seq<Color>, x: nat, y: nat)
    requires |before| == img.width * img.height && x < img.width && y < img.height
    requires PartlyLoaded(img, before, x, y)
    ensures y * img.width + x < |before|
    ensures PartlyLoaded(img, before[y * img.width + x := PixelColor(img.pixel(x, y))], x, y + 1)
  {
    var w, h := img.width, img.height;
    CellInRange(x, y, w, h);
    DivModOf(y * w + x, y, x, w);
    var after := before[y * w + x := PixelColor(img.pixel(x, y))];
    forall k | 0 <= k < |after| && (k % w < x || (k % w == x && k / w < y + 1))
      ensures after[k] == PixelColor(img.pixel(k % w, k / w))
    {
      var col, row := k % w, k / w;
      if k != y * w + x {
        DivModRecompose(k, w);
        assert col == x && row == y ==> k == y * w + x;
        assert after[k] == before[k];
      }
    }
  }

  /** Once every row of column x is written, columns 0 to x are loaded. */
  lemma ColumnComplete(img: Image, colors: seq<Color>, x: nat)
    requires |colors| == img.width * img.height && x < img.width
    requires PartlyLoaded(img, colors, x, img.height)
    ensures ColumnsLoaded(img, colors, x + 1)
  {
    var w, h := img.width, img.height;
    forall k | 0 <= k < |colors| && k % w == x
      ensures k / w < h
    {
      DivBelow(k, w, h);
    }
  }

  /** The inner loop of `load_color_array`: column x, rows 0 to height-1. */
  method LoadColumn(img: Image, colors: seq<Color>, x: nat) returns (colors': seq<Color>)
    requires |colors| == img.width * img.height && x < img.width
    requires ColumnsLoaded(img, colors, x)
    ensures |colors'| == |colors|
    ensures ColumnsLoaded(img, colors', x + 1)
  {
    var w, h := img.width, img.height;
    colors' := colors;
    for y := 0 to h
      invariant |colors'| == w * h
      invariant PartlyLoaded(img, colors', x, y)
    {
      LoadCellStep(img, colors', x, y);
      colors' := colors'[y * w + x := PixelColor(img.pixel(x, y))];
    }
    ColumnComplete(img, colors', x);
  }

  /**
   * `get_color(x, y)`: the sentinel magenta when x or y is out of range,
   * otherwise cell `y * width + x`, which lies inside the grid.
   */
  function GetColor(t: Texture, x: nat, y: nat): (c: Color)
    requires t.Valid()
    ensures x >= t.width || y >= t.height ==> c == Magenta
    ensures x < t.width && y < t.height ==> y * t.width + x < |t.colors| && c == t.colors[y * t.width + x]
  {
    if x >= t.width || y >= t.height then Magenta
    else
      CellInRange(x, y, t.width, t.height);
      t.colors[y * t.width + x]
  }

  /** Different in-range pixels read different cells: the layout is one-to-one. */
  lemma GetColorCellsDistinct(t: Texture, x: nat, y: nat, x': nat, y': nat)
    requires t.Valid()
    requires x < t.width && y < t.height && x' < t.width && y' < t.height
    requires (x, y) != (x', y')
    ensures y * t.width + x != y' * t.width + x'
  {
    if y * t.width + x == y' * t.width + x' {
      CellInjective(x, y, x', y', t.width);
    }
  }

  /**
   * The pixel `get_color_uv` reads: u and v clamped to [0, 1], then
   * `x = (u * width) as usize` and `y = ((1 - v) * height) as usize`.
   */
  function UvPixel(width: nat, height: nat, u: real, v: real): (p: (nat, nat))
    ensures p.0 <= width && p.1 <= height
  {
    var u' := Clamp(u, 0.0, 1.0);
    var v' := Clamp(v, 0.0, 1.0);
    ScaleFloorAtMost(u', width);
    ScaleFloorAtMost(1.0 - v', height);
    (AsUsize(u' * width as real), AsUsize((1.0 - v') * height as real))
  }

  lemma ScaleFloorAtMost(s: real, n: nat)
    requires 0.0 <= s <= 1.0
    ensures AsUsize(s * n as real) <= n
  {
    assert s * n as real <= n as real;
  }

  /**
   * `get_color_uv(u, v)`: a cell of the grid or the sentinel, and the
   * sentinel whenever u >= 1 or v <= 0.
   */
  function GetColorUv(t: Texture, u: real, v: real): (c: Color)
    requires t.Valid()
    ensures c == Magenta || c in t.colors
    ensures u >= 1.0 || v <= 0.0 ==> c == Magenta
  {
    UvPixelRange(t.width, t.height, u, v);
    var p := UvPixel(t.width, t.height, u, v);
    GetColor(t, p.0, p.1)
  }

  /**
   * The (u, v) lookup reads a texel exactly when the clamped u is below 1 and
   * the clamped v is above 0 (and the texture is not empty); v = 1 reads
   * row 0.  Otherwise it reads column `width` or row `height` and yields the
   * sentinel.
   */
  lemma UvPixelRange(width: nat, height: nat, u: real, v: real)
    ensures var p := UvPixel(width, height, u, v);
      && (p.0 < width <==> width > 0 && Clamp(u, 0.0, 1.0) < 1.0)
      && (p.1 < height <==> height > 0 && Clamp(v, 0.0, 1.0) > 0.0)
      && (v >= 1.0 ==> p.1 == 0)
      && (u <= 0.0 ==> p.0 == 0)
  {
    var u' := Clamp(u, 0.0, 1.0);
    var v' := Clamp(v, 0.0, 1.0);
    FloorBelow(u', width);
    FloorBelow(1.0 - v', height);
  }

  lemma FloorBelow(s: real, n: nat)
    requires 0.0 <= s <= 1.0
    ensures AsUsize(s * n as real) < n <==> n > 0 && s < 1.0
  {
    if n > 0 && s < 1.0 {
      assert s * n as real < n as real;
    }
    if s == 1.0 {
      assert s * n as real == n as real;
    }
  }

  /** u = 1 and v = 0 both yield the sentinel rather than an edge texel. */
  lemma GetColorUvEdgesAreSentinel(t: Texture, u: real, v: real)
    requires t.Valid()
    requires u >= 1.0 || v <= 0.0
    ensures GetColorUv(t, u, v) == Magenta
  {
    UvPixelRange(t.width, t.height, u, v);
  }

  /**
   * A one-pixel black texture shows the sentinel at u = 1 although (1, 0.5)
   * lies on the texture's edge.
   */
  lemma GetColorUvEdgeCounterexample()
    ensures GetColorUv(Texture(1, 1, [Black()]), 1.0, 0.5) == Magenta != Black()
  {
    GetColorUvEdgesAreSentinel(Texture(1, 1, [Black()]), 1.0, 0.5);
  }

  /**
   * The lookup with the evidently intended edge handling: the pixel from the
   * same mapping, limited to the last column and the last row.
   */
  function GetColorUvClamped(t: Texture, u: real, v: real): (c: Color)
    requires t.Valid() && t.width > 0 && t.height > 0
    ensures c in t.colors
  {
    var p := UvPixel(t.width, t.height, u, v);
    var x := if p.0 < t.width then p.0 else t.width - 1;
    var y := if p.1 < t.height then p.1 else t.height - 1;
    GetColor(t, x, y)
  }

  /** The corrected lookup reads the edge texels at u = 1 and v = 0, and row 0 at v = 1. */
  lemma GetColorUvClampedEdges(t: Texture, u: real, v: real)
    requires t.Valid() && t.width > 0 && t.height > 0
    ensures u >= 1.0 && v >= 1.0 ==> GetColorUvClamped(t, u, v) == GetColor(t, t.width - 1, 0)
    ensures u <= 0.0 && v <= 0.0 ==> GetColorUvClamped(t, u, v) == GetColor(t, 0, t.height - 1)
    ensures GetColorUvClamped(t, u, v) != Magenta || Magenta in t.colors
  {
    UvPixelRange(t.width, t.height, u, v);
  }
}
