/**
 * Colours with three 8-bit channels (src/color.rs): 24-bit hex packing,
 * the saturating `+` operator, the clamping `* f32` operator, and the
 * inherent `add` / `+=`, whose `.min(255)` comes too late to prevent a `u8`
 * overflow.
 *
 * Bit operations on `u32` are written arithmetically: `h >> k` is
 * `h / 2^k`, `h & 0xFF` is `h % 0x100`, `x << k` is `x * 2^k`, and an `|` of
 * fields that occupy disjoint bits is their sum.
 */
module Colors {
  import opened Numeric
  import opened Wrappers
  import opened RowMajor

  /** Rust `u8`. */
  type u8 = x: int | 0 <= x < 0x100

  /** Rust `u32`. */
  type u32 = x: int | 0 <= x < 0x1_0000_0000

  datatype Color = Color(r: u8, g: u8, b: u8)

  /** `Color::new`. */
  function New(r: u8, g: u8, b: u8): (c: Color)
    ensures c.r == r && c.g == g && c.b == b
  {
    Color(r, g, b)
  }

  /** `Color::from_hex`: red from bits 16..24, green from 8..16, blue from 0..8. */
  function FromHex(hex: u32): (c: Color)
    ensures c.b == hex % 0x100
  {
    Color((hex / 0x1_0000) % 0x100, (hex / 0x100) % 0x100, hex % 0x100)
  }

  /** `Color::to_hex`: packs the channels as 0xRRGGBB. */
  function ToHex(c: Color): (h: u32)
    ensures h < 0x100_0000
    ensures h % 0x100 == c.b
  {
    c.r * 0x1_0000 + c.g * 0x100 + c.b
  }

  /** `Color::is_black`. */
  predicate IsBlack(c: Color)
  {
    c.r == 0 && c.g == 0 && c.b == 0
  }

  /** Every channel of `c` is at least the corresponding channel of `d`. */
  predicate Dominates(c: Color, d: Color)
  {
    c.r >= d.r && c.g >= d.g && c.b >= d.b
  }

  /**
   * Red sits in bits 16..24 and green in bits 8..16 of the packed value, in
   * both directions of the packing.
   */
  lemma HexChannelPositions(r: u8, g: u8)
    ensures ToHex(Color(r, 0, 0)) == r * 0x1_0000 && ToHex(Color(0, g, 0)) == g * 0x100
    ensures FromHex(r * 0x1_0000) == Color(r, 0, 0) && FromHex(g * 0x100) == Color(0, g, 0)
  {
    DivModOf(r * 0x1_0000, r, 0, 0x1_0000);
    DivModOf(r * 0x1_0000, r * 0x100, 0, 0x100);
    DivModOf(r, 0, r, 0x100);
    DivModOf(g * 0x100, g, 0, 0x100);
    DivModOf(g * 0x100, 0, g * 0x100, 0x1_0000);
    DivModOf(g, 0, g, 0x100);
  }

  /** `Color::black`. */
  function Black(): (c: Color)
    ensures IsBlack(c)
  {
    Color(0, 0, 0)
  }

  /** Unpacking a packed colour gives the colour back. */
  lemma FromHexToHex(c: Color)
    ensures FromHex(ToHex(c)) == c
  {
    var h := ToHex(c);
    assert h / 0x1_0000 == c.r;
    assert (h / 0x100) == c.r * 0x100 + c.g;
  }

  /** Packing an unpacked value keeps exactly its low 24 bits. */
  lemma ToHexFromHex(h: u32)
    ensures ToHex(FromHex(h)) == h % 0x100_0000
  {
    var c := FromHex(h);
    var q1, q2 := h / 0x100, h / 0x1_0000;
    DivModRecompose(h, 0x100);
    DivModRecompose(q1, 0x100);
    assert h == (q1 / 0x100) * 0x1_0000 + (c.g * 0x100 + c.b);
    DivModOf(h, q1 / 0x100, c.g * 0x100 + c.b, 0x1_0000);
    DivModRecompose(q2, 0x100);
    assert h == (q2 / 0x100) * 0x100_0000 + ToHex(c);
    DivModOf(h, q2 / 0x100, ToHex(c), 0x100_0000);
  }

  /** A colour is black exactly when it packs to zero. */
  lemma IsBlackIffZeroHex(c: Color)
    ensures IsBlack(c) <==> ToHex(c) == 0
  {
  }

  // ---------------------------------------------------------------------------
  // The `+` operator (`impl Add for Color`): per-channel `u8::saturating_add`.

  /** `u8::saturating_add`. */
  function SaturatingAdd(a: u8, b: u8): (r: u8)
  {
    if a + b > 0xFF then 0xFF else a + b
  }

  /**
   * Colour `+`: every channel is the exact sum when it fits in a byte and 255
   * otherwise, so a channel never wraps below either operand.
   */
  function Add(a: Color, b: Color): (c: Color)
    ensures a.r + b.r <= 0xFF ==> c.r == a.r + b.r
    ensures a.g + b.g <= 0xFF ==> c.g == a.g + b.g
    ensures a.b + b.b <= 0xFF ==> c.b == a.b + b.b
    ensures a.r + b.r > 0xFF ==> c.r == 0xFF
    ensures a.g + b.g > 0xFF ==> c.g == 0xFF
    ensures a.b + b.b > 0xFF ==> c.b == 0xFF
    ensures c.r >= a.r && c.r >= b.r && c.g >= a.g && c.g >= b.g && c.b >= a.b && c.b >= b.b
  {
    Color(SaturatingAdd(a.r, b.r), SaturatingAdd(a.g, b.g), SaturatingAdd(a.b, b.b))
  }

  lemma AddCommutative(a: Color, b: Color)
    ensures Add(a, b) == Add(b, a)
  {
  }

  lemma AddAssociative(a: Color, b: Color, c: Color)
    ensures Add(Add(a, b), c) == Add(a, Add(b, c))
  {
  }

  lemma AddBlackIdentity(c: Color)
    ensures Add(c, Black()) == c && Add(Black(), c) == c
  {
  }

  // ---------------------------------------------------------------------------
  // The `* f32` operator (`impl Mul<f32> for Color`).

  /** `n` is `x` clamped to [0, 255] and then truncated toward zero, as `as u8` does. */
  predicate ClampTruncates(n: u8, x: real)
  {
    n as real <= Clamp(x, 0.0, 255.0) < n as real + 1.0
  }

  /** `x as u8` for a float: clamped to [0, 255], then truncated. */
  function ToByte(x: real): (n: u8)
    ensures ClampTruncates(n, x)
  {
    Clamp(x, 0.0, 255.0).Floor
  }

  /** One channel of `Color * f32`: the product, cast to a byte. */
  function ScaleChannel(ch: u8, s: real): (r: u8)
    ensures ClampTruncates(r, ch as real * s)
  {
    ToByte(ch as real * s)
  }

  /**
   * Colour `* s`: every channel is the product clamped to [0, 255] and
   * truncated toward zero, so the result is a valid colour for every scalar.
   */
  function Scale(c: Color, s: real): (r: Color)
    ensures ClampTruncates(r.r, c.r as real * s)
    ensures ClampTruncates(r.g, c.g as real * s)
    ensures ClampTruncates(r.b, c.b as real * s)
  {
    ScaleChannelTruncates(c.r, s);
    ScaleChannelTruncates(c.g, s);
    ScaleChannelTruncates(c.b, s);
    Color(ScaleChannel(c.r, s), ScaleChannel(c.g, s), ScaleChannel(c.b, s))
  }

  /** `ScaleChannel`'s contract as a lemma, so that `Scale` can cite it per channel. */
  lemma ScaleChannelTruncates(ch: u8, s: real)
    ensures ClampTruncates(ScaleChannel(ch, s), ch as real * s)
  {
  }

  /** A non-positive scalar yields black. */
  lemma ScaleNonPositiveIsBlack(c: Color, s: real)
    requires s <= 0.0
    ensures Scale(c, s) == Black()
  {
    assert c.r as real * s <= 0.0 by { MulNonNegNonPos(c.r as real, s); }
    assert c.g as real * s <= 0.0 by { MulNonNegNonPos(c.g as real, s); }
    assert c.b as real * s <= 0.0 by { MulNonNegNonPos(c.b as real, s); }
  }

  lemma MulNonNegNonPos(a: real, s: real)
    requires a >= 0.0 && s <= 0.0
    ensures a * s <= 0.0
  {
  }

  /** Scaling by one is the identity. */
  lemma ScaleByOne(c: Color)
    ensures Scale(c, 1.0) == c
  {
  }

  /** A scalar in [0, 1] never brightens a channel. */
  lemma ScaleAtMostOneDarkens(c: Color, s: real)
    requires 0.0 <= s <= 1.0
    ensures Scale(c, s).r <= c.r && Scale(c, s).g <= c.g && Scale(c, s).b <= c.b
  {
    ScaleChannelAtMostOne(c.r, s);
    ScaleChannelAtMostOne(c.g, s);
    ScaleChannelAtMostOne(c.b, s);
  }

  lemma ScaleChannelAtMostOne(ch: u8, s: real)
    requires 0.0 <= s <= 1.0
    ensures ScaleChannel(ch, s) <= ch
  {
    var p := ch as real * s;
    assert 0.0 <= p <= ch as real by { MulAtMostOne(ch as real, s); }
    assert Clamp(p, 0.0, 255.0) == p;
    assert ScaleChannel(ch, s) as real <= ch as real;
  }

  lemma MulAtMostOne(a: real, s: real)
    requires a >= 0.0 && 0.0 <= s <= 1.0
    ensures 0.0 <= a * s <= a
  {
  }

  /** Black scales to black. */
  lemma ScaleBlack(s: real)
    ensures Scale(Black(), s) == Black()
  {
  }

  // ---------------------------------------------------------------------------
  // The inherent `add` and `AddAssign` (`+=`): `(a + b).min(255)` on `u8`.
  // The `.min(255)` runs after the `u8` addition, so it never takes effect:
  // a sum above 255 overflows (a panic in a debug build, wrap-around in a
  // release build).

  /**
   * The inherent `Color::add` and `+=` as written, in a debug build: `None`
   * stands for the overflow panic, which happens as soon as one channel sum
   * exceeds 255; otherwise the result is the exact channel-wise sum.
   */
  function AddInherent(a: Color, b: Color): (r: Option<Color>)
    ensures r.None? <==> (a.r + b.r > 0xFF || a.g + b.g > 0xFF || a.b + b.b > 0xFF)
    ensures r.Some? ==> r.value.r == a.r + b.r && r.value.g == a.g + b.g && r.value.b == a.b + b.b
  {
    if a.r + b.r > 0xFF || a.g + b.g > 0xFF || a.b + b.b > 0xFF then None
    else Some(Color(a.r + b.r, a.g + b.g, a.b + b.b))
  }

  /** The same expression in a release build: `u8` addition wraps modulo 256 before `.min(255)`. */
  function AddWrapping(a: Color, b: Color): (r: Color)
    ensures a.r + b.r <= 0xFF ==> r.r == a.r + b.r
    ensures a.r + b.r > 0xFF ==> r.r == a.r + b.r - 0x100
    ensures a.g + b.g <= 0xFF ==> r.g == a.g + b.g
    ensures a.g + b.g > 0xFF ==> r.g == a.g + b.g - 0x100
    ensures a.b + b.b <= 0xFF ==> r.b == a.b + b.b
    ensures a.b + b.b > 0xFF ==> r.b == a.b + b.b - 0x100
  {
    Color((a.r + b.r) % 0x100, (a.g + b.g) % 0x100, (a.b + b.b) % 0x100)
  }

  /** Where the inherent add is defined it agrees with the saturating `+`. */
  lemma AddInherentAgreesWithAdd(a: Color, b: Color)
    requires AddInherent(a, b).Some?
    ensures AddInherent(a, b).value == Add(a, b)
  {
  }

  /**
   * 200 + 100 on the red channel: the inherent add panics (debug) or yields
   * 44 (release), where the saturating `+` yields 255.
   */
  lemma AddInherentOverflows()
    ensures AddInherent(Color(200, 0, 0), Color(100, 0, 0)).None?
    ensures AddWrapping(Color(200, 0, 0), Color(100, 0, 0)) == Color(44, 0, 0)
    ensures Add(Color(200, 0, 0), Color(100, 0, 0)) == Color(255, 0, 0)
  {
  }
}
