/**
 * Materials (src/material.rs): the surface description an object carries,
 * and the choice between its flat diffuse colour and a texel of its texture.
 */
module Materials {
  import opened Colors
  import opened Numeric
  import opened Wrappers
  import opened Textures
  import RowMajor

  /**
   * The four weights of `albedo: [f32; 4]`, named by the role `cast_ray`
   * gives each: index 0 scales the diffuse term, 1 the specular term,
   * 2 the reflected ray and 3 the refracted ray.
   */
  datatype Albedo = Albedo(diffuse: real, specular: real, reflectivity: real, transparency: real)

  /** `Material`; the shared `Arc<Texture>` is the texture value itself. */
  datatype Material = Material(
    diffuse: Color,
    specular: real,
    albedo: Albedo,
    refractiveIndex: real,
    hasTexture: bool,
    texture: Option<Texture>)
  {
    /** A texture, when present, has one cell per pixel. */
    predicate Valid()
    {
      texture.Some? ==> texture.value.Valid()
    }
  }

  /** `Material::new`: the given fields and no texture. */
  function New(diffuse: Color, specular: real, albedo: Albedo, refractiveIndex: real): (m: Material)
    ensures m.Valid()
    ensures !m.hasTexture && m.texture == None
    ensures m.diffuse == diffuse && m.specular == specular
    ensures m.albedo == albedo && m.refractiveIndex == refractiveIndex
  {
    Material(diffuse, specular, albedo, refractiveIndex, false, None)
  }

  /**
   * `Material::new_with_texture`: the given fields, the texture switched on,
   * and white as the (unused) flat colour.
   */
  function NewWithTexture(specular: real, albedo: Albedo, refractiveIndex: real, texture: Texture): (m: Material)
    requires texture.Valid()
    ensures m.Valid()
    ensures m.hasTexture && m.texture == Some(texture)
    ensures m.diffuse == Color(255, 255, 255)
    ensures m.specular == specular && m.albedo == albedo && m.refractiveIndex == refractiveIndex
  {
    Material(Color(255, 255, 255), specular, albedo, refractiveIndex, true, Some(texture))
  }

  /** `Material::black`: every field zero, no texture. */
  function Black(): (m: Material)
    ensures m.Valid()
    ensures IsBlack(m.diffuse) && m.specular == 0.0
    ensures m.albedo == Albedo(0.0, 0.0, 0.0, 0.0) && m.refractiveIndex == 0.0
    ensures !m.hasTexture && m.texture == None
  {
    Material(Color(0, 0, 0), 0.0, Albedo(0.0, 0.0, 0.0, 0.0), 0.0, false, None)
  }

  /**
   * The pixel a textured material reads at (u, v):
   * `x = (u * (width - 1)) as usize`, `y = ((1 - v) * (height - 1)) as usize`.
   * Unlike `get_color_uv`, neither coordinate is clamped first.
   */
  function TexelCoords(t: Texture, u: real, v: real): (p: (nat, nat))
    ensures 0.0 <= u <= 1.0 && t.width >= 1 ==> p.0 <= t.width - 1
    ensures 0.0 <= v <= 1.0 && t.height >= 1 ==> p.1 <= t.height - 1
  {
    ScaledIndexBound(u, t.width);
    ScaledIndexBound(1.0 - v, t.height);
    (AsUsize(u * (t.width as real - 1.0)), AsUsize((1.0 - v) * (t.height as real - 1.0)))
  }

  /**
   * In a non-empty texture, column 0 is read for any u <= 0 and, when the
   * texture is one pixel wide, for every u; likewise row 0 for v >= 1 or a
   * texture one pixel high.
   */
  lemma TexelCoordsLowEdges(t: Texture, u: real, v: real)
    ensures t.width >= 1 && (u <= 0.0 || t.width == 1) ==> TexelCoords(t, u, v).0 == 0
    ensures t.height >= 1 && (v >= 1.0 || t.height == 1) ==> TexelCoords(t, u, v).1 == 0
  {
    if t.width >= 1 && (u <= 0.0 || t.width == 1) {
      NonPosProduct(u, t.width as real - 1.0);
    }
    if t.height >= 1 && (v >= 1.0 || t.height == 1) {
      NonPosProduct(1.0 - v, t.height as real - 1.0);
    }
  }

  lemma NonPosProduct(a: real, b: real)
    requires (a <= 0.0 && b >= 0.0) || b == 0.0
    ensures a * b <= 0.0
  {
  }

  /**
   * `get_diffuse_color(u, v)`: the texel at `TexelCoords` when the material
   * is textured and holds a texture, the flat diffuse colour otherwise.
   */
  function GetDiffuseColor(m: Material, u: real, v: real): (c: Color)
    requires m.Valid()
    ensures !m.hasTexture || m.texture.None? ==> c == m.diffuse
  {
    if m.hasTexture && m.texture.Some? then
      var p := TexelCoords(m.texture.value, u, v);
      GetColor(m.texture.value, p.0, p.1)
    else
      m.diffuse
  }

  /** An untextured material shows its flat colour at every (u, v). */
  lemma NewIgnoresUv(diffuse: Color, specular: real, albedo: Albedo, refractiveIndex: real, u: real, v: real)
    ensures GetDiffuseColor(New(diffuse, specular, albedo, refractiveIndex), u, v) == diffuse
  {
  }

  /** The black material is black at every (u, v). */
  lemma BlackIsBlackEverywhere(u: real, v: real)
    ensures IsBlack(GetDiffuseColor(Black(), u, v))
  {
  }

  /**
   * For u and v in [0, 1] and a non-empty texture, the scaled coordinates
   * stay within the last column and row, so a textured material always shows
   * one of the texture's own cells, never the out-of-range sentinel path.
   */
  lemma TexelCoordsInRange(t: Texture, u: real, v: real)
    requires 0.0 <= u <= 1.0 && 0.0 <= v <= 1.0
    requires t.width >= 1 && t.height >= 1
    ensures TexelCoords(t, u, v).0 <= t.width - 1
    ensures TexelCoords(t, u, v).1 <= t.height - 1
  {
    ScaledIndexInRange(u, t.width);
    ScaledIndexInRange(1.0 - v, t.height);
  }

  /** `ScaledIndexInRange` with its hypotheses as a premise. */
  lemma ScaledIndexBound(s: real, n: nat)
    ensures 0.0 <= s <= 1.0 && n >= 1 ==> AsUsize(s * (n as real - 1.0)) <= n - 1
  {
    if 0.0 <= s <= 1.0 && n >= 1 {
      ScaledIndexInRange(s, n);
    }
  }

  /** A fraction in [0, 1] of n - 1, cast to `usize`, is at most n - 1. */
  lemma ScaledIndexInRange(s: real, n: nat)
    requires 0.0 <= s <= 1.0 && n >= 1
    ensures AsUsize(s * (n as real - 1.0)) <= n - 1
  {
    var last := n as real - 1.0;
    assert last == (n - 1) as real;
    UnitScaleBelow(s, last);
    AsUsizeAtMost(s * last, n - 1);
  }

  lemma AsUsizeAtMost(x: real, n: nat)
    requires x <= n as real
    ensures AsUsize(x) <= n
  {
  }

  lemma UnitScaleBelow(s: real, n: real)
    requires 0.0 <= s <= 1.0 && n >= 0.0
    ensures 0.0 <= s * n <= n
  {
  }

  /**
   * With the texture present and u, v in [0, 1], the diffuse colour is the
   * cell of pixel `TexelCoords`, a member of the texture's grid.
   */
  lemma TexturedReadsCell(specular: real, albedo: Albedo, refractiveIndex: real, t: Texture, u: real, v: real)
    requires t.Valid() && t.width >= 1 && t.height >= 1
    requires 0.0 <= u <= 1.0 && 0.0 <= v <= 1.0
    ensures var m := NewWithTexture(specular, albedo, refractiveIndex, t);
      var p := TexelCoords(t, u, v);
      && p.1 * t.width + p.0 < |t.colors|
      && GetDiffuseColor(m, u, v) == t.colors[p.1 * t.width + p.0]
      && GetDiffuseColor(m, u, v) in t.colors
  {
    TexelCoordsInRange(t, u, v);
    var p := TexelCoords(t, u, v);
    RowMajor.CellInRange(p.0, p.1, t.width, t.height);
    var m := NewWithTexture(specular, albedo, refractiveIndex, t);
    assert GetDiffuseColor(m, u, v) == GetColor(t, p.0, p.1);
  }

  /**
   * The vertical flip: v = 1 reads row 0 and v = 0 reads the last row; u = 0
   * reads column 0 and u = 1 the last column.
   */
  lemma TexelCoordsCorners(t: Texture)
    requires t.width >= 1 && t.height >= 1
    ensures TexelCoords(t, 0.0, 1.0) == (0, 0)
    ensures TexelCoords(t, 1.0, 0.0) == (t.width - 1, t.height - 1)
  {
  }
}
