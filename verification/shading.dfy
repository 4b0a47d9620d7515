/**
 * The shading engine of src/main.rs: the bias offset for secondary rays, the
 * nearest-hit scan, the shadow scan and the recursive `cast_ray` with its
 * depth cap and the gating of its reflection and refraction calls.
 *
 * The primitives are an abstract sequence with an intersection function; the
 * numeric primitives `normalize`, `magnitude`, `sqrt` and `powf` are
 * parameters and are not interpreted.
 */
module Shading {
  import opened Vectors
  import opened Numeric
  import opened Wrappers
  import opened Colors
  import opened Materials
  import opened Intersections
  import opened Optics

  /** `ORIGIN_BIAS`: how far secondary rays start off the surface. */
  const OriginBias: real := 0.0001

  /** `SKYBOX_COLOR`, the colour of a ray that hits nothing. */
  const Skybox: Color := Color(68, 142, 228)

  /** The deepest recursion level that still shades: depth 4 returns the sky. */
  const MaxDepth: nat := 3

  /** `Light`: a point light. */
  datatype Light = Light(position: Vec3, color: Color, intensity: real)

  /** The numeric primitives the shading calls but the model does not interpret. */
  datatype Numerics = Numerics(
    normalize: Vec3 -> Vec3,
    magnitude: Vec3 -> real,
    sqrt: real -> real,
    powf: (real, real) -> real)

  /**
   * Which `refract` the transmitted ray uses: the program's (`AsWritten`,
   * whose index ratio is inverted, see `Optics.OrientAsWritten`) or the
   * one with the ratio the right way round (`Corrected`).
   */
  datatype RefractionRule = AsWritten | Corrected

  /**
   * What `cast_ray` consults: the objects in scan order, their intersection
   * routine, the light, the numeric primitives, and the refraction rule.
   * The program itself is the `AsWritten` rule.
   */
  datatype Scene<!P> = Scene(
    objects: seq<P>,
    intersect: (P, Vec3, Vec3) -> Intersect,
    light: Light,
    num: Numerics,
    rule: RefractionRule)
  {
    /** Every hit carries a usable material (see `WellFormedHit`). */
    ghost predicate Valid()
    {
      forall k, o: Vec3, d: Vec3 | 0 <= k < |objects| :: WellFormedHit(intersect(objects[k], o, d))
    }
  }

  /**
   * A hit's material has a consistent texture, and a transparent material has
   * a non-zero refractive index, so that `refract` can divide by it.
   */
  predicate WellFormedHit(h: Intersect)
  {
    h.material.Valid() && (h.material.albedo.transparency > 0.0 ==> h.material.refractiveIndex != 0.0)
  }

  /**
   * `offset_origin`: the hit point moved by `ORIGIN_BIAS` along the normal,
   * towards the side the new ray leaves through.  The displacement is
   * plus or minus `normal * bias`, and its component along the new direction
   * is never negative: the new ray starts ahead of the surface.
   */
  function OffsetOrigin(hit: Intersect, dir: Vec3): (r: Vec3)
    ensures r.Sub(hit.point) == hit.normal.Scale(if dir.Dot(hit.normal) < 0.0 then -OriginBias else OriginBias)
    ensures r.Sub(hit.point).Dot(dir) == OriginBias * Abs(dir.Dot(hit.normal))
  {
    var offset := hit.normal.Scale(OriginBias);
    SubIsAddNegated(hit.point, hit.normal, OriginBias);
    OffsetAlong(hit.point, hit.normal, dir, -OriginBias);
    OffsetAlong(hit.point, hit.normal, dir, OriginBias);
    if dir.Dot(hit.normal) < 0.0 then hit.point.Sub(offset) else hit.point.Add(offset)
  }

  lemma SubIsAddNegated(p: Vec3, n: Vec3, b: real)
    ensures p.Sub(n.Scale(b)) == p.Add(n.Scale(-b))
  {
  }

  /** Moving `p` by `n * b` displaces it by `b (dir . n)` along `dir`. */
  lemma OffsetAlong(p: Vec3, n: Vec3, dir: Vec3, b: real)
    ensures p.Add(n.Scale(b)).Sub(p) == n.Scale(b)
    ensures p.Add(n.Scale(b)).Sub(p).Dot(dir) == b * dir.Dot(n)
  {
    var e := p.Add(n.Scale(b)).Sub(p);
    assert e == Vec3(n.x * b, n.y * b, n.z * b);
    assert e.Dot(dir) == n.x * b * dir.x + n.y * b * dir.y + n.z * b * dir.z;
  }

  /** The results of intersecting every object with one ray, in scan order. */
  function Hits<P>(s: Scene<P>, o: Vec3, d: Vec3): (hs: seq<Intersect>)
    ensures |hs| == |s.objects|
    ensures forall k | 0 <= k < |hs| :: hs[k] == s.intersect(s.objects[k], o, d)
    ensures s.Valid() ==> forall k | 0 <= k < |hs| :: WellFormedHit(hs[k])
  {
    seq(|s.objects|, k requires 0 <= k < |s.objects| => s.intersect(s.objects[k], o, d))
  }

  /**
   * The object the nearest-hit loop of `cast_ray` ends up holding: it keeps a
   * result when it intersects and is strictly closer than the best so far,
   * so of several equally near hits the earliest wins.  None when nothing
   * intersects.
   */
  function Nearest(hits: seq<Intersect>): (k: Option<nat>)
    ensures k.None? <==> forall i | 0 <= i < |hits| :: !hits[i].isIntersecting
    ensures k.Some? ==> k.value < |hits| && hits[k.value].isIntersecting
    ensures k.Some? ==> forall i | 0 <= i < |hits| && hits[i].isIntersecting :: hits[k.value].distance <= hits[i].distance
    ensures k.Some? ==> forall i | 0 <= i < k.value && hits[i].isIntersecting :: hits[k.value].distance < hits[i].distance
  {
    if |hits| == 0 then None
    else
      var prefix := hits[..|hits| - 1];
      var best := Nearest(prefix);
      var last := hits[|hits| - 1];
      assert forall i | 0 <= i < |prefix| :: prefix[i] == hits[i];
      if last.isIntersecting && (best.None? || last.distance < hits[best.value].distance) then Some(|hits| - 1)
      else best
  }

  /** The hit record `cast_ray` shades: the nearest hit, or `Intersect::empty()`. */
  function NearestHit(hits: seq<Intersect>): (r: Intersect)
    ensures r.isIntersecting <==> exists i | 0 <= i < |hits| :: hits[i].isIntersecting
    ensures (forall i | 0 <= i < |hits| :: WellFormedHit(hits[i])) ==> WellFormedHit(r)
  {
    match Nearest(hits)
    case None => Empty()
    case Some(k) => hits[k]
  }

  /** In a valid scene the hit `cast_ray` shades is well formed. */
  lemma NearestHitWellFormed<P>(s: Scene<P>, o: Vec3, d: Vec3)
    requires s.Valid()
    ensures WellFormedHit(NearestHit(Hits(s, o, d)))
  {
    var hs := Hits(s, o, d);
    assert forall i | 0 <= i < |hs| :: WellFormedHit(hs[i]);
  }

  /** A hit lies between the shadow ray's origin and the light. */
  predicate Occludes(h: Intersect, lightDistance: real)
  {
    h.isIntersecting && h.distance < lightDistance
  }

  /**
   * The object the shadow loop of `cast_shadow` stops at: the first in scan
   * order that occludes the light, not necessarily the nearest one.
   */
  function FirstOccluder(hits: seq<Intersect>, lightDistance: real): (k: Option<nat>)
    ensures k.None? <==> forall i | 0 <= i < |hits| :: !Occludes(hits[i], lightDistance)
    ensures k.Some? ==> k.value < |hits| && Occludes(hits[k.value], lightDistance)
    ensures k.Some? ==> forall i | 0 <= i < k.value :: !Occludes(hits[i], lightDistance)
  {
    if |hits| == 0 then None
    else if Occludes(hits[0], lightDistance) then Some(0)
    else
      var rest := FirstOccluder(hits[1..], lightDistance);
      assert forall i | 1 <= i < |hits| :: hits[1..][i - 1] == hits[i];
      match rest
      case None => None
      case Some(j) => Some(j + 1)
  }

  /**
   * `1 - (distance / light_distance)^2`, limited below by 0.  A zero light
   * distance, where the source divides by zero and the square is infinite,
   * gives 0.
   */
  function Falloff(distance: real, lightDistance: real): (r: real)
    ensures 0.0 <= r <= 1.0
  {
    if lightDistance == 0.0 then 0.0
    else
      var ratio := distance / lightDistance;
      assert ratio * ratio >= 0.0;
      1.0 - Min(ratio * ratio, 1.0)
  }

  /** The shadow intensity the loop of `cast_shadow` leaves. */
  function ShadowScan(hits: seq<Intersect>, lightDistance: real): (r: real)
    ensures 0.0 <= r <= 1.0
    ensures (forall i | 0 <= i < |hits| :: !Occludes(hits[i], lightDistance)) ==> r == 0.0
  {
    match FirstOccluder(hits, lightDistance)
    case None => 0.0
    case Some(k) => Falloff(hits[k].distance, lightDistance)
  }

  /**
   * The loop breaks at the first occluder: objects after it are never
   * consulted, whatever they would report.
   */
  lemma ShadowScanStopsAtFirst(hits: seq<Intersect>, more: seq<Intersect>, lightDistance: real)
    requires exists i | 0 <= i < |hits| :: Occludes(hits[i], lightDistance)
    ensures ShadowScan(hits + more, lightDistance) == ShadowScan(hits, lightDistance)
  {
    var k := FirstOccluder(hits, lightDistance).value;
    assert forall i | 0 <= i < |hits| :: (hits + more)[i] == hits[i];
    assert FirstOccluder(hits + more, lightDistance) == Some(k);
  }

  /** A hit at distance 0.8 before one at 0.2, light at distance 1. */
  const FarThenNear: seq<Intersect> := [
    Intersect(Zero, 0.8, Zero, Materials.Black(), true, 0.0, 0.0),
    Intersect(Zero, 0.2, Zero, Materials.Black(), true, 0.0, 0.0)]

  /**
   * The shadow follows the first occluder in scan order: with `FarThenNear`
   * the intensity is 1 - 0.8^2 = 0.36, not the 1 - 0.2^2 = 0.96 of the nearer
   * occluder; the nearest-hit scan picks the other object.
   */
  lemma ShadowFollowsScanOrder()
    ensures ShadowScan(FarThenNear, 1.0) == 1.0 - 0.8 * 0.8
    ensures Nearest(FarThenNear) == Some(1)
  {
    assert Occludes(FarThenNear[0], 1.0);
    assert FarThenNear[..1] == [FarThenNear[0]];
  }

  /**
   * `cast_shadow`: a shadow ray from the offset hit point towards the light,
   * scanned for the first object closer than the light.
   */
  function CastShadow<P>(s: Scene<P>, hit: Intersect): (r: real)
    ensures 0.0 <= r <= 1.0
  {
    var toLight := s.light.position.Sub(hit.point);
    var lightDir := s.num.normalize(toLight);
    var lightDistance := s.num.magnitude(toLight);
    ShadowScan(Hits(s, OffsetOrigin(hit, lightDir), lightDir), lightDistance)
  }

  /**
   * The diffuse plus specular terms of `cast_ray`.  Each `Color * f32`
   * product clamps and truncates on its own, in the source's order.
   */
  function DirectLight<P>(s: Scene<P>, o: Vec3, hit: Intersect): (c: Color)
    requires hit.material.Valid()
    ensures s.light.intensity * (1.0 - CastShadow(s, hit)) <= 0.0 ==> IsBlack(c)
    ensures hit.material.albedo.diffuse <= 0.0 && hit.material.albedo.specular <= 0.0 ==> IsBlack(c)
  {
    var m := hit.material;
    var lightDir := s.num.normalize(s.light.position.Sub(hit.point));
    var viewDir := s.num.normalize(o.Sub(hit.point));
    var reflectDir := s.num.normalize(Reflect(lightDir.Neg(), hit.normal));
    var lightIntensity := s.light.intensity * (1.0 - CastShadow(s, hit));
    var diffuseIntensity := Clamp(hit.normal.Dot(lightDir), 0.0, 1.0);
    var diffuse := Scale(Scale(Scale(GetDiffuseColor(m, hit.u, hit.v), m.albedo.diffuse), diffuseIntensity), lightIntensity);
    var specularIntensity := s.num.powf(Max(viewDir.Dot(reflectDir), 0.0), m.specular);
    var specular := Scale(Scale(Scale(s.light.color, m.albedo.specular), specularIntensity), lightIntensity);
    DarkWhenWeightless(GetDiffuseColor(m, hit.u, hit.v), m.albedo.diffuse, diffuseIntensity, lightIntensity);
    DarkWhenWeightless(s.light.color, m.albedo.specular, specularIntensity, lightIntensity);
    BlackSum(diffuse, specular);
    Add(diffuse, specular)
  }

  /** A colour scaled three times is black when the first or the last factor is not positive. */
  lemma DarkWhenWeightless(c: Color, a: real, i: real, l: real)
    ensures a <= 0.0 || l <= 0.0 ==> IsBlack(Scale(Scale(Scale(c, a), i), l))
  {
    if l <= 0.0 {
      ScaleNonPositiveIsBlack(Scale(Scale(c, a), i), l);
    } else if a <= 0.0 {
      ScaleNonPositiveIsBlack(c, a);
      ScaleBlack(i);
      ScaleBlack(l);
    }
  }

  /** The sum of two black colours is black. */
  lemma BlackSum(a: Color, b: Color)
    ensures IsBlack(a) && IsBlack(b) ==> IsBlack(Add(a, b))
  {
  }

  /** The mirror ray: `reflect(dir, normal).normalize()` from the offset hit point. */
  function ReflectedRay<P>(s: Scene<P>, hit: Intersect, d: Vec3): (ray: (Vec3, Vec3))
    ensures ray.0.Sub(hit.point).Dot(ray.1) >= 0.0
  {
    var dir := s.num.normalize(Reflect(d, hit.normal));
    (OffsetOrigin(hit, dir), dir)
  }

  /**
   * The transmitted ray: `refract(dir, normal, ior)` (not renormalised) from
   * the offset hit point, with the scene's refraction rule.
   */
  function RefractedRay<P>(s: Scene<P>, hit: Intersect, d: Vec3): (ray: (Vec3, Vec3))
    requires hit.material.refractiveIndex != 0.0
    ensures ray.0.Sub(hit.point).Dot(ray.1) >= 0.0
    ensures var o := match s.rule
        case AsWritten => OrientAsWritten(d, hit.normal, hit.material.refractiveIndex)
        case Corrected => Orient(d, hit.normal, hit.material.refractiveIndex);
      ray.1.Cross(o.normal) == Tangent(d, o)
  {
    var eta := hit.material.refractiveIndex;
    var dir := match s.rule
      case AsWritten => RefractAsWritten(d, hit.normal, eta, s.num.sqrt)
      case Corrected => Refract(d, hit.normal, eta, s.num.sqrt);
    (OffsetOrigin(hit, dir), dir)
  }

  /**
   * A glass face met by `SteepRay` from outside (normal `Up`, index 1.5):
   * under the program's rule the transmitted ray is the mirror reflection,
   * heading back up; under the corrected rule it is bent down into the glass.
   */
  lemma GlassEntryDirection<P>(s: Scene<P>, hit: Intersect)
    requires hit.normal == Up && hit.material.refractiveIndex == 1.5
    ensures s.rule == AsWritten ==> RefractedRay(s, hit, SteepRay).1 == Reflect(SteepRay, Up)
    ensures s.rule == AsWritten ==> RefractedRay(s, hit, SteepRay).1.Dot(Up) > 0.0
    ensures s.rule == Corrected ==> RefractedRay(s, hit, SteepRay).1 == Bend(SteepRay, Orient(SteepRay, Up, 1.5), s.num.sqrt)
  {
    var dir := RefractedRay(s, hit, SteepRay).1;
    if s.rule == AsWritten {
      assert dir == RefractAsWritten(SteepRay, Up, 1.5, s.num.sqrt);
      RefractAsWrittenReflectsOnEntry(s.num.sqrt);
      SteepRayGeometry();
      ReflectFlipsNormalComponent(SteepRay, Up);
    } else {
      assert dir == Refract(SteepRay, Up, 1.5, s.num.sqrt);
      RefractBendsOnEntry(s.num.sqrt);
    }
  }

  /**
   * The final weighting of `cast_ray`:
   * `direct * (1 - r - t) + reflected * r + refracted * t`, with the
   * saturating colour sum and the clamping scale.
   */
  function Composite(direct: Color, reflected: Color, refracted: Color, a: Albedo): (c: Color)
    ensures a.reflectivity == 0.0 && a.transparency == 0.0 ==> c == direct
    ensures Dominates(c, Scale(direct, 1.0 - a.reflectivity - a.transparency))
    ensures Dominates(c, Scale(reflected, a.reflectivity)) && Dominates(c, Scale(refracted, a.transparency))
  {
    ScaleByOne(direct);
    ScaleNonPositiveIsBlack(reflected, 0.0);
    ScaleNonPositiveIsBlack(refracted, 0.0);
    AddBlackIdentity(direct);
    Add(Add(Scale(direct, 1.0 - a.reflectivity - a.transparency), Scale(reflected, a.reflectivity)), Scale(refracted, a.transparency))
  }

  /** Plain diffuse/specular weights leave the direct light unchanged. */
  lemma CompositeOfPlainMaterial(direct: Color, reflected: Color, refracted: Color, a: Albedo)
    requires a.reflectivity == 0.0 && a.transparency == 0.0
    ensures Composite(direct, reflected, refracted, a) == direct
  {
    ScaleByOne(direct);
    ScaleNonPositiveIsBlack(reflected, 0.0);
    ScaleNonPositiveIsBlack(refracted, 0.0);
    AddBlackIdentity(direct);
  }

  /**
   * `cast_ray`.  Past depth 3 it returns the sky without looking at the
   * scene; so does a ray that hits nothing.  Otherwise it shades the nearest
   * hit and recurses, one level deeper, only for a positive reflectivity
   * and for a positive transparency.
   */
  function CastRay<P>(s: Scene<P>, o: Vec3, d: Vec3, depth: nat): (c: Color)
    requires s.Valid()
    ensures depth > MaxDepth ==> c == Skybox
    ensures (forall k | 0 <= k < |s.objects| :: !s.intersect(s.objects[k], o, d).isIntersecting) ==> c == Skybox
    decreases if depth > MaxDepth then 0 else MaxDepth + 1 - depth
  {
    if depth > MaxDepth then Skybox
    else
      var hits := Hits(s, o, d);
      var hit := NearestHit(hits);
      if !hit.isIntersecting then Skybox
      else
        var a := hit.material.albedo;
        var reflected :=
          if a.reflectivity > 0.0 then
            var (ro, rd) := ReflectedRay(s, hit, d);
            CastRay(s, ro, rd, depth + 1)
          else Colors.Black();
        var refracted :=
          if a.transparency > 0.0 then
            var (to, td) := RefractedRay(s, hit, d);
            CastRay(s, to, td, depth + 1)
          else Colors.Black();
        Composite(DirectLight(s, o, hit), reflected, refracted, a)
  }

  /**
   * A surface with no reflectivity and no transparency is shaded without any
   * recursive call: the result is its weighted direct light.
   */
  lemma OpaqueSurfaceDoesNotRecurse<P>(s: Scene<P>, o: Vec3, d: Vec3, depth: nat, hit: Intersect)
    requires s.Valid() && depth <= MaxDepth && hit == NearestHit(Hits(s, o, d))
    requires hit.isIntersecting && hit.material.albedo.reflectivity <= 0.0 && hit.material.albedo.transparency <= 0.0
    ensures WellFormedHit(hit)
    ensures CastRay(s, o, d, depth)
         == Scale(DirectLight(s, o, hit), 1.0 - hit.material.albedo.reflectivity - hit.material.albedo.transparency)
  {
    NearestHitWellFormed(s, o, d);
    var a := hit.material.albedo;
    var direct := DirectLight(s, o, hit);
    assert CastRay(s, o, d, depth) == Scale(direct, 1.0 - a.reflectivity - a.transparency) by {
      OpaqueSurfaceComposite(s, o, d, depth, hit);
      CompositeWithoutRays(direct, a);
    }
  }

  /** For an opaque surface both recursive terms of the weighting are black. */
  lemma OpaqueSurfaceComposite<P>(s: Scene<P>, o: Vec3, d: Vec3, depth: nat, hit: Intersect)
    requires s.Valid() && depth <= MaxDepth && hit == NearestHit(Hits(s, o, d))
    requires hit.isIntersecting && hit.material.albedo.reflectivity <= 0.0 && hit.material.albedo.transparency <= 0.0
    requires WellFormedHit(hit)
    ensures CastRay(s, o, d, depth) == Composite(DirectLight(s, o, hit), Colors.Black(), Colors.Black(), hit.material.albedo)
  {
  }

  /** Black reflected and refracted terms leave only the weighted direct light. */
  lemma CompositeWithoutRays(direct: Color, a: Albedo)
    ensures Composite(direct, Colors.Black(), Colors.Black(), a) == Scale(direct, 1.0 - a.reflectivity - a.transparency)
  {
    var weighted := Scale(direct, 1.0 - a.reflectivity - a.transparency);
    ScaleBlack(a.reflectivity);
    ScaleBlack(a.transparency);
    AddBlackIdentity(weighted);
  }

  /** Hence an opaque surface looks the same at every depth up to the cap. */
  lemma OpaqueSurfaceIgnoresDepth<P>(s: Scene<P>, o: Vec3, d: Vec3, depth: nat, depth': nat)
    requires s.Valid() && depth <= MaxDepth && depth' <= MaxDepth
    requires var hit := NearestHit(Hits(s, o, d));
      hit.isIntersecting && hit.material.albedo.reflectivity <= 0.0 && hit.material.albedo.transparency <= 0.0
    ensures CastRay(s, o, d, depth) == CastRay(s, o, d, depth')
  {
    var hit := NearestHit(Hits(s, o, d));
    OpaqueSurfaceDoesNotRecurse(s, o, d, depth, hit);
    OpaqueSurfaceDoesNotRecurse(s, o, d, depth', hit);
  }

  /**
   * A perfect mirror (albedo (0, 0, 1, 0)) shows exactly what its reflected
   * ray sees one level deeper: its own direct light is weighted by zero.
   */
  lemma MirrorShowsReflection<P>(s: Scene<P>, o: Vec3, d: Vec3, depth: nat)
    requires s.Valid() && depth <= MaxDepth
    requires var hit := NearestHit(Hits(s, o, d));
      hit.isIntersecting && hit.material.albedo == Albedo(0.0, 0.0, 1.0, 0.0)
    ensures var hit := NearestHit(Hits(s, o, d));
      var (ro, rd) := ReflectedRay(s, hit, d);
      CastRay(s, o, d, depth) == CastRay(s, ro, rd, depth + 1)
  {
    var hit := NearestHit(Hits(s, o, d));
    var (ro, rd) := ReflectedRay(s, hit, d);
    var seen := CastRay(s, ro, rd, depth + 1);
    var direct := DirectLight(s, o, hit);
    ScaleNonPositiveIsBlack(direct, 0.0);
    ScaleByOne(seen);
    ScaleBlack(0.0);
    AddBlackIdentity(seen);
    AddCommutative(Scale(direct, 0.0), seen);
  }

  /**
   * A fully transparent surface (albedo (0, 0, 0, 1)) shows exactly what its
   * transmitted ray sees one level deeper.
   */
  lemma GlassShowsRefraction<P>(s: Scene<P>, o: Vec3, d: Vec3, depth: nat)
    requires s.Valid() && depth <= MaxDepth
    requires var hit := NearestHit(Hits(s, o, d));
      hit.isIntersecting && hit.material.albedo == Albedo(0.0, 0.0, 0.0, 1.0)
    ensures var hit := NearestHit(Hits(s, o, d));
      var (to, td) := RefractedRay(s, hit, d);
      CastRay(s, o, d, depth) == CastRay(s, to, td, depth + 1)
  {
    var hit := NearestHit(Hits(s, o, d));
    var (to, td) := RefractedRay(s, hit, d);
    var seen := CastRay(s, to, td, depth + 1);
    var direct := DirectLight(s, o, hit);
    assert CastRay(s, o, d, depth) == Composite(direct, Colors.Black(), seen, hit.material.albedo);
    ScaleNonPositiveIsBlack(direct, 0.0);
    ScaleBlack(0.0);
    ScaleByOne(seen);
    AddBlackIdentity(Colors.Black());
    AddCommutative(Colors.Black(), seen);
    AddBlackIdentity(seen);
  }

  /** So a mirror met at the last level shows the sky colour. */
  lemma MirrorAtLastLevelShowsSky<P>(s: Scene<P>, o: Vec3, d: Vec3)
    requires s.Valid()
    requires var hit := NearestHit(Hits(s, o, d));
      hit.isIntersecting && hit.material.albedo == Albedo(0.0, 0.0, 1.0, 0.0)
    ensures CastRay(s, o, d, MaxDepth) == Skybox
  {
    MirrorShowsReflection(s, o, d, MaxDepth);
  }
}
