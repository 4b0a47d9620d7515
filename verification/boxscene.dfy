/**
 * The scene `render` hands to `cast_ray` in src/main.rs: a slice of boxes,
 * each intersected by `Cube::ray_intersect`.  This instantiates the abstract
 * `Shading.Scene` with the box intersection of `Cubes`.
 */
module BoxScenes {
  import opened Vectors
  import opened Intersections
  import opened Cubes
  import opened Shading
  import Materials

  /**
   * `Cube::ray_intersect` as a total function.  Its slab test is modelled
   * for rays with no zero direction component and boxes of positive extent;
   * any other ray or box reports no hit.
   */
  function BoxIntersect(c: Cube, o: Vec3, d: Vec3): (r: Intersect)
    ensures AxisFree(d) && NonDegenerate(c) ==> r == RayIntersect(c, o, d)
    ensures !r.isIntersecting ==> r == Empty()
    ensures r.isIntersecting ==> r.material == c.material && r.point == PointAt(o, d, r.distance)
  {
    if AxisFree(d) && NonDegenerate(c) then RayIntersect(c, o, d) else Empty()
  }

  /**
   * A material `cast_ray` can shade: a consistent texture, and a non-zero
   * refractive index when it is transparent.
   */
  predicate Usable(m: Materials.Material)
  {
    m.Valid() && (m.albedo.transparency > 0.0 ==> m.refractiveIndex != 0.0)
  }

  /** The boxes in scan order, under the given light, primitives and refraction rule. */
  function BoxScene(cubes: seq<Cube>, light: Light, num: Numerics, rule: RefractionRule): (s: Scene<Cube>)
    ensures s.objects == cubes && s.light == light && s.num == num && s.rule == rule
    ensures forall k, o: Vec3, d: Vec3 | 0 <= k < |cubes| :: s.intersect(cubes[k], o, d) == BoxIntersect(cubes[k], o, d)
  {
    Scene(cubes, BoxIntersect, light, num, rule)
  }

  /** Every hit on a box carries that box's material, or is the empty record. */
  lemma BoxHitWellFormed(c: Cube, o: Vec3, d: Vec3)
    requires Usable(c.material)
    ensures WellFormedHit(BoxIntersect(c, o, d))
  {
    var r := BoxIntersect(c, o, d);
    if !r.isIntersecting {
      assert r.material == Materials.Black();
    }
  }

  /**
   * A scene of boxes whose materials are all usable satisfies `Scene.Valid`,
   * so `CastRay` can be applied to it.
   */
  lemma BoxSceneValid(cubes: seq<Cube>, light: Light, num: Numerics, rule: RefractionRule)
    requires forall k | 0 <= k < |cubes| :: Usable(cubes[k].material)
    ensures BoxScene(cubes, light, num, rule).Valid()
  {
    var s := BoxScene(cubes, light, num, rule);
    forall k, o: Vec3, d: Vec3 | 0 <= k < |cubes|
      ensures WellFormedHit(s.intersect(s.objects[k], o, d))
    {
      BoxHitWellFormed(cubes[k], o, d);
    }
  }

  /**
   * Conversely, a box whose material is not usable makes the scene invalid
   * as soon as some ray hits it.
   */
  lemma BoxSceneInvalid(cubes: seq<Cube>, light: Light, num: Numerics, rule: RefractionRule, k: nat, o: Vec3, d: Vec3)
    requires k < |cubes| && !Usable(cubes[k].material)
    requires BoxIntersect(cubes[k], o, d).isIntersecting
    ensures !BoxScene(cubes, light, num, rule).Valid()
  {
    var s := BoxScene(cubes, light, num, rule);
    assert !WellFormedHit(s.intersect(s.objects[k], o, d));
  }
}
