/**
 * The hit record every primitive's `ray_intersect` returns.  Its defining
 * module is not part of this model; the fields are those the box
 * intersection fills in (src/cube.rs:121-129).
 */
module Intersections {
  import opened Vectors
  import Materials

  datatype Intersect = Intersect(
    point: Vec3,
    distance: real,
    normal: Vec3,
    material: Materials.Material,
    isIntersecting: bool,
    u: real,
    v: real)

  /**
   * `Intersect::empty()`: the "no hit" record.  Only `is_intersecting = false`
   * is relied upon; the other fields hold neutral placeholder values.
   */
  function Empty(): (r: Intersect)
    ensures !r.isIntersecting
    ensures r.material.Valid()
  {
    Intersect(Zero, 0.0, Zero, Materials.Black(), false, 0.0, 0.0)
  }
}
