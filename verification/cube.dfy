/**
 * Axis-aligned boxes (src/cube.rs): face classification for normals and for
 * texture coordinates, the centre, and the slab intersection test.
 *
 * Nothing here assumes `min < max`: scenes build boxes whose `min.y` lies
 * above `max.y`, and the per-axis swap in the slab test keeps those working.
 */
module Cubes {
  import opened Vectors
  import opened Numeric
  import opened Materials
  import opened Intersections

  /** The tolerance within which a point counts as lying on a face. */
  const Epsilon: real := 0.0001

  datatype Cube = Cube(min: Vec3, max: Vec3, material: Material)

  /** The six faces, named by the bound and axis they lie on. */
  datatype Face = MinX | MaxX | MinY | MaxY | MinZ | MaxZ

  /** The outward normal `calculate_normal` gives for a face. */
  function FaceNormal(f: Face): Vec3
  {
    match f
    case MinX => Vec3(-1.0, 0.0, 0.0)
    case MaxX => Vec3(1.0, 0.0, 0.0)
    case MinY => Vec3(0.0, -1.0, 0.0)
    case MaxY => Vec3(0.0, 1.0, 0.0)
    case MinZ => Vec3(0.0, 0.0, -1.0)
    case MaxZ => Vec3(0.0, 0.0, 1.0)
  }

  /** `p` lies within `Epsilon` of the plane of face `f`. */
  predicate OnFace(c: Cube, p: Vec3, f: Face)
  {
    match f
    case MinX => Abs(p.x - c.min.x) < Epsilon
    case MaxX => Abs(p.x - c.max.x) < Epsilon
    case MinY => Abs(p.y - c.min.y) < Epsilon
    case MaxY => Abs(p.y - c.max.y) < Epsilon
    case MinZ => Abs(p.z - c.min.z) < Epsilon
    case MaxZ => Abs(p.z - c.max.z) < Epsilon
  }

  /** The order in which `calculate_normal` tests faces; +z is the fallback. */
  const NormalOrder: seq<Face> := [MinX, MaxX, MinY, MaxY, MinZ]

  /** The order in which `get_uv` tests faces; the back face is the fallback. */
  const UvOrder: seq<Face> := [MaxY, MinY, MinX, MaxX, MinZ]

  /**
   * The position of the first face in `order` that `p` lies on, or `|order|`
   * when it lies on none: every earlier face was tested and rejected.
   */
  function FirstMatch(c: Cube, p: Vec3, order: seq<Face>): (i: nat)
    ensures i <= |order|
    ensures i < |order| ==> OnFace(c, p, order[i])
    ensures forall j | 0 <= j < i :: !OnFace(c, p, order[j])
  {
    if order == [] then 0
    else if OnFace(c, p, order[0]) then 0
    else 1 + FirstMatch(c, p, order[1..])
  }

  /** A first-match chain over five faces, unrolled. */
  lemma FirstMatchOfFive(c: Cube, p: Vec3, order: seq<Face>)
    requires |order| == 5
    ensures FirstMatch(c, p, order) ==
      if OnFace(c, p, order[0]) then 0
      else if OnFace(c, p, order[1]) then 1
      else if OnFace(c, p, order[2]) then 2
      else if OnFace(c, p, order[3]) then 3
      else if OnFace(c, p, order[4]) then 4
      else 5
  {
    assert order[1..][1..] == order[2..];
    assert order[2..][1..] == order[3..];
    assert order[3..][1..] == order[4..];
    assert order[4..][1..] == [];
  }

  /** The face a first-match chain over `order` settles on, +z when none matches. */
  function FirstFace(c: Cube, p: Vec3, order: seq<Face>): Face
  {
    var i := FirstMatch(c, p, order);
    if i < |order| then order[i] else MaxZ
  }

  /** `v` is one of the six axis unit vectors. */
  predicate IsAxisUnit(v: Vec3)
  {
    v in {Vec3(-1.0, 0.0, 0.0), Vec3(1.0, 0.0, 0.0), Vec3(0.0, -1.0, 0.0),
          Vec3(0.0, 1.0, 0.0), Vec3(0.0, 0.0, -1.0), Vec3(0.0, 0.0, 1.0)}
  }

  /**
   * `calculate_normal`: the if-chain of the source.  Its result is the
   * normal of the first face, in `NormalOrder`, that the point lies on, so at
   * an edge the earlier face wins; it is always an axis unit vector.
   */
  function CalculateNormal(c: Cube, p: Vec3): (n: Vec3)
    ensures n == FaceNormal(FirstFace(c, p, NormalOrder))
    ensures IsAxisUnit(n) && IsUnit(n)
  {
    FirstMatchOfFive(c, p, NormalOrder);
    if Abs(p.x - c.min.x) < Epsilon then Vec3(-1.0, 0.0, 0.0)
    else if Abs(p.x - c.max.x) < Epsilon then Vec3(1.0, 0.0, 0.0)
    else if Abs(p.y - c.min.y) < Epsilon then Vec3(0.0, -1.0, 0.0)
    else if Abs(p.y - c.max.y) < Epsilon then Vec3(0.0, 1.0, 0.0)
    else if Abs(p.z - c.min.z) < Epsilon then Vec3(0.0, 0.0, -1.0)
    else Vec3(0.0, 0.0, 1.0)
  }

  /** No extent of the box is zero, so the texture-coordinate divisions are defined. */
  predicate NonDegenerate(c: Cube)
  {
    c.max.x != c.min.x && c.max.y != c.min.y && c.max.z != c.min.z
  }

  /** The fraction of the way from `lo` to `hi` at which `a` lies. */
  function Fraction(a: real, lo: real, hi: real): real
    requires hi != lo
  {
    (a - lo) / (hi - lo)
  }

  /**
   * The texture coordinates a face assigns: top and bottom use (x, z), left
   * and right use (z, y), front and back use (x, y).
   */
  function FaceUv(c: Cube, p: Vec3, f: Face): (real, real)
    requires NonDegenerate(c)
  {
    match f
    case MaxY | MinY => (Fraction(p.x, c.min.x, c.max.x), Fraction(p.z, c.min.z, c.max.z))
    case MinX | MaxX => (Fraction(p.z, c.min.z, c.max.z), Fraction(p.y, c.min.y, c.max.y))
    case MinZ | MaxZ => (Fraction(p.x, c.min.x, c.max.x), Fraction(p.y, c.min.y, c.max.y))
  }

  /**
   * `get_uv`: the if-chain of the source.  It applies the mapping of the
   * first face, in `UvOrder`, that the point lies on, falling back to the
   * back face.
   */
  function GetUv(c: Cube, p: Vec3): (uv: (real, real))
    requires NonDegenerate(c)
    ensures uv == FaceUv(c, p, FirstFace(c, p, UvOrder))
  {
    FirstMatchOfFive(c, p, UvOrder);
    if Abs(p.y - c.max.y) < Epsilon then
      ((p.x - c.min.x) / (c.max.x - c.min.x), (p.z - c.min.z) / (c.max.z - c.min.z))
    else if Abs(p.y - c.min.y) < Epsilon then
      ((p.x - c.min.x) / (c.max.x - c.min.x), (p.z - c.min.z) / (c.max.z - c.min.z))
    else if Abs(p.x - c.min.x) < Epsilon then
      ((p.z - c.min.z) / (c.max.z - c.min.z), (p.y - c.min.y) / (c.max.y - c.min.y))
    else if Abs(p.x - c.max.x) < Epsilon then
      ((p.z - c.min.z) / (c.max.z - c.min.z), (p.y - c.min.y) / (c.max.y - c.min.y))
    else if Abs(p.z - c.min.z) < Epsilon then
      ((p.x - c.min.x) / (c.max.x - c.min.x), (p.y - c.min.y) / (c.max.y - c.min.y))
    else
      ((p.x - c.min.x) / (c.max.x - c.min.x), (p.y - c.min.y) / (c.max.y - c.min.y))
  }

  /** `a` lies between the two bounds, whichever order they come in. */
  predicate Between(a: real, lo: real, hi: real)
  {
    Min(lo, hi) <= a <= Max(lo, hi)
  }

  /** `p` lies inside the box (faces included). */
  predicate InBox(c: Cube, p: Vec3)
  {
    Between(p.x, c.min.x, c.max.x) && Between(p.y, c.min.y, c.max.y) && Between(p.z, c.min.z, c.max.z)
  }

  /** A coordinate between the bounds is a fraction in [0, 1] of the way across. */
  lemma FractionInUnit(a: real, lo: real, hi: real)
    requires hi != lo && Between(a, lo, hi)
    ensures 0.0 <= Fraction(a, lo, hi) <= 1.0
  {
    if lo < hi {
      assert 0.0 <= a - lo <= hi - lo;
      QuotientInUnit(a - lo, hi - lo);
    } else {
      assert 0.0 <= lo - a <= lo - hi;
      assert (a - lo) / (hi - lo) == (lo - a) / (lo - hi);
      QuotientInUnit(lo - a, lo - hi);
    }
  }

  /** A quotient of a non-negative number by one at least as large lies in [0, 1]. */
  lemma QuotientInUnit(x: real, y: real)
    requires 0.0 <= x <= y && y > 0.0
    ensures 0.0 <= x / y <= 1.0
  {
    var f := x / y;
    assert f * y == x;
    SignOfProduct(f, y);
    assert (1.0 - f) * y == y - x;
    SignOfProduct(1.0 - f, y);
  }

  /**
   * For any point inside a non-degenerate box, both texture coordinates lie
   * in [0, 1], for any order of the bounds on each axis.
   */
  lemma GetUvInUnit(c: Cube, p: Vec3)
    requires NonDegenerate(c) && InBox(c, p)
    ensures 0.0 <= GetUv(c, p).0 <= 1.0 && 0.0 <= GetUv(c, p).1 <= 1.0
  {
    FractionInUnit(p.x, c.min.x, c.max.x);
    FractionInUnit(p.y, c.min.y, c.max.y);
    FractionInUnit(p.z, c.min.z, c.max.z);
  }

  /**
   * The two classifications disagree at an edge: on the edge between the left
   * and top faces of the unit box, the normal is that of the left face while
   * the texture coordinates are those of the top face.
   */
  lemma NormalAndUvFacesDiffer()
    ensures var c := Cube(Zero, Vec3(1.0, 1.0, 1.0), Materials.Black());
      var p := Vec3(0.0, 1.0, 0.5);
      && FirstFace(c, p, NormalOrder) == MinX
      && FirstFace(c, p, UvOrder) == MaxY
      && CalculateNormal(c, p) == Vec3(-1.0, 0.0, 0.0)
      && GetUv(c, p) == (0.0, 0.5)
  {
    var c := Cube(Zero, Vec3(1.0, 1.0, 1.0), Materials.Black());
    var p := Vec3(0.0, 1.0, 0.5);
    assert OnFace(c, p, MinX) && OnFace(c, p, MaxY);
  }

  /** `position()`: the centre, halfway between the two corners. */
  function Position(c: Cube): (p: Vec3)
    ensures p.Sub(c.min) == c.max.Sub(p)
    ensures InBox(c, p)
  {
    c.min.Add(c.max).Scale(1.0 / 2.0)
  }

  /** The point reached after travelling `t` along the ray. */
  function PointAt(o: Vec3, d: Vec3, t: real): Vec3
  {
    o.Add(d.Scale(t))
  }

  /** The two slab crossing times, swapped so that entry comes first. */
  function Sorted(a: real, b: real): (r: (real, real))
    ensures r.0 <= r.1
    ensures (r.0 == a && r.1 == b) || (r.0 == b && r.1 == a)
  {
    if a > b then (b, a) else (a, b)
  }

  /** The entry and exit times of the ray `o + t d` through the slab between lo and hi. */
  function Slab(lo: real, hi: real, o: real, d: real): (r: (real, real))
    requires d != 0.0
    ensures r.0 <= r.1
  {
    Sorted((lo - o) / d, (hi - o) / d)
  }

  /** The ray is inside the slab exactly between its entry and exit times. */
  lemma SlabContains(lo: real, hi: real, o: real, d: real, t: real)
    requires d != 0.0
    ensures Between(o + d * t, lo, hi) <==> Slab(lo, hi, o, d).0 <= t <= Slab(lo, hi, o, d).1
  {
    var a, b := (lo - o) / d, (hi - o) / d;
    Crossing(lo, o, d, t);
    Crossing(hi, o, d, t);
    assert o + d * b == hi;
    Crossing(lo, o, d, b);
  }

  /**
   * When the ray `o + t d` is past the plane at `p`: for d > 0 from time
   * `(p - o) / d` on, for d < 0 up to that time.
   */
  lemma Crossing(p: real, o: real, d: real, t: real)
    requires d != 0.0
    ensures d > 0.0 ==> (p <= o + d * t <==> (p - o) / d <= t) && (o + d * t <= p <==> t <= (p - o) / d)
    ensures d < 0.0 ==> (p <= o + d * t <==> t <= (p - o) / d) && (o + d * t <= p <==> (p - o) / d <= t)
  {
    var a := (p - o) / d;
    assert o + d * t - p == (t - a) * d;
    SignOfProduct(t - a, d);
  }

  lemma SignOfProduct(x: real, d: real)
    requires d != 0.0
    ensures d > 0.0 ==> (x * d >= 0.0 <==> x >= 0.0) && (x * d <= 0.0 <==> x <= 0.0)
    ensures d < 0.0 ==> (x * d >= 0.0 <==> x <= 0.0) && (x * d <= 0.0 <==> x >= 0.0)
  {
    if d > 0.0 {
      if x > 0.0 { assert x * d > 0.0; }
      if x < 0.0 { assert x * d < 0.0; }
    } else {
      if x > 0.0 { assert x * d < 0.0; }
      if x < 0.0 { assert x * d > 0.0; }
    }
  }

  /** None of the ray direction's components is zero. */
  predicate AxisFree(d: Vec3)
  {
    d.x != 0.0 && d.y != 0.0 && d.z != 0.0
  }

  /**
   * `ray_intersect`: the slab test as the source runs it.  The x and y slabs
   * are intersected, with an early miss when they are disjoint, then the z
   * slab likewise; an interval lying wholly behind the origin misses.  A hit
   * is reported at the entry time, which is negative when the origin lies
   * inside the box.
   */
  function RayIntersect(c: Cube, o: Vec3, d: Vec3): (r: Intersect)
    requires AxisFree(d) && NonDegenerate(c)
    ensures !r.isIntersecting ==> r == Empty()
    ensures r.isIntersecting ==> r.point == PointAt(o, d, r.distance) && r.material == c.material
    ensures r.isIntersecting ==> r.normal == CalculateNormal(c, r.point) && (r.u, r.v) == GetUv(c, r.point)
  {
    var (tmin, tmax) := Slab(c.min.x, c.max.x, o.x, d.x);
    var (tymin, tymax) := Slab(c.min.y, c.max.y, o.y, d.y);
    if tmin > tymax || tymin > tmax then Empty()
    else
      var tmin, tmax := Max(tmin, tymin), Min(tmax, tymax);
      var (tzmin, tzmax) := Slab(c.min.z, c.max.z, o.z, d.z);
      if tmin > tzmax || tzmin > tmax then Empty()
      else
        var tmin, tmax := Max(tmin, tzmin), Min(tmax, tzmax);
        if tmin < 0.0 && tmax < 0.0 then Empty()
        else
          var point := PointAt(o, d, tmin);
          var (u, v) := GetUv(c, point);
          Intersect(point, tmin, CalculateNormal(c, point), c.material, true, u, v)
  }

  /** The latest entry and the earliest exit over the three slabs. */
  function Entry(c: Cube, o: Vec3, d: Vec3): real
    requires AxisFree(d)
  {
    Max(Max(Slab(c.min.x, c.max.x, o.x, d.x).0, Slab(c.min.y, c.max.y, o.y, d.y).0), Slab(c.min.z, c.max.z, o.z, d.z).0)
  }

  function Exit(c: Cube, o: Vec3, d: Vec3): real
    requires AxisFree(d)
  {
    Min(Min(Slab(c.min.x, c.max.x, o.x, d.x).1, Slab(c.min.y, c.max.y, o.y, d.y).1), Slab(c.min.z, c.max.z, o.z, d.z).1)
  }

  /** The ray is inside the box exactly between the latest entry and the earliest exit. */
  lemma InBoxBetweenEntryExit(c: Cube, o: Vec3, d: Vec3, t: real)
    requires AxisFree(d)
    ensures InBox(c, PointAt(o, d, t)) <==> Entry(c, o, d) <= t <= Exit(c, o, d)
  {
    var q := PointAt(o, d, t);
    var sx, sy, sz := Slab(c.min.x, c.max.x, o.x, d.x), Slab(c.min.y, c.max.y, o.y, d.y), Slab(c.min.z, c.max.z, o.z, d.z);
    AxisInside(c.min.x, c.max.x, o.x, d.x, t, q.x);
    AxisInside(c.min.y, c.max.y, o.y, d.y, t, q.y);
    AxisInside(c.min.z, c.max.z, o.z, d.z, t, q.z);
    IntervalMeet(sx, sy, sz, t);
  }

  lemma AxisInside(lo: real, hi: real, o: real, d: real, t: real, q: real)
    requires d != 0.0 && q == o + d * t
    ensures Between(q, lo, hi) <==> Slab(lo, hi, o, d).0 <= t <= Slab(lo, hi, o, d).1
  {
    SlabContains(lo, hi, o, d, t);
  }

  /** A time lies in all three intervals exactly when it lies in their intersection. */
  lemma IntervalMeet(sx: (real, real), sy: (real, real), sz: (real, real), t: real)
    ensures Max(Max(sx.0, sy.0), sz.0) <= t <= Min(Min(sx.1, sy.1), sz.1)
      <==> sx.0 <= t <= sx.1 && sy.0 <= t <= sy.1 && sz.0 <= t <= sz.1
  {
  }

  /**
   * The early exits of the source decide the same thing as the interval
   * test: a hit exactly when the entry precedes the exit and the exit is not
   * behind the origin, reported at the entry time.
   */
  lemma RayIntersectInterval(c: Cube, o: Vec3, d: Vec3)
    requires AxisFree(d) && NonDegenerate(c)
    ensures RayIntersect(c, o, d).isIntersecting <==> Entry(c, o, d) <= Exit(c, o, d) && Exit(c, o, d) >= 0.0
    ensures RayIntersect(c, o, d).isIntersecting ==> RayIntersect(c, o, d).distance == Entry(c, o, d)
  {
  }

  /**
   * A hit is reported exactly when some point of the ray at or beyond its
   * origin lies in the box.
   */
  lemma RayIntersectHitsIffReachable(c: Cube, o: Vec3, d: Vec3)
    requires AxisFree(d) && NonDegenerate(c)
    ensures RayIntersect(c, o, d).isIntersecting <==> exists t :: t >= 0.0 && InBox(c, PointAt(o, d, t))
  {
    RayIntersectInterval(c, o, d);
    var entry, exit := Entry(c, o, d), Exit(c, o, d);
    if RayIntersect(c, o, d).isIntersecting {
      var t := Max(entry, 0.0);
      InBoxBetweenEntryExit(c, o, d, t);
    }
    if exists t :: t >= 0.0 && InBox(c, PointAt(o, d, t)) {
      var t :| t >= 0.0 && InBox(c, PointAt(o, d, t));
      InBoxBetweenEntryExit(c, o, d, t);
    }
  }

  /**
   * On a hit the reported point is in the box and its distance is the
   * earliest time at which the ray's line is in the box.
   */
  lemma RayIntersectNearest(c: Cube, o: Vec3, d: Vec3, t: real)
    requires AxisFree(d) && NonDegenerate(c)
    requires RayIntersect(c, o, d).isIntersecting
    ensures InBox(c, RayIntersect(c, o, d).point)
    ensures InBox(c, PointAt(o, d, t)) ==> RayIntersect(c, o, d).distance <= t
  {
    RayIntersectInterval(c, o, d);
    InBoxBetweenEntryExit(c, o, d, Entry(c, o, d));
    InBoxBetweenEntryExit(c, o, d, t);
  }

  /**
   * With the origin inside the box the hit lies behind it: the unit box seen
   * from its centre along (1, 1, 1) is hit at distance -0.5.
   */
  lemma RayIntersectFromInside()
    ensures var r := RayIntersect(Cube(Zero, Vec3(1.0, 1.0, 1.0), Materials.Black()), Vec3(0.5, 0.5, 0.5), Vec3(1.0, 1.0, 1.0));
      r.isIntersecting && r.distance == -0.5 && r.point == Zero
  {
  }

  /**
   * Swapping the two y bounds, as the scene does for some boxes, changes
   * neither whether the ray hits nor where.
   */
  lemma RayIntersectSwapY(c: Cube, o: Vec3, d: Vec3)
    requires AxisFree(d) && NonDegenerate(c)
    ensures var c' := c.(min := c.min.(y := c.max.y), max := c.max.(y := c.min.y));
      var r, r' := RayIntersect(c, o, d), RayIntersect(c', o, d);
      && r'.isIntersecting == r.isIntersecting
      && (r.isIntersecting ==> r'.distance == r.distance && r'.point == r.point)
  {
    var c' := c.(min := c.min.(y := c.max.y), max := c.max.(y := c.min.y));
    RayIntersectInterval(c, o, d);
    RayIntersectInterval(c', o, d);
    assert Slab(c'.min.y, c'.max.y, o.y, d.y) == Slab(c.min.y, c.max.y, o.y, d.y);
  }
}
