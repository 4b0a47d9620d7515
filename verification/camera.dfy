/**
 * The orbit camera (src/camera.rs) and the frame loop's use of its change
 * flag (src/main.rs): a frame applies the pressed keys' orbit and zoom
 * steps, then renders only if `is_changed` reports a change.
 */
module Cameras {
  import opened Vectors
  import opened Numeric

  /** `Camera`; `has_changed` is private in the source and set by every mutation. */
  datatype Camera = Camera(
    eye: Vec3,
    center: Vec3,
    up: Vec3,
    hasChanged: bool,
    pos: Vec3,
    dir: Vec3,
    fov: real)

  /** `Camera::new`: the given fields, flagged as changed so the first frame renders. */
  function New(eye: Vec3, center: Vec3, up: Vec3, pos: Vec3, dir: Vec3, fov: real): (c: Camera)
    ensures c.hasChanged
    ensures c.eye == eye && c.center == center && c.up == up
    ensures c.pos == pos && c.dir == dir && c.fov == fov
  {
    Camera(eye, center, up, true, pos, dir, fov)
  }

  /**
   * `is_changed`: reports the flag and clears it. The pair holds the answer
   * and the camera after the call.
   */
  function IsChanged(c: Camera): (res: (bool, Camera))
    ensures res.0 == c.hasChanged
    ensures !res.1.hasChanged
    ensures res.1.(hasChanged := c.hasChanged) == c
  {
    if c.hasChanged then (true, c.(hasChanged := false)) else (false, c)
  }

  /** A second poll with no mutation in between reports no change. */
  lemma IsChangedIsEdgeTriggered(c: Camera)
    ensures !IsChanged(IsChanged(c).1).0
    ensures IsChanged(IsChanged(c).1).1 == IsChanged(c).1
  {
  }

  /**
   * The `f32` library calls the camera makes, left uninterpreted:
   * `atan2`, `sin`, `cos`, `sqrt`, and glm's `magnitude` and `normalize`.
   */
  datatype Trig = Trig(
    atan2: (real, real) -> real,
    sin: real -> real,
    cos: real -> real,
    sqrt: real -> real,
    magnitude: Vec3 -> real,
    normalize: Vec3 -> Vec3)

  /** `std::f32::consts::PI`, the exact value of the `f32` nearest to pi. */
  const Pi: real := 3.1415927410125732421875

  /** The pitch is clamped to [-PI/2 + 0.1, PI/2 - 0.1]. */
  const PitchMin: real := -Pi / 2.0 + 0.1
  const PitchMax: real := Pi / 2.0 - 0.1

  /** Integer part of q, rounding toward zero. */
  function Trunc(q: real): int
  {
    if q >= 0.0 then q.Floor else -((-q).Floor)
  }

  /**
   * Rust's `%` on floats: the remainder of a division truncated toward
   * zero, so the result has the sign of the dividend and is smaller than
   * the divisor in magnitude.
   */
  function FRem(x: real, m: real): (r: real)
    requires m > 0.0
    ensures -m < r < m
    ensures x >= 0.0 ==> r >= 0.0
    ensures x <= 0.0 ==> r <= 0.0
    ensures x - r == Trunc(x / m) as real * m
  {
    var q := x / m;
    var k := Trunc(q);
    RemainderBounds(x, m, q, k);
    x - k as real * m
  }

  lemma RemainderBounds(x: real, m: real, q: real, k: int)
    requires m > 0.0 && q == x / m && k == Trunc(q)
    ensures -m < x - k as real * m < m
    ensures x >= 0.0 ==> x - k as real * m >= 0.0
    ensures x <= 0.0 ==> x - k as real * m <= 0.0
  {
    assert x == q * m;
    if q >= 0.0 {
      RemainderBelow(x, m, q, k as real);
    } else {
      var n := (-q).Floor;
      assert k as real == -(n as real);
      RemainderAbove(x, m, q, k as real);
    }
  }

  /** Rounding the quotient down leaves a remainder in [0, m). */
  lemma RemainderBelow(x: real, m: real, q: real, k: real)
    requires m > 0.0 && x == q * m && 0.0 <= k <= q < k + 1.0
    ensures 0.0 <= x - k * m < m
  {
    var f := q - k;
    FractionOfDivisor(f, m);
    assert f * m == q * m - k * m;
    assert x - k * m == f * m;
  }

  /** Rounding a negative quotient up leaves a remainder in (-m, 0]. */
  lemma RemainderAbove(x: real, m: real, q: real, k: real)
    requires m > 0.0 && x == q * m && k - 1.0 < q <= k <= 0.0
    ensures -m < x - k * m <= 0.0
  {
    var f := k - q;
    FractionOfDivisor(f, m);
    assert f * m == k * m - q * m;
    assert x - k * m == -(f * m);
  }

  lemma FractionOfDivisor(f: real, m: real)
    requires 0.0 <= f < 1.0 && m > 0.0
    ensures 0.0 <= f * m < m
  {
  }

  /** The yaw of the eye around the center, `atan2(z, x)` of the radius vector. */
  function CurrentYaw(c: Camera, t: Trig): real
  {
    var rv := c.eye.Sub(c.center);
    t.atan2(rv.z, rv.x)
  }

  /** The pitch of the eye, `atan2(-y, sqrt(x^2 + z^2))` of the radius vector. */
  function CurrentPitch(c: Camera, t: Trig): real
  {
    var rv := c.eye.Sub(c.center);
    t.atan2(-rv.y, t.sqrt(rv.x * rv.x + rv.z * rv.z))
  }

  /**
   * The yaw and pitch `orbit` moves to: the yaw advanced by `deltaYaw` and
   * reduced modulo 2 PI with the sign kept, and the pitch advanced by
   * `deltaPitch` and held inside [PitchMin, PitchMax].
   */
  function OrbitAngles(c: Camera, t: Trig, deltaYaw: real, deltaPitch: real): (angles: (real, real))
    ensures -2.0 * Pi < angles.0 < 2.0 * Pi
    ensures CurrentYaw(c, t) + deltaYaw - angles.0 == Trunc((CurrentYaw(c, t) + deltaYaw) / (2.0 * Pi)) as real * (2.0 * Pi)
    ensures PitchMin <= angles.1 <= PitchMax
    ensures var p := CurrentPitch(c, t) + deltaPitch;
      && (PitchMin <= p <= PitchMax ==> angles.1 == p)
      && (p < PitchMin ==> angles.1 == PitchMin)
      && (p > PitchMax ==> angles.1 == PitchMax)
  {
    (FRem(CurrentYaw(c, t) + deltaYaw, 2.0 * Pi), Clamp(CurrentPitch(c, t) + deltaPitch, PitchMin, PitchMax))
  }

  /**
   * `orbit`: places the eye on the sphere of the current radius around the
   * center, at the new yaw and the clamped pitch, and flags the change.
   */
  function Orbit(c: Camera, t: Trig, deltaYaw: real, deltaPitch: real): (c': Camera)
    ensures c'.hasChanged
    ensures c' == c.(eye := c'.eye, hasChanged := true)
  {
    var radius := t.magnitude(c.eye.Sub(c.center));
    var angles := OrbitAngles(c, t, deltaYaw, deltaPitch);
    var yaw := angles.0;
    var pitch := angles.1;
    var offset := Vec3(radius * t.cos(yaw) * t.cos(pitch), -radius * t.sin(pitch), radius * t.sin(yaw) * t.cos(pitch));
    c.(eye := c.center.Add(offset), hasChanged := true)
  }

  /**
   * Where sine and cosine satisfy sin^2 + cos^2 = 1 at the new angles, the
   * orbit keeps the eye at distance `radius` from the center: the squared
   * length of the new eye-to-center vector is the square of the radius
   * `magnitude` reported.
   */
  lemma OrbitKeepsRadius(c: Camera, t: Trig, deltaYaw: real, deltaPitch: real)
    requires var a := OrbitAngles(c, t, deltaYaw, deltaPitch);
      && t.sin(a.0) * t.sin(a.0) + t.cos(a.0) * t.cos(a.0) == 1.0
      && t.sin(a.1) * t.sin(a.1) + t.cos(a.1) * t.cos(a.1) == 1.0
    ensures var w := Orbit(c, t, deltaYaw, deltaPitch).eye.Sub(c.center);
      var r := t.magnitude(c.eye.Sub(c.center));
      w.Dot(w) == r * r
  {
    var r := t.magnitude(c.eye.Sub(c.center));
    var a := OrbitAngles(c, t, deltaYaw, deltaPitch);
    var cy, sy, cp, sp := t.cos(a.0), t.sin(a.0), t.cos(a.1), t.sin(a.1);
    var offset := Vec3(r * cy * cp, -r * sp, r * sy * cp);
    assert Orbit(c, t, deltaYaw, deltaPitch).eye == c.center.Add(offset);
    AddThenSub(c.center, offset);
    SphereCoordinates(r, cy, sy, cp, sp);
  }

  lemma AddThenSub(p: Vec3, v: Vec3)
    ensures p.Add(v).Sub(p) == v
  {
  }

  /** The squared length of (r cy cp, -r sp, r sy cp) is r^2 on the unit circles. */
  lemma SphereCoordinates(r: real, cy: real, sy: real, cp: real, sp: real)
    requires sy * sy + cy * cy == 1.0
    requires sp * sp + cp * cp == 1.0
    ensures (r * cy * cp) * (r * cy * cp) + (-r * sp) * (-r * sp) + (r * sy * cp) * (r * sy * cp) == r * r
  {
    calc {
      (r * cy * cp) * (r * cy * cp) + (-r * sp) * (-r * sp) + (r * sy * cp) * (r * sy * cp);
      (r * r) * (cp * cp) * (cy * cy + sy * sy) + (r * r) * (sp * sp);
      { assert cy * cy + sy * sy == 1.0; }
      (r * r) * (cp * cp) + (r * r) * (sp * sp);
      (r * r) * (cp * cp + sp * sp);
    }
  }

  /**
   * `zoom`: moves the eye by `amount` along the normalized eye-to-center
   * direction and flags the change; nothing else moves.
   */
  function Zoom(c: Camera, t: Trig, amount: real): (c': Camera)
    ensures c'.hasChanged
    ensures c' == c.(eye := c'.eye, hasChanged := true)
  {
    var direction := t.normalize(c.center.Sub(c.eye));
    c.(eye := c.eye.Add(direction.Scale(amount)), hasChanged := true)
  }

  /**
   * With an exact `normalize` at distance d > 0, zooming by `amount` keeps
   * the eye on its line of sight and changes its distance to the center
   * from d to |d - amount|: the new eye-to-center vector is the old one
   * scaled by (1 - amount / d).
   */
  lemma ZoomAlongSight(c: Camera, t: Trig, amount: real, d: real)
    requires d > 0.0
    requires c.center.Sub(c.eye).Dot(c.center.Sub(c.eye)) == d * d
    requires t.normalize(c.center.Sub(c.eye)) == c.center.Sub(c.eye).Scale(1.0 / d)
    ensures var w := c.center.Sub(Zoom(c, t, amount).eye);
      && w == c.center.Sub(c.eye).Scale(1.0 - amount / d)
      && w.Dot(w) == (d - amount) * (d - amount)
  {
    var v := c.center.Sub(c.eye);
    var k := 1.0 - amount / d;
    ZoomScalesSight(c, t, amount, d);
    ScaledLength(v.x, v.y, v.z, k, d);
    assert k * d == d - amount;
  }

  lemma ZoomScalesSight(c: Camera, t: Trig, amount: real, d: real)
    requires d > 0.0
    requires t.normalize(c.center.Sub(c.eye)) == c.center.Sub(c.eye).Scale(1.0 / d)
    ensures c.center.Sub(Zoom(c, t, amount).eye) == c.center.Sub(c.eye).Scale(1.0 - amount / d)
  {
    assert Zoom(c, t, amount).eye == c.eye.Add(c.center.Sub(c.eye).Scale(1.0 / d).Scale(amount));
    ShrinkAxis(c.center.x, c.eye.x, amount, d);
    ShrinkAxis(c.center.y, c.eye.y, amount, d);
    ShrinkAxis(c.center.z, c.eye.z, amount, d);
  }

  lemma ShrinkAxis(center: real, eye: real, amount: real, d: real)
    requires d > 0.0
    ensures center - (eye + (center - eye) * (1.0 / d) * amount) == (center - eye) * (1.0 - amount / d)
  {
    assert (center - eye) * (1.0 / d) * amount == (center - eye) * (amount / d);
  }

  lemma ScaledLength(x: real, y: real, z: real, k: real, d: real)
    requires x * x + y * y + z * z == d * d
    ensures (x * k) * (x * k) + (y * k) * (y * k) + (z * k) * (z * k) == (k * d) * (k * d)
  {
    calc {
      (x * k) * (x * k) + (y * k) * (y * k) + (z * k) * (z * k);
      (x * x + y * y + z * z) * (k * k);
      (d * d) * (k * k);
    }
  }

  /** A key the frame loop maps to a camera step. */
  datatype Input = OrbitBy(deltaYaw: real, deltaPitch: real) | ZoomBy(amount: real)

  /** The camera step one input makes: it moves only the eye, and flags the change. */
  function Apply(c: Camera, t: Trig, i: Input): (c': Camera)
    ensures c'.hasChanged
    ensures c' == c.(eye := c'.eye, hasChanged := true)
  {
    match i
    case OrbitBy(dy, dp) => Orbit(c, t, dy, dp)
    case ZoomBy(a) => Zoom(c, t, a)
  }

  /** The steps of one frame's inputs, in order. */
  function ApplyAll(c: Camera, t: Trig, inputs: seq<Input>): (c': Camera)
    ensures c'.hasChanged == (c.hasChanged || |inputs| > 0)
    decreases |inputs|
  {
    if |inputs| == 0 then c else ApplyAll(Apply(c, t, inputs[0]), t, inputs[1..])
  }

  /**
   * One pass of the loop in `main`: apply the frame's inputs, then poll
   * `is_changed`; the answer says whether the frame renders.
   */
  function Frame(c: Camera, t: Trig, inputs: seq<Input>): (res: (bool, Camera))
    ensures !res.1.hasChanged
  {
    IsChanged(ApplyAll(c, t, inputs))
  }

  /**
   * The render decisions of consecutive frames, one per frame; the first
   * frame renders when it has a key or the camera starts flagged.
   */
  function Renders(c: Camera, t: Trig, frames: seq<seq<Input>>): (rs: seq<bool>)
    ensures |rs| == |frames|
    ensures |frames| > 0 ==> (rs[0] <==> |frames[0]| > 0 || c.hasChanged)
    decreases |frames|
  {
    if |frames| == 0 then []
    else
      var f := Frame(c, t, frames[0]);
      [f.0] + Renders(f.1, t, frames[1..])
  }

  /**
   * A frame renders exactly when one of its keys moved the camera, or when
   * it is the first frame and the camera starts flagged (as `Camera::new`
   * leaves it): no idle frame is re-rendered and no change is missed.
   */
  lemma {:induction false} RendersExactlyOnChange(c: Camera, t: Trig, frames: seq<seq<Input>>)
    ensures var rs := Renders(c, t, frames);
      forall i :: 0 <= i < |frames| ==> (rs[i] <==> |frames[i]| > 0 || (i == 0 && c.hasChanged))
    decreases |frames|
  {
    if |frames| > 0 {
      var f := Frame(c, t, frames[0]);
      RendersExactlyOnChange(f.1, t, frames[1..]);
      var rs := Renders(c, t, frames);
      assert rs == [f.0] + Renders(f.1, t, frames[1..]);
      forall i | 0 <= i < |frames|
        ensures rs[i] <==> |frames[i]| > 0 || (i == 0 && c.hasChanged)
      {
        if i > 0 {
          assert rs[i] == Renders(f.1, t, frames[1..])[i - 1];
          assert frames[i] == frames[1..][i - 1];
        }
      }
    }
  }
}
