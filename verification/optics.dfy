/**
 * Mirror reflection and refraction of a ray direction about a surface normal
 * (`reflect` and `refract` in src/main.rs), as vector algebra over `real`.
 * The square root `refract` takes is a parameter.
 */
module Optics {
  import opened Vectors
  import opened Numeric

  /**
   * `reflect(i, n) = i - 2 (i . n) n`: the part of `i` along the surface is
   * kept, and about a unit normal the part along the normal is reversed.
   */
  function Reflect(i: Vec3, n: Vec3): (r: Vec3)
    ensures r.Cross(n) == i.Cross(n)
    ensures IsUnit(n) ==> r.Dot(n) == -i.Dot(n)
  {
    SubKeepsTangent(i, n, 2.0 * i.Dot(n));
    SubFlipsNormal(i, n);
    i.Sub(n.Scale(2.0 * i.Dot(n)))
  }

  /** Removing twice the normal component reverses it, for a unit normal. */
  lemma SubFlipsNormal(i: Vec3, n: Vec3)
    ensures IsUnit(n) ==> i.Sub(n.Scale(2.0 * i.Dot(n))).Dot(n) == -i.Dot(n)
  {
    var k := 2.0 * i.Dot(n);
    assert i.Sub(n.Scale(k)).Dot(n) == i.Dot(n) - k * n.Dot(n);
  }

  /** Reflection keeps the part of `i` tangent to the surface: `r x n == i x n`, for any n. */
  lemma ReflectKeepsTangent(i: Vec3, n: Vec3)
    ensures Reflect(i, n).Cross(n) == i.Cross(n)
  {
    SubKeepsTangent(i, n, 2.0 * i.Dot(n));
  }

  /** Removing any multiple of `n` keeps the cross product with `n`. */
  lemma SubKeepsTangent(i: Vec3, n: Vec3, k: real)
    ensures i.Sub(n.Scale(k)).Cross(n) == i.Cross(n)
  {
    var r := i.Sub(n.Scale(k));
    assert r.x == i.x - n.x * k && r.y == i.y - n.y * k && r.z == i.z - n.z * k;
    CrossSubComponent(i.y, n.y, i.z, n.z, k, r.y, r.z);
    CrossSubComponent(i.z, n.z, i.x, n.x, k, r.z, r.x);
    CrossSubComponent(i.x, n.x, i.y, n.y, k, r.x, r.y);
  }

  /** Removing a multiple of `n` leaves a component of the cross product with `n` unchanged. */
  lemma CrossSubComponent(p: real, q: real, r: real, s: real, k: real, u: real, w: real)
    requires u == p - q * k && w == r - s * k
    ensures u * s - w * q == p * s - r * q
  {
    assert (p - q * k) * s == p * s - q * k * s;
    assert (r - s * k) * q == r * q - s * k * q;
    assert q * k * s == s * k * q;
  }

  /** About a unit normal, reflection flips the normal component. */
  lemma ReflectFlipsNormalComponent(i: Vec3, n: Vec3)
    requires IsUnit(n)
    ensures Reflect(i, n).Dot(n) == -i.Dot(n)
  {
    var k := 2.0 * i.Dot(n);
    assert Reflect(i, n).Dot(n) == i.Dot(n) - k * n.Dot(n);
  }

  /** About a unit normal, reflecting twice gives back the incident direction. */
  lemma ReflectInvolution(i: Vec3, n: Vec3)
    requires IsUnit(n)
    ensures Reflect(Reflect(i, n), n) == i
  {
    ReflectFlipsNormalComponent(i, n);
    var r := Reflect(i, n);
    assert 2.0 * r.Dot(n) == -(2.0 * i.Dot(n));
  }

  /** About a unit normal, reflection preserves length. */
  lemma ReflectPreservesLength(i: Vec3, n: Vec3)
    requires IsUnit(n)
    ensures Reflect(i, n).Dot(Reflect(i, n)) == i.Dot(i)
  {
    var k := 2.0 * i.Dot(n);
    assert Reflect(i, n) == i.Sub(n.Scale(k));
    SubLength(i, n, k);
  }

  /** `|i - k n|^2 = |i|^2 - 2k (i . n) + k^2 |n|^2`. */
  lemma SubLength(i: Vec3, n: Vec3, k: real)
    ensures i.Sub(n.Scale(k)).Dot(i.Sub(n.Scale(k))) == i.Dot(i) - 2.0 * k * i.Dot(n) + k * k * n.Dot(n)
  {
    var r := i.Sub(n.Scale(k));
    assert r.x == i.x - k * n.x && r.y == i.y - k * n.y && r.z == i.z - k * n.z;
    assert (i.x - k * n.x) * (i.x - k * n.x) == i.x * i.x - 2.0 * k * (i.x * n.x) + k * k * (n.x * n.x);
    assert (i.y - k * n.y) * (i.y - k * n.y) == i.y * i.y - 2.0 * k * (i.y * n.y) + k * k * (n.y * n.y);
    assert (i.z - k * n.z) * (i.z - k * n.z) == i.z * i.z - 2.0 * k * (i.z * n.z) + k * k * (n.z * n.z);
  }

  /** Lagrange's identity: |a|^2 |b|^2 - (a . b)^2 = |a x b|^2. */
  lemma Lagrange(a: Vec3, b: Vec3)
    ensures a.Dot(a) * b.Dot(b) - a.Dot(b) * a.Dot(b) == a.Cross(b).Dot(a.Cross(b))
  {
  }

  /** For unit vectors the cosine of the angle between them lies in [-1, 1]. */
  lemma UnitCosineBound(a: Vec3, b: Vec3)
    requires IsUnit(a) && IsUnit(b)
    ensures -1.0 <= a.Dot(b) <= 1.0
  {
    Lagrange(a, b);
    var c := a.Dot(b);
    assert c * c <= 1.0;
    SquareAboveOne(c);
  }

  /** A number of magnitude above 1 squares to more than 1. */
  lemma SquareAboveOne(c: real)
    ensures c > 1.0 || c < -1.0 ==> c * c > 1.0
  {
    if c > 1.0 {
      MulStrict(c, 1.0, c);
    } else if c < -1.0 {
      MulStrict(-c, 1.0, -c);
    }
  }

  lemma MulStrict(a: real, b: real, c: real)
    requires a > 0.0 && b < c
    ensures a * b < a * c
  {
  }

  /** `(a e + n m) . w = e (a . w) + m (n . w)`. */
  lemma DotOfCombination(a: Vec3, e: real, n: Vec3, m: real, w: Vec3)
    ensures a.Scale(e).Add(n.Scale(m)).Dot(w) == e * a.Dot(w) + m * n.Dot(w)
  {
  }

  /** `|a e + n m|^2 = e^2 |a|^2 + 2 e m (a . n) + m^2 |n|^2`. */
  lemma NormOfCombination(a: Vec3, e: real, n: Vec3, m: real)
    ensures var b := a.Scale(e).Add(n.Scale(m));
      b.Dot(b) == e * e * a.Dot(a) + 2.0 * e * m * a.Dot(n) + m * m * n.Dot(n)
  {
    var b := a.Scale(e).Add(n.Scale(m));
    DotOfCombination(a, e, n, m, b);
    DotOfCombination(a, e, n, m, a);
    DotOfCombination(a, e, n, m, n);
    assert b.Dot(b) == e * b.Dot(a) + m * b.Dot(n);
  }

  /** `(a e + n m) x n = (a x n) e`. */
  lemma CrossOfCombination(a: Vec3, e: real, n: Vec3, m: real)
    ensures a.Scale(e).Add(n.Scale(m)).Cross(n) == a.Cross(n).Scale(e)
  {
    CrossOfCombinationX(a, e, n, m);
    CrossOfCombinationY(a, e, n, m);
    CrossOfCombinationZ(a, e, n, m);
  }

  lemma CrossOfCombinationX(a: Vec3, e: real, n: Vec3, m: real)
    ensures a.Scale(e).Add(n.Scale(m)).Cross(n).x == a.Cross(n).Scale(e).x
  {
    CrossComponent(a.y, a.z, n.y, n.z, e, m);
    var b := a.Scale(e).Add(n.Scale(m));
    assert b.y == a.y * e + n.y * m;
    assert b.z == a.z * e + n.z * m;
    assert b.Cross(n).x == (a.y * e + n.y * m) * n.z - (a.z * e + n.z * m) * n.y;
    assert a.Cross(n).Scale(e).x == (a.y * n.z - a.z * n.y) * e;
  }

  lemma CrossOfCombinationY(a: Vec3, e: real, n: Vec3, m: real)
    ensures a.Scale(e).Add(n.Scale(m)).Cross(n).y == a.Cross(n).Scale(e).y
  {
    CrossComponent(a.z, a.x, n.z, n.x, e, m);
    var b := a.Scale(e).Add(n.Scale(m));
    assert b.z == a.z * e + n.z * m;
    assert b.x == a.x * e + n.x * m;
    assert b.Cross(n).y == (a.z * e + n.z * m) * n.x - (a.x * e + n.x * m) * n.z;
    assert a.Cross(n).Scale(e).y == (a.z * n.x - a.x * n.z) * e;
  }

  lemma CrossOfCombinationZ(a: Vec3, e: real, n: Vec3, m: real)
    ensures a.Scale(e).Add(n.Scale(m)).Cross(n).z == a.Cross(n).Scale(e).z
  {
    CrossComponent(a.x, a.y, n.x, n.y, e, m);
    var b := a.Scale(e).Add(n.Scale(m));
    assert b.x == a.x * e + n.x * m;
    assert b.y == a.y * e + n.y * m;
    assert b.Cross(n).z == (a.x * e + n.x * m) * n.y - (a.y * e + n.y * m) * n.x;
    assert a.Cross(n).Scale(e).z == (a.x * n.y - a.y * n.x) * e;
  }

  /** One component of `(a e + n m) x n = (a x n) e`, written out over the coordinates. */
  lemma CrossComponent(ap: real, aq: real, np: real, nq: real, e: real, m: real)
    ensures (ap * e + np * m) * nq - (aq * e + nq * m) * np == (ap * nq - aq * np) * e
  {
    assert (ap * e + np * m) * nq == ap * e * nq + np * m * nq;
    assert (aq * e + nq * m) * np == aq * e * np + nq * m * np;
    assert np * m * nq == nq * m * np;
  }

  /**
   * The quantities `refract` derives before bending the ray: the cosine of
   * the incidence angle measured against the oriented normal, the index
   * ratio and the oriented normal itself.
   */
  datatype Orientation = Orientation(cosine: real, eta: real, normal: Vec3)

  /**
   * `-incident.dot(normal).max(-1.0).min(1.0)`: in Rust the method calls bind
   * tighter than the unary minus, so this is the negated, clamped cosine.
   */
  function SignedCosine(i: Vec3, n: Vec3): real
  {
    -Clamp(i.Dot(n), -1.0, 1.0)
  }

  /**
   * The orientation as the source computes it.  A negative `cosi` means the
   * ray travels along the normal, out of the object; the source nevertheless
   * gives that case the ratio `1 / eta_t` and the other case `eta_t`.
   */
  function OrientAsWritten(i: Vec3, n: Vec3, etaT: real): (o: Orientation)
    requires etaT != 0.0
    ensures o.cosine >= 0.0
  {
    var cosi := SignedCosine(i, n);
    if cosi < 0.0 then Orientation(-cosi, 1.0 / etaT, n.Neg())
    else Orientation(cosi, etaT, n)
  }

  /**
   * The orientation with the index ratio the other way round: entering the
   * object (against the normal) divides by `eta_t`, leaving multiplies by it.
   */
  function Orient(i: Vec3, n: Vec3, etaT: real): (o: Orientation)
    requires etaT != 0.0
    ensures o.cosine >= 0.0
  {
    var cosi := SignedCosine(i, n);
    if cosi < 0.0 then Orientation(-cosi, etaT, n.Neg())
    else Orientation(cosi, 1.0 / etaT, n)
  }

  /** The two orientations differ only in the index ratio, which they invert. */
  lemma OrientSwapsEta(i: Vec3, n: Vec3, etaT: real)
    requires etaT != 0.0
    ensures Orient(i, n, etaT).cosine == OrientAsWritten(i, n, etaT).cosine
    ensures Orient(i, n, etaT).normal == OrientAsWritten(i, n, etaT).normal
    ensures Orient(i, n, etaT).eta * OrientAsWritten(i, n, etaT).eta == 1.0
  {
  }

  /** `k = 1 - eta^2 (1 - cos^2)`, negative under total internal reflection. */
  function K(o: Orientation): real
  {
    1.0 - o.eta * o.eta * (1.0 - o.cosine * o.cosine)
  }

  /** The refraction branch: `eta i + (eta cos - sqrt k) n`. */
  function Bend(i: Vec3, o: Orientation, sqrt: real -> real): Vec3
  {
    i.Scale(o.eta).Add(o.normal.Scale(o.eta * o.cosine - sqrt(K(o))))
  }

  /**
   * The shared tail of `refract`: reflect when k < 0, bend otherwise.  The
   * part along the surface is kept under total internal reflection and
   * scaled by the index ratio otherwise (Snell's law).
   */
  function RefractOriented(i: Vec3, o: Orientation, sqrt: real -> real): (r: Vec3)
    ensures r.Cross(o.normal) == Tangent(i, o)
  {
    BendSnell(i, o, sqrt);
    if K(o) < 0.0 then Reflect(i, o.normal) else Bend(i, o, sqrt)
  }

  /** The tangential part `refract` gives the outgoing ray under orientation `o`. */
  function Tangent(i: Vec3, o: Orientation): Vec3
  {
    if K(o) < 0.0 then i.Cross(o.normal) else i.Cross(o.normal).Scale(o.eta)
  }

  /** `refract` as written: Snell's law with the orientation and ratio the code computes. */
  function RefractAsWritten(i: Vec3, n: Vec3, etaT: real, sqrt: real -> real): (r: Vec3)
    requires etaT != 0.0
    ensures r.Cross(OrientAsWritten(i, n, etaT).normal) == Tangent(i, OrientAsWritten(i, n, etaT))
  {
    RefractOriented(i, OrientAsWritten(i, n, etaT), sqrt)
  }

  /** `refract` with the index ratio the right way round: Snell's law with the corrected ratio. */
  function Refract(i: Vec3, n: Vec3, etaT: real, sqrt: real -> real): (r: Vec3)
    requires etaT != 0.0
    ensures r.Cross(Orient(i, n, etaT).normal) == Tangent(i, Orient(i, n, etaT))
  {
    RefractOriented(i, Orient(i, n, etaT), sqrt)
  }

  /** `s` is the exact non-negative square root of `x`. */
  predicate ExactSqrt(sqrt: real -> real, x: real)
  {
    x >= 0.0 ==> sqrt(x) >= 0.0 && sqrt(x) * sqrt(x) == x
  }

  /**
   * For unit vectors, the oriented cosine really is the cosine of the angle
   * between the ray and the oriented normal, reversed: `i . N == -cos`.
   */
  lemma OrientedCosine(i: Vec3, n: Vec3, etaT: real)
    requires IsUnit(i) && IsUnit(n) && etaT != 0.0
    ensures i.Dot(Orient(i, n, etaT).normal) == -Orient(i, n, etaT).cosine
    ensures i.Dot(OrientAsWritten(i, n, etaT).normal) == -OrientAsWritten(i, n, etaT).cosine
    ensures Orient(i, n, etaT).cosine <= 1.0
  {
    UnitCosineBound(i, n);
    assert SignedCosine(i, n) == -i.Dot(n);
    DotNeg(i, n);
  }

  /** `i . (-n) = -(i . n)`. */
  lemma DotNeg(i: Vec3, n: Vec3)
    ensures i.Dot(n.Neg()) == -i.Dot(n)
  {
    assert i.Dot(n.Neg()) == i.x * -n.x + i.y * -n.y + i.z * -n.z;
  }

  /** Snell's law in vector form: the bent ray's tangential part is eta times the incident one's. */
  lemma BendSnell(i: Vec3, o: Orientation, sqrt: real -> real)
    ensures Bend(i, o, sqrt).Cross(o.normal) == i.Cross(o.normal).Scale(o.eta)
  {
    CrossOfCombination(i, o.eta, o.normal, o.eta * o.cosine - sqrt(K(o)));
  }

  /**
   * With an exact square root, a unit ray and a unit normal, the refracted
   * ray has unit length: `refract` needs no renormalisation.  This holds for
   * the program's orientation and for the corrected one alike.
   */
  lemma RefractAsWrittenUnit(i: Vec3, n: Vec3, etaT: real, sqrt: real -> real)
    requires IsUnit(i) && IsUnit(n) && etaT != 0.0
    requires ExactSqrt(sqrt, K(OrientAsWritten(i, n, etaT)))
    ensures IsUnit(RefractAsWritten(i, n, etaT, sqrt))
  {
    var o := OrientAsWritten(i, n, etaT);
    OrientedCosine(i, n, etaT);
    OrientedNormalUnit(n, o.normal);
    RefractOrientedUnit(i, o, sqrt);
  }

  /** The same for the corrected `refract`. */
  lemma RefractUnit(i: Vec3, n: Vec3, etaT: real, sqrt: real -> real)
    requires IsUnit(i) && IsUnit(n) && etaT != 0.0
    requires ExactSqrt(sqrt, K(Orient(i, n, etaT)))
    ensures IsUnit(Refract(i, n, etaT, sqrt))
  {
    var o := Orient(i, n, etaT);
    OrientedCosine(i, n, etaT);
    OrientedNormalUnit(n, o.normal);
    RefractOrientedUnit(i, o, sqrt);
  }

  /** The oriented normal is `n` or `-n`, so it is a unit vector with `n`. */
  lemma OrientedNormalUnit(n: Vec3, m: Vec3)
    requires IsUnit(n) && (m == n || m == n.Neg())
    ensures IsUnit(m)
  {
    if m == n.Neg() {
      assert m.Dot(m) == n.x * n.x + n.y * n.y + n.z * n.z;
    }
  }

  /** Either branch of the shared tail keeps a unit ray at unit length. */
  lemma RefractOrientedUnit(i: Vec3, o: Orientation, sqrt: real -> real)
    requires IsUnit(i) && IsUnit(o.normal) && i.Dot(o.normal) == -o.cosine
    requires ExactSqrt(sqrt, K(o))
    ensures IsUnit(RefractOriented(i, o, sqrt))
  {
    if K(o) < 0.0 {
      ReflectPreservesLength(i, o.normal);
    } else {
      BendUnit(i, o, sqrt);
    }
  }

  lemma BendUnit(i: Vec3, o: Orientation, sqrt: real -> real)
    requires IsUnit(i) && IsUnit(o.normal) && i.Dot(o.normal) == -o.cosine
    requires K(o) >= 0.0 && ExactSqrt(sqrt, K(o))
    ensures IsUnit(Bend(i, o, sqrt))
  {
    var s, e, c := sqrt(K(o)), o.eta, o.cosine;
    var m := e * c - s;
    var b := Bend(i, o, sqrt);
    NormOfCombination(i, e, o.normal, m);
    assert b.Dot(b) == e * e - 2.0 * e * m * c + m * m;
    assert e * e - 2.0 * e * m * c + m * m == e * e * (1.0 - c * c) + s * s;
  }

  /**
   * Which branch `refract` took can be read off the result: with a grazing
   * angle excluded, the result leaves on the incident side of the surface
   * (positive component along the oriented normal) exactly when k < 0.
   */
  lemma RefractAsWrittenBranchBySide(i: Vec3, n: Vec3, etaT: real, sqrt: real -> real)
    requires IsUnit(i) && IsUnit(n) && etaT != 0.0
    requires ExactSqrt(sqrt, K(OrientAsWritten(i, n, etaT)))
    requires OrientAsWritten(i, n, etaT).cosine > 0.0 && K(OrientAsWritten(i, n, etaT)) != 0.0
    ensures RefractAsWritten(i, n, etaT, sqrt).Dot(OrientAsWritten(i, n, etaT).normal) > 0.0
        <==> K(OrientAsWritten(i, n, etaT)) < 0.0
  {
    var o := OrientAsWritten(i, n, etaT);
    OrientedCosine(i, n, etaT);
    OrientedNormalUnit(n, o.normal);
    RefractOrientedBranchBySide(i, o, sqrt);
  }

  /** The same for the corrected `refract`. */
  lemma RefractBranchBySide(i: Vec3, n: Vec3, etaT: real, sqrt: real -> real)
    requires IsUnit(i) && IsUnit(n) && etaT != 0.0
    requires ExactSqrt(sqrt, K(Orient(i, n, etaT)))
    requires Orient(i, n, etaT).cosine > 0.0 && K(Orient(i, n, etaT)) != 0.0
    ensures Refract(i, n, etaT, sqrt).Dot(Orient(i, n, etaT).normal) > 0.0 <==> K(Orient(i, n, etaT)) < 0.0
  {
    var o := Orient(i, n, etaT);
    OrientedCosine(i, n, etaT);
    OrientedNormalUnit(n, o.normal);
    RefractOrientedBranchBySide(i, o, sqrt);
  }

  /** The shared tail leaves on the incident side exactly when it reflects. */
  lemma RefractOrientedBranchBySide(i: Vec3, o: Orientation, sqrt: real -> real)
    requires IsUnit(o.normal) && i.Dot(o.normal) == -o.cosine && o.cosine > 0.0
    requires ExactSqrt(sqrt, K(o)) && K(o) != 0.0
    ensures RefractOriented(i, o, sqrt).Dot(o.normal) > 0.0 <==> K(o) < 0.0
  {
    if K(o) < 0.0 {
      ReflectSide(i, o);
    } else {
      BendSide(i, o, sqrt);
    }
  }

  /** The reflected ray leaves on the incident side. */
  lemma ReflectSide(i: Vec3, o: Orientation)
    requires IsUnit(o.normal) && i.Dot(o.normal) == -o.cosine && o.cosine > 0.0
    ensures Reflect(i, o.normal).Dot(o.normal) > 0.0
  {
    ReflectFlipsNormalComponent(i, o.normal);
  }

  /** With k > 0 the bent ray crosses to the other side. */
  lemma BendSide(i: Vec3, o: Orientation, sqrt: real -> real)
    requires IsUnit(o.normal) && i.Dot(o.normal) == -o.cosine
    requires K(o) > 0.0 && ExactSqrt(sqrt, K(o))
    ensures Bend(i, o, sqrt).Dot(o.normal) < 0.0
  {
    var r := sqrt(K(o));
    assert r != 0.0;
    var N := o.normal;
    DotOfCombination(i, o.eta, N, o.eta * o.cosine - r, N);
    assert Bend(i, o, sqrt).Dot(N) == o.eta * i.Dot(N) + (o.eta * o.cosine - r) * N.Dot(N);
    assert o.eta * i.Dot(N) == -(o.eta * o.cosine);
  }

  /**
   * Entering a denser medium (eta_t >= 1) from outside never totally
   * reflects: k stays non-negative.
   */
  lemma NoTotalReflectionOnEntry(i: Vec3, n: Vec3, etaT: real)
    requires IsUnit(i) && IsUnit(n) && etaT >= 1.0
    requires i.Dot(n) <= 0.0
    ensures K(Orient(i, n, etaT)) >= 0.0
  {
    UnitCosineBound(i, n);
    var o := Orient(i, n, etaT);
    var e := o.eta;
    assert e == 1.0 / etaT;
    assert 0.0 < e <= 1.0;
    assert 0.0 <= 1.0 - o.cosine * o.cosine <= 1.0 by {
      assert 0.0 <= o.cosine <= 1.0;
      assert o.cosine * o.cosine <= 1.0 * o.cosine;
    }
    assert e * e <= 1.0;
    var t := 1.0 - o.cosine * o.cosine;
    assert e * e * t <= t;
  }

  /** A unit ray heading down into a surface whose normal points up, about 53 degrees off the normal. */
  const SteepRay: Vec3 := Vec3(0.8, -0.6, 0.0)
  const Up: Vec3 := Vec3(0.0, 1.0, 0.0)

  /** `SteepRay` and `Up` are unit vectors, and the ray travels against the normal. */
  lemma SteepRayGeometry()
    ensures IsUnit(SteepRay) && IsUnit(Up) && SteepRay.Dot(Up) < 0.0
    ensures SignedCosine(SteepRay, Up) == 0.6
  {
    assert SteepRay.Dot(Up) == -0.6;
  }

  /**
   * As written, the ray `SteepRay` entering glass (index 1.5) through a face
   * with normal `Up` gets k < 0, although entering a denser medium never
   * totally reflects; with the ratio the right way round k is positive.
   */
  lemma SteepRayEntering()
    ensures K(OrientAsWritten(SteepRay, Up, 1.5)) < 0.0
    ensures K(Orient(SteepRay, Up, 1.5)) >= 0.0
  {
    SteepRayOrientAsWritten();
    SteepRayOrient();
    KExample(OrientAsWritten(SteepRay, Up, 1.5), Orient(SteepRay, Up, 1.5));
  }

  lemma SteepRayOrientAsWritten()
    ensures OrientAsWritten(SteepRay, Up, 1.5) == Orientation(0.6, 1.5, Up)
  {
    SteepRayGeometry();
  }

  lemma SteepRayOrient()
    ensures Orient(SteepRay, Up, 1.5) == Orientation(0.6, 1.0 / 1.5, Up)
  {
    SteepRayGeometry();
  }

  /** So `refract` as written sends that entering ray back as a mirror reflection. */
  lemma RefractAsWrittenReflectsOnEntry(sqrt: real -> real)
    ensures RefractAsWritten(SteepRay, Up, 1.5, sqrt) == Reflect(SteepRay, Up)
  {
    SteepRayEntering();
    SteepRayOrientAsWritten();
  }

  /** With the ratio the right way round the same ray is bent into the glass. */
  lemma RefractBendsOnEntry(sqrt: real -> real)
    ensures Refract(SteepRay, Up, 1.5, sqrt) == Bend(SteepRay, Orient(SteepRay, Up, 1.5), sqrt)
  {
    SteepRayEntering();
  }

  /** k at cosine 0.6: negative for the ratio 1.5, positive for its inverse. */
  lemma KExample(o: Orientation, o': Orientation)
    requires o.cosine == 0.6 && o.eta == 1.5
    requires o'.cosine == 0.6 && o'.eta == 1.0 / 1.5
    ensures K(o) < 0.0 && K(o') >= 0.0
  {
    assert K(o) == 1.0 - 2.25 * 0.64;
    var e := 1.0 / 1.5;
    assert e == 2.0 / 3.0;
    assert e * e == 4.0 / 9.0;
    assert K(o') == 1.0 - (4.0 / 9.0) * 0.64;
  }

  /**
   * A ray meeting the surface head-on passes straight through, whatever the
   * index, in either direction, with either orientation rule.
   */
  lemma NormalIncidencePassesThrough(n: Vec3, etaT: real, sqrt: real -> real)
    requires IsUnit(n) && etaT != 0.0 && ExactSqrt(sqrt, 1.0)
    ensures RefractAsWritten(n.Neg(), n, etaT, sqrt) == n.Neg()
    ensures RefractAsWritten(n, n, etaT, sqrt) == n
    ensures Refract(n.Neg(), n, etaT, sqrt) == n.Neg()
    ensures Refract(n, n, etaT, sqrt) == n
  {
    NegDot(n);
    RootOfOne(sqrt(1.0));
    HeadOnBend(n.Neg(), OrientAsWritten(n.Neg(), n, etaT), sqrt);
    HeadOnBend(n, OrientAsWritten(n, n, etaT), sqrt);
    HeadOnBend(n.Neg(), Orient(n.Neg(), n, etaT), sqrt);
    HeadOnBend(n, Orient(n, n, etaT), sqrt);
  }

  /**
   * At cosine 1 against a normal `-i`, k is 1 and the bend gives `i` back,
   * whatever the ratio.
   */
  lemma HeadOnBend(i: Vec3, o: Orientation, sqrt: real -> real)
    requires o.cosine == 1.0 && o.normal == i.Neg() && sqrt(1.0) == 1.0
    ensures RefractOriented(i, o, sqrt) == i
  {
    assert K(o) == 1.0;
    var e := o.eta;
    assert e * o.cosine - sqrt(K(o)) == e - 1.0;
    var b := Bend(i, o, sqrt);
    assert b.x == i.x * e + (-i.x) * (e - 1.0);
    assert b.y == i.y * e + (-i.y) * (e - 1.0);
    assert b.z == i.z * e + (-i.z) * (e - 1.0);
  }

  lemma NegDot(n: Vec3)
    ensures n.Neg().Dot(n) == -n.Dot(n)
  {
    var m := n.Neg();
    assert m.Dot(n) == m.x * n.x + m.y * n.y + m.z * n.z;
    assert m.x * n.x == -(n.x * n.x);
  }

  /** The only non-negative square root of 1 is 1. */
  lemma RootOfOne(s: real)
    ensures s >= 0.0 && s * s == 1.0 ==> s == 1.0
  {
    SquareAboveOne(s);
    if 0.0 < s < 1.0 {
      MulStrict(s, s, 1.0);
    }
  }
}
