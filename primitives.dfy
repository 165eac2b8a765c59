/**
 * The primitive intersectors of python/raytrace_cpu.py (lines 40-158): the
 * slab test against an axis-aligned box, the sphere, the plane and the
 * finite vertical cylinder. Each returns the distance along the ray and the
 * surface normal of the nearest accepted hit, or `Miss` (Python's
 * `(None, None)`).
 */
module Primitives {
  import opened Vector

  datatype Hit = Miss | Hit(t: real, n: Vec3)

  /** The minimum accepted hit distance, which keeps a ray off its own origin. */
  const MinDistance: real := 1e-4

  /** Dot products and coefficients below this are treated as zero. */
  const ParallelEpsilon: real := 1e-8

  /** The stand-in for 1/c when a direction component c is (nearly) zero. */
  const FarInverse: real := 1e8

  /** How close to a box face a hit point must be to take that face's normal. */
  const FaceEpsilon: real := 1e-4

  function Min(a: real, b: real): real {
    if a <= b then a else b
  }

  // ---------------------------------------------------------------- box

  function SafeInverse(c: real): real {
    if Abs(c) > ParallelEpsilon then 1.0 / c else FarInverse
  }

  /** The slab interval [tmin, tmax] of the ray against the box. */
  function Slabs(ro: Vec3, rd: Vec3, bmin: Vec3, bmax: Vec3): (real, real) {
    var inv := Vec3(SafeInverse(rd.x), SafeInverse(rd.y), SafeInverse(rd.z));
    var t0 := Vec3((bmin.x - ro.x) * inv.x, (bmin.y - ro.y) * inv.y, (bmin.z - ro.z) * inv.z);
    var t1 := Vec3((bmax.x - ro.x) * inv.x, (bmax.y - ro.y) * inv.y, (bmax.z - ro.z) * inv.z);
    var tmin := Max(Max(Min(t0.x, t1.x), Min(t0.y, t1.y)), Min(t0.z, t1.z));
    var tmax := Min(Min(Max(t0.x, t1.x), Max(t0.y, t1.y)), Max(t0.z, t1.z));
    (tmin, tmax)
  }

  /** The six signed unit axis vectors. */
  ghost predicate IsAxisUnit(n: Vec3) {
    || n == Vec3(-1.0, 0.0, 0.0) || n == Vec3(1.0, 0.0, 0.0) || n == Vec3(0.0, -1.0, 0.0)
    || n == Vec3(0.0, 1.0, 0.0) || n == Vec3(0.0, 0.0, -1.0) || n == Vec3(0.0, 0.0, 1.0)
  }

  /**
   * The normal of the face a box hit lies on: the first face within
   * 1e-4 of the point in the order -X, +X, -Y, +Y, -Z, and +Z otherwise.
   */
  function FaceNormal(hit: Vec3, bmin: Vec3, bmax: Vec3): Vec3 {
    if Abs(hit.x - bmin.x) < FaceEpsilon then Vec3(-1.0, 0.0, 0.0)
    else if Abs(hit.x - bmax.x) < FaceEpsilon then Vec3(1.0, 0.0, 0.0)
    else if Abs(hit.y - bmin.y) < FaceEpsilon then Vec3(0.0, -1.0, 0.0)
    else if Abs(hit.y - bmax.y) < FaceEpsilon then Vec3(0.0, 1.0, 0.0)
    else if Abs(hit.z - bmin.z) < FaceEpsilon then Vec3(0.0, 0.0, -1.0)
    else Vec3(0.0, 0.0, 1.0)
  }

  /** The box normal is a signed unit axis vector. */
  lemma FaceNormalUnit(hit: Vec3, bmin: Vec3, bmax: Vec3)
    ensures IsAxisUnit(FaceNormal(hit, bmin, bmax))
  {
  }

  /** A signed unit axis vector has length 1. */
  lemma AxisUnitLength(n: Vec3)
    requires IsAxisUnit(n)
    ensures Dot(n, n) == 1.0
  {
  }

  /** Each face is chosen exactly when no face earlier in the priority order is within 1e-4. */
  lemma FaceNormalPriority(hit: Vec3, bmin: Vec3, bmax: Vec3)
    ensures var n := FaceNormal(hit, bmin, bmax);
      var nx := Abs(hit.x - bmin.x) < FaceEpsilon;
      var px := Abs(hit.x - bmax.x) < FaceEpsilon;
      var ny := Abs(hit.y - bmin.y) < FaceEpsilon;
      var py := Abs(hit.y - bmax.y) < FaceEpsilon;
      var nz := Abs(hit.z - bmin.z) < FaceEpsilon;
      && (n == Vec3(-1.0, 0.0, 0.0) <==> nx)
      && (n == Vec3(1.0, 0.0, 0.0) <==> !nx && px)
      && (n == Vec3(0.0, -1.0, 0.0) <==> !nx && !px && ny)
      && (n == Vec3(0.0, 1.0, 0.0) <==> !nx && !px && !ny && py)
      && (n == Vec3(0.0, 0.0, -1.0) <==> !nx && !px && !ny && !py && nz)
      && (n == Vec3(0.0, 0.0, 1.0) <==> !nx && !px && !ny && !py && !nz)
  {
  }

  /** Python's `ray_aabb`. */
  function RayAabb(ro: Vec3, rd: Vec3, bmin: Vec3, bmax: Vec3): Hit {
    var (tmin, tmax) := Slabs(ro, rd, bmin, bmax);
    SlabHit(ro, rd, bmin, bmax, tmin, tmax)
  }

  /** The rest of `ray_aabb` once the slab interval [tmin, tmax] is known. */
  function SlabHit(ro: Vec3, rd: Vec3, bmin: Vec3, bmax: Vec3, tmin: real, tmax: real): Hit {
    if tmax < 0.0 || tmin > tmax then Miss
    else
      var tHit := if tmin >= MinDistance then tmin else tmax;
      if tHit < MinDistance then Miss
      else Hit(tHit, FaceNormal(Add(ro, Mul(rd, tHit)), bmin, bmax))
  }

  /**
   * Given a slab interval [tmin, tmax], there is a hit exactly when the
   * interval is non-empty and ends at or beyond 1e-4. The distance is then
   * the entry distance if that clears 1e-4 (origin outside the box) and the
   * exit distance otherwise (origin inside), so it lies in the interval; the
   * normal is the face normal at the hit point.
   */
  lemma SlabHitCases(ro: Vec3, rd: Vec3, bmin: Vec3, bmax: Vec3, tmin: real, tmax: real)
    ensures var r := SlabHit(ro, rd, bmin, bmax, tmin, tmax);
      && (tmax < 0.0 || tmin > tmax ==> r == Miss)
      && (r.Hit? <==> tmin <= tmax && tmax >= MinDistance)
      && (r.Hit? ==> r.t >= MinDistance && tmin <= r.t <= tmax)
      && (r.Hit? && tmin >= MinDistance ==> r.t == tmin)
      && (r.Hit? && tmin < MinDistance ==> r.t == tmax)
  {
  }

  lemma SlabHitNormal(ro: Vec3, rd: Vec3, bmin: Vec3, bmax: Vec3, tmin: real, tmax: real)
    ensures var r := SlabHit(ro, rd, bmin, bmax, tmin, tmax);
      r.Hit? ==> r.n == FaceNormal(Add(ro, Mul(rd, r.t)), bmin, bmax)
  {
  }

  /** `ray_aabb` is that case analysis applied to the ray's slab interval against the box. */
  lemma RayAabbCases(ro: Vec3, rd: Vec3, bmin: Vec3, bmax: Vec3)
    ensures var (tmin, tmax) := Slabs(ro, rd, bmin, bmax);
      var r := RayAabb(ro, rd, bmin, bmax);
      && (tmax < 0.0 || tmin > tmax ==> r == Miss)
      && (r.Hit? <==> tmin <= tmax && tmax >= MinDistance)
      && (r.Hit? ==> r.t >= MinDistance && tmin <= r.t <= tmax)
      && (r.Hit? && tmin >= MinDistance ==> r.t == tmin)
      && (r.Hit? && tmin < MinDistance ==> r.t == tmax)
      && (r.Hit? ==> r.n == FaceNormal(Add(ro, Mul(rd, r.t)), bmin, bmax) && IsAxisUnit(r.n))
  {
    var (tmin, tmax) := Slabs(ro, rd, bmin, bmax);
    SlabHitCases(ro, rd, bmin, bmax, tmin, tmax);
    SlabHitNormal(ro, rd, bmin, bmax, tmin, tmax);
    var r := RayAabb(ro, rd, bmin, bmax);
    if r.Hit? {
      FaceNormalUnit(Add(ro, Mul(rd, r.t)), bmin, bmax);
    }
  }

  // ---------------------------------------------------------------- quadratics

  /** The coefficients of a*t*t + b*t + c == 0. */
  datatype Quadratic = Quadratic(a: real, b: real, c: real) {
    function Disc(): real { b * b - 4.0 * a * c }

    /** t solves a*t*t + b*t + c == 0. */
    predicate Solves(t: real) { a * t * t + b * t + c == 0.0 }
  }

  /** The two roots (-b -+ sqrt(disc)) / 2a. */
  function NearRoot(m: MathLib, q: Quadratic): real
    requires q.a != 0.0
  {
    (-q.b - m.sqrt(q.Disc())) / (2.0 * q.a)
  }

  function FarRoot(m: MathLib, q: Quadratic): real
    requires q.a != 0.0
  {
    (-q.b + m.sqrt(q.Disc())) / (2.0 * q.a)
  }

  lemma ProductZero(k: real, x: real)
    requires k != 0.0 && k * x == 0.0
    ensures x == 0.0
  {
    assert x == (k * x) / k;
  }

  /** Both roots solve the quadratic, and the near root is the smaller one when a > 0. */
  lemma {:induction false} RootsSolve(m: MathLib, q: Quadratic)
    requires IsSqrt(m) && q.a != 0.0 && q.Disc() >= 0.0
    ensures q.Solves(NearRoot(m, q)) && q.Solves(FarRoot(m, q))
    ensures q.a > 0.0 ==> NearRoot(m, q) <= FarRoot(m, q)
  {
    var s := m.sqrt(q.Disc());
    assert s >= 0.0 && s * s == q.Disc();
    RootSolves(q, s, NearRoot(m, q));
    RootSolves(q, -s, FarRoot(m, q));
    if q.a > 0.0 {
      var k := 2.0 * q.a;
      assert NearRoot(m, q) * k == -q.b - s;
      assert FarRoot(m, q) * k == -q.b + s;
      assert (FarRoot(m, q) - NearRoot(m, q)) * k == 2.0 * s;
    }
  }

  lemma RootSolves(q: Quadratic, s: real, t: real)
    requires q.a != 0.0 && s * s == q.Disc()
    requires t == (-q.b - s) / (2.0 * q.a)
    ensures q.Solves(t)
  {
    var u := 2.0 * q.a * t;
    assert u == -q.b - s;
    assert (u + q.b) * (u + q.b) == s * s;
    calc {
      4.0 * q.a * (q.a * t * t + q.b * t + q.c);
      (2.0 * q.a * t) * (2.0 * q.a * t) + 2.0 * q.b * (2.0 * q.a * t) + 4.0 * q.a * q.c;
      u * u + 2.0 * q.b * u + 4.0 * q.a * q.c;
      (u + q.b) * (u + q.b) - q.b * q.b + 4.0 * q.a * q.c;
      s * s - q.Disc();
      0.0;
    }
    ProductZero(4.0 * q.a, q.a * t * t + q.b * t + q.c);
  }

  /** (a + b*t)^2 expands into a*a + 2*t*a*b + t*t*b*b. */
  lemma SquareAddMul(a: real, b: real, t: real)
    ensures (a + b * t) * (a + b * t) == a * a + 2.0 * t * (a * b) + t * t * (b * b)
  {
  }

  /** |o + t*d|^2 expands into the quadratic in t. */
  lemma DotAddMulSelf(o: Vec3, d: Vec3, t: real)
    ensures Dot(Add(o, Mul(d, t)), Add(o, Mul(d, t))) == Dot(o, o) + 2.0 * t * Dot(o, d) + t * t * Dot(d, d)
  {
    SquareAddMul(o.x, d.x, t);
    SquareAddMul(o.y, d.y, t);
    SquareAddMul(o.z, d.z, t);
    assert 2.0 * t * Dot(o, d) == 2.0 * t * (o.x * d.x) + 2.0 * t * (o.y * d.y) + 2.0 * t * (o.z * d.z);
    assert t * t * Dot(d, d) == t * t * (d.x * d.x) + t * t * (d.y * d.y) + t * t * (d.z * d.z);
  }

  // ---------------------------------------------------------------- sphere

  function SphereQuadratic(ro: Vec3, rd: Vec3, center: Vec3, radius: real): Quadratic {
    var oc := Sub(ro, center);
    Quadratic(Dot(rd, rd), 2.0 * Dot(oc, rd), Dot(oc, oc) - radius * radius)
  }

  /** The root choice of `ray_sphere` once the quadratic is known to be solvable. */
  function SphereFromRoots(m: MathLib, ro: Vec3, rd: Vec3, center: Vec3, q: Quadratic): Hit
    requires q.a != 0.0
  {
    var t0 := NearRoot(m, q);
    var t1 := FarRoot(m, q);
    if t0 > MinDistance then Hit(t0, Norm(m, Sub(Add(ro, Mul(rd, t0)), center)))
    else if t1 > MinDistance then Hit(t1, Norm(m, Sub(Add(ro, Mul(rd, t1)), center)))
    else Miss
  }

  /** What a Python function call does: return a value or raise ZeroDivisionError. */
  datatype Raised<T> = Returned(value: T) | ZeroDivisionError

  /**
   * `ray_sphere` as written: the roots are computed whenever the
   * discriminant is non-negative, dividing by 2a even when a is 0.
   */
  function RaySphereAsWritten(m: MathLib, ro: Vec3, rd: Vec3, center: Vec3, radius: real): Raised<Hit> {
    var q := SphereQuadratic(ro, rd, center, radius);
    if q.Disc() < 0.0 then Returned(Miss)
    else if 2.0 * q.a == 0.0 then ZeroDivisionError
    else Returned(SphereFromRoots(m, ro, rd, center, q))
  }

  /**
   * `ray_sphere` raises exactly when the direction has zero squared length:
   * then a == 0 and the discriminant b*b is never negative, so the division
   * is reached.
   */
  lemma SphereRaisesIffZeroDirection(m: MathLib, ro: Vec3, rd: Vec3, center: Vec3, radius: real)
    ensures RaySphereAsWritten(m, ro, rd, center, radius).ZeroDivisionError? <==> Dot(rd, rd) == 0.0
  {
    var q := SphereQuadratic(ro, rd, center, radius);
    SquareNonNegative(q.b);
  }

  /** `ray_sphere(ro, (0,0,0), c, r)` raises for every origin, centre and radius. */
  lemma SphereZeroDirectionRaises(m: MathLib, ro: Vec3, center: Vec3, radius: real)
    ensures RaySphereAsWritten(m, ro, Zero, center, radius) == ZeroDivisionError
  {
    SphereRaisesIffZeroDirection(m, ro, Zero, center, radius);
  }

  /** Python's `ray_sphere`, with a zero direction reported as no hit instead of a division by zero. */
  function RaySphere(m: MathLib, ro: Vec3, rd: Vec3, center: Vec3, radius: real): Hit {
    var q := SphereQuadratic(ro, rd, center, radius);
    if q.Disc() < 0.0 then Miss
    else if q.a == 0.0 then Miss
    else SphereFromRoots(m, ro, rd, center, q)
  }

  /**
   * The sphere test rejects a negative discriminant and a zero direction;
   * otherwise it takes the near root whenever that exceeds 1e-4, falls back
   * to the far root, and reports the normalised outward normal.
   */
  lemma RaySphereCases(m: MathLib, ro: Vec3, rd: Vec3, center: Vec3, radius: real)
    ensures var q := SphereQuadratic(ro, rd, center, radius);
      var r := RaySphere(m, ro, rd, center, radius);
      && (q.Disc() < 0.0 || q.a == 0.0 ==> r == Miss)
      && (r.Hit? ==> r.t > MinDistance && r.n == Norm(m, Sub(Add(ro, Mul(rd, r.t)), center)))
      && (q.Disc() >= 0.0 && q.a != 0.0 ==>
           && (NearRoot(m, q) > MinDistance ==> r.Hit? && r.t == NearRoot(m, q))
           && (NearRoot(m, q) <= MinDistance ==> (r.Hit? <==> FarRoot(m, q) > MinDistance))
           && (r.Hit? ==> r.t == NearRoot(m, q) || r.t == FarRoot(m, q)))
  {
  }

  /** Wherever `ray_sphere` returns, the corrected test returns the same. */
  lemma SphereAgreesWhenReturning(m: MathLib, ro: Vec3, rd: Vec3, center: Vec3, radius: real)
    ensures RaySphereAsWritten(m, ro, rd, center, radius).Returned? ==>
      RaySphereAsWritten(m, ro, rd, center, radius).value == RaySphere(m, ro, rd, center, radius)
    ensures rd == Zero ==> RaySphere(m, ro, rd, center, radius) == Miss
  {
  }

  /** A root of the sphere's quadratic is a point of the sphere. */
  lemma SphereRootOnSurface(ro: Vec3, rd: Vec3, center: Vec3, radius: real, t: real)
    requires SphereQuadratic(ro, rd, center, radius).Solves(t)
    ensures Dot(Sub(Add(ro, Mul(rd, t)), center), Sub(Add(ro, Mul(rd, t)), center)) == radius * radius
  {
    var oc := Sub(ro, center);
    var p := Sub(Add(ro, Mul(rd, t)), center);
    assert p == Add(oc, Mul(rd, t));
    DotAddMulSelf(oc, rd, t);
    var q := SphereQuadratic(ro, rd, center, radius);
    assert q.a * t * t == t * t * Dot(rd, rd);
    assert q.b * t == 2.0 * t * Dot(oc, rd);
  }

  /** Both roots of a solvable sphere quadratic are points of the sphere. */
  lemma SphereRootsOnSurface(m: MathLib, ro: Vec3, rd: Vec3, center: Vec3, radius: real)
    requires IsSqrt(m)
    requires var q := SphereQuadratic(ro, rd, center, radius); q.a != 0.0 && q.Disc() >= 0.0
    ensures var q := SphereQuadratic(ro, rd, center, radius);
      var p0 := Sub(Add(ro, Mul(rd, NearRoot(m, q))), center);
      var p1 := Sub(Add(ro, Mul(rd, FarRoot(m, q))), center);
      Dot(p0, p0) == radius * radius && Dot(p1, p1) == radius * radius
  {
    var q := SphereQuadratic(ro, rd, center, radius);
    RootsSolve(m, q);
    SphereRootOnSurface(ro, rd, center, radius, NearRoot(m, q));
    SphereRootOnSurface(ro, rd, center, radius, FarRoot(m, q));
  }

  /** Every accepted sphere hit lies on the sphere. */
  lemma SphereHitOnSurface(m: MathLib, ro: Vec3, rd: Vec3, center: Vec3, radius: real)
    requires IsSqrt(m)
    ensures var r := RaySphere(m, ro, rd, center, radius);
      r.Hit? ==> Dot(Sub(Add(ro, Mul(rd, r.t)), center), Sub(Add(ro, Mul(rd, r.t)), center)) == radius * radius
  {
    RaySphereCases(m, ro, rd, center, radius);
    var q := SphereQuadratic(ro, rd, center, radius);
    if q.a != 0.0 && q.Disc() >= 0.0 {
      SphereRootsOnSurface(m, ro, rd, center, radius);
    }
  }

  // ---------------------------------------------------------------- plane

  /** Python's `ray_plane`. */
  function RayPlane(ro: Vec3, rd: Vec3, pos: Vec3, normal: Vec3): Hit {
    var denom := Dot(rd, normal);
    if Abs(denom) < ParallelEpsilon then Miss
    else
      var t := Dot(Sub(pos, ro), normal) / denom;
      if t < MinDistance then Miss
      else Hit(t, normal)
  }

  /**
   * The plane test rejects a ray within 1e-8 of parallel and a distance
   * below 1e-4; a hit returns the plane's own normal unchanged and its
   * point lies in the plane.
   */
  lemma RayPlaneCases(ro: Vec3, rd: Vec3, pos: Vec3, normal: Vec3)
    ensures var r := RayPlane(ro, rd, pos, normal);
      && (Abs(Dot(rd, normal)) < ParallelEpsilon ==> r == Miss)
      && (Abs(Dot(rd, normal)) >= ParallelEpsilon ==>
           (r.Hit? <==> Dot(Sub(pos, ro), normal) / Dot(rd, normal) >= MinDistance))
      && (r.Hit? ==> r.n == normal && r.t >= MinDistance)
      && (r.Hit? ==> Dot(Sub(Add(ro, Mul(rd, r.t)), pos), normal) == 0.0)
  {
    var r := RayPlane(ro, rd, pos, normal);
    if r.Hit? {
      var denom := Dot(rd, normal);
      assert r.t * denom == Dot(Sub(pos, ro), normal);
      assert Dot(Sub(Add(ro, Mul(rd, r.t)), pos), normal) == r.t * denom - Dot(Sub(pos, ro), normal);
    }
  }

  // ---------------------------------------------------------------- cylinder

  /** The quadratic of the ray's projection onto the XZ plane. */
  function CylinderQuadratic(ro: Vec3, rd: Vec3, center: Vec3, radius: real): Quadratic {
    var oc := Vec3(ro.x - center.x, ro.y - center.y, ro.z - center.z);
    Quadratic(rd.x * rd.x + rd.z * rd.z, 2.0 * (oc.x * rd.x + oc.z * rd.z),
              oc.x * oc.x + oc.z * oc.z - radius * radius)
  }

  /** A candidate root is kept when it clears 1e-4 and its height above the base is in [0, height]. */
  predicate CylinderAccepts(ro: Vec3, rd: Vec3, center: Vec3, height: real, t: real) {
    t >= MinDistance && 0.0 <= Add(ro, Mul(rd, t)).y - center.y <= height
  }

  /** The normalised horizontal offset of the hit point from the axis. */
  function CylinderNormal(m: MathLib, ro: Vec3, rd: Vec3, center: Vec3, t: real): (n: Vec3)
    ensures n.y == 0.0
  {
    var hit := Add(ro, Mul(rd, t));
    Norm(m, Vec3(hit.x - center.x, 0.0, hit.z - center.z))
  }

  /** The roots `ray_cylinder` tries, in order. */
  function CylinderRoots(m: MathLib, q: Quadratic): seq<real>
    requires q.a != 0.0
  {
    [NearRoot(m, q), FarRoot(m, q)]
  }

  /**
   * What `ray_cylinder` returns: nothing when the horizontal coefficient is
   * below 1e-8 (a vertical ray) or the discriminant is negative, otherwise
   * the first of the near and far roots that is accepted.
   */
  function CylinderHit(m: MathLib, ro: Vec3, rd: Vec3, center: Vec3, radius: real, height: real): Hit {
    var q := CylinderQuadratic(ro, rd, center, radius);
    if Abs(q.a) < ParallelEpsilon then Miss
    else if q.Disc() < 0.0 then Miss
    else
      var t0 := NearRoot(m, q);
      var t1 := FarRoot(m, q);
      if CylinderAccepts(ro, rd, center, height, t0) then Hit(t0, CylinderNormal(m, ro, rd, center, t0))
      else if CylinderAccepts(ro, rd, center, height, t1) then Hit(t1, CylinderNormal(m, ro, rd, center, t1))
      else Miss
  }

  /**
   * The cylinder test rejects a horizontal coefficient below 1e-8 and a
   * negative discriminant; an accepted hit clears 1e-4, lies within the
   * height above the base and has a horizontal normal, and the near root
   * wins whenever it is acceptable.
   */
  lemma CylinderHitCases(m: MathLib, ro: Vec3, rd: Vec3, center: Vec3, radius: real, height: real)
    ensures var q := CylinderQuadratic(ro, rd, center, radius);
      var r := CylinderHit(m, ro, rd, center, radius, height);
      && (Abs(q.a) < ParallelEpsilon || q.Disc() < 0.0 ==> r == Miss)
      && (r.Hit? ==> r.t >= MinDistance && 0.0 <= Add(ro, Mul(rd, r.t)).y - center.y <= height && r.n.y == 0.0)
      && (Abs(q.a) >= ParallelEpsilon && q.Disc() >= 0.0 ==>
           && (r.Hit? <==> CylinderAccepts(ro, rd, center, height, NearRoot(m, q))
                           || CylinderAccepts(ro, rd, center, height, FarRoot(m, q)))
           && (CylinderAccepts(ro, rd, center, height, NearRoot(m, q)) ==> r.t == NearRoot(m, q))
           && (r.Hit? ==> r.t == NearRoot(m, q) || r.t == FarRoot(m, q)))
  {
  }

  /**
   * Python's `ray_cylinder`: tries the near root, then the far root, and
   * returns the first one that clears 1e-4 and lies within the height.
   */
  method RayCylinder(m: MathLib, ro: Vec3, rd: Vec3, center: Vec3, radius: real, height: real) returns (r: Hit)
    ensures r == CylinderHit(m, ro, rd, center, radius, height)
  {
    var q := CylinderQuadratic(ro, rd, center, radius);
    if Abs(q.a) < ParallelEpsilon {
      return Miss;
    }
    if q.Disc() < 0.0 {
      return Miss;
    }
    var roots := CylinderRoots(m, q);
    for i := 0 to |roots|
      invariant forall j :: 0 <= j < i ==> !CylinderAccepts(ro, rd, center, height, roots[j])
    {
      var t := roots[i];
      if t < MinDistance {
        continue;
      }
      var hit := Add(ro, Mul(rd, t));
      var yRel := hit.y - center.y;
      if 0.0 <= yRel <= height {
        var n := Norm(m, Vec3(hit.x - center.x, 0.0, hit.z - center.z));
        assert CylinderAccepts(ro, rd, center, height, t);
        assert n == CylinderNormal(m, ro, rd, center, t);
        assert i == 1 ==> t == FarRoot(m, q) && roots[0] == NearRoot(m, q) && !CylinderAccepts(ro, rd, center, height, roots[0]);
        return Hit(t, n);
      }
    }
    assert !CylinderAccepts(ro, rd, center, height, roots[0]) && !CylinderAccepts(ro, rd, center, height, roots[1]);
    return Miss;
  }

  function HorizontalDistanceSquared(p: Vec3, center: Vec3): real {
    (p.x - center.x) * (p.x - center.x) + (p.z - center.z) * (p.z - center.z)
  }

  /** A root of the cylinder's quadratic is a point at the radius from the axis. */
  lemma CylinderRootOnSide(ro: Vec3, rd: Vec3, center: Vec3, radius: real, t: real)
    requires CylinderQuadratic(ro, rd, center, radius).Solves(t)
    ensures HorizontalDistanceSquared(Add(ro, Mul(rd, t)), center) == radius * radius
  {
    var ox, oz := ro.x - center.x, ro.z - center.z;
    var hit := Add(ro, Mul(rd, t));
    assert hit.x - center.x == ox + rd.x * t && hit.z - center.z == oz + rd.z * t;
    SquareAddMul(ox, rd.x, t);
    SquareAddMul(oz, rd.z, t);
    var q := CylinderQuadratic(ro, rd, center, radius);
    assert q.a * t * t == t * t * (rd.x * rd.x) + t * t * (rd.z * rd.z);
    assert q.b * t == 2.0 * t * (ox * rd.x) + 2.0 * t * (oz * rd.z);
  }

  /** Both roots of a solvable cylinder quadratic are at the radius from the axis. */
  lemma CylinderRootsOnSide(m: MathLib, ro: Vec3, rd: Vec3, center: Vec3, radius: real)
    requires IsSqrt(m)
    requires var q := CylinderQuadratic(ro, rd, center, radius); q.a != 0.0 && q.Disc() >= 0.0
    ensures var q := CylinderQuadratic(ro, rd, center, radius);
      && HorizontalDistanceSquared(Add(ro, Mul(rd, NearRoot(m, q))), center) == radius * radius
      && HorizontalDistanceSquared(Add(ro, Mul(rd, FarRoot(m, q))), center) == radius * radius
  {
    var q := CylinderQuadratic(ro, rd, center, radius);
    RootsSolve(m, q);
    CylinderRootOnSide(ro, rd, center, radius, NearRoot(m, q));
    CylinderRootOnSide(ro, rd, center, radius, FarRoot(m, q));
  }

  /** An accepted cylinder hit lies on the cylinder's side: its horizontal distance from the axis is the radius. */
  lemma CylinderHitOnSurface(m: MathLib, ro: Vec3, rd: Vec3, center: Vec3, radius: real, height: real)
    requires IsSqrt(m)
    ensures var r := CylinderHit(m, ro, rd, center, radius, height);
      r.Hit? ==> HorizontalDistanceSquared(Add(ro, Mul(rd, r.t)), center) == radius * radius
  {
    CylinderHitCases(m, ro, rd, center, radius, height);
    var q := CylinderQuadratic(ro, rd, center, radius);
    if Abs(q.a) >= ParallelEpsilon && q.Disc() >= 0.0 {
      CylinderRootsOnSide(m, ro, rd, center, radius);
    }
  }
}
