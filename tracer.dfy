/**
 * The recursion of `Scene.trace` (python/raytrace_cpu.py, lines 350-514).
 *
 * The tracer is written once over a `World`: what `trace` asks of the scene,
 * namely the nearest-hit scan of a ray, the diffuse shading of a surface
 * point, and the ray a mirror sends back. `SceneWorld` is the world of a
 * scene record and `Trace` is the tracer in that world. The facts about the
 * recursion are proved for every world and then read off for the scene.
 */
module Tracer {
  import opened Wrappers
  import opened Vector
  import opened Primitives
  import opened Config
  import opened Composite
  import opened TraceSpec

  const MinEnergy: real := 0.005
  const FadeStart: int := 6
  const FadeRate: real := 0.25

  /**
   * The scan of a ray (origin, direction), the shading of a hit point on a
   * surface with a given energy, and the ray (origin, direction) a
   * reflective surface hit by a ray sends on.
   */
  datatype World = World(scan: (Vec3, Vec3) -> Scan,
                         shade: (Vec3, Surface, real) -> Vec3,
                         reflect: (Vec3, Vec3, Surface) -> (Vec3, Vec3))

  /** The point where a ray meets a surface: its origin plus t times its direction. */
  function HitPoint(ro: Vec3, rd: Vec3, s: Surface): Vec3 {
    Add(ro, Mul(rd, s.t))
  }

  /** The reflected ray starts at the hit point lifted off the surface along its normal, and leaves in the mirrored direction. */
  function ReflectedRay(ro: Vec3, rd: Vec3, s: Surface): (Vec3, Vec3) {
    (Add(HitPoint(ro, rd, s), Mul(s.n, SurfaceOffset)), Reflect(rd, s.n))
  }

  /** The world of a scene record over the intersectors g: its nearest-hit scan, its shading and the mirror reflection. */
  function SceneWorldIn(m: MathLib, g: Geometry, sc: SceneConfig): (w: World)
    ensures forall ro, rd :: w.scan(ro, rd) == ResolveIn(m, g, sc, ro, rd)
    ensures forall hit, s, e :: w.shade(hit, s, e) == ShadeIn(m, g, sc, hit, s, e)
    ensures forall ro, rd, s :: w.reflect(ro, rd, s) == ReflectedRay(ro, rd, s)
  {
    World((ro, rd) => ResolveIn(m, g, sc, ro, rd), (hit, s, e) => ShadeIn(m, g, sc, hit, s, e),
          (ro, rd, s) => ReflectedRay(ro, rd, s))
  }

  /** The world of a scene record with its own intersectors. */
  function SceneWorld(m: MathLib, sc: SceneConfig): (w: World)
    ensures forall ro, rd :: w.scan(ro, rd) == Resolve(m, sc, ro, rd)
    ensures forall hit, s, e :: w.shade(hit, s, e) == Shade(m, sc, hit, s, e)
    ensures forall ro, rd, s :: w.reflect(ro, rd, s) == ReflectedRay(ro, rd, s)
  {
    SceneWorldIn(m, SceneGeometry(m), sc)
  }

  /** The energy after the fade that starts at bounce 6: multiplied by exp(-(bounce-6)*0.25). */
  function Fade(m: MathLib, bounce: int, energy: real): real {
    if bounce >= FadeStart then energy * m.exp(-((bounce - FadeStart) as real) * FadeRate) else energy
  }

  /** Fading never raises the energy and keeps positive energy positive. */
  lemma FadeBounds(m: MathLib, bounce: int, energy: real)
    requires ExpDecays(m) && energy > 0.0
    ensures 0.0 < Fade(m, bounce, energy) <= energy
    ensures bounce < FadeStart ==> Fade(m, bounce, energy) == energy
  {
    if bounce >= FadeStart {
      var f := m.exp(-((bounce - FadeStart) as real) * FadeRate);
      assert 0.0 < f <= 1.0;
      assert energy * f <= energy * 1.0;
    }
  }

  /** Each reflection hands on strictly less energy than it received, so deeper bounces carry less. */
  lemma ReflectionLosesEnergy(m: MathLib, bounce: int, energy: real)
    requires ExpDecays(m) && energy > 0.0
    ensures 0.0 < Fade(m, bounce, energy) * MirrorEfficiency < energy
  {
    FadeBounds(m, bounce, energy);
  }

  /**
   * `trace` in world w: black once the bounce budget or the energy is spent,
   * and otherwise the response to the scan with the faded energy.
   */
  function TraceIn(m: MathLib, w: World, ro: Vec3, rd: Vec3, maxBounces: int, bounce: int, energy: real): (c: Vec3)
    ensures bounce >= maxBounces || energy < MinEnergy ==> c == Zero
    decreases maxBounces - bounce, 1
  {
    if bounce >= maxBounces || energy < MinEnergy then Zero
    else RespondIn(m, w, ro, rd, maxBounces, bounce, Fade(m, bounce, energy), w.scan(ro, rd))
  }

  /**
   * The rest of `trace` once the scan is done: an emitter's colour; the sky
   * when nothing is hit; the reflected colour scaled by reflectivity and
   * energy on a reflective surface; and the shaded surface colour otherwise.
   */
  function RespondIn(m: MathLib, w: World, ro: Vec3, rd: Vec3, maxBounces: int, bounce: int, e: real, scan: Scan): (c: Vec3)
    requires bounce < maxBounces
    ensures scan.Emit? ==> c == scan.color
    ensures scan == Found(None) ==> c == Sky(rd)
    decreases maxBounces - bounce, 0
  {
    match scan
    case Emit(col) => col
    case Found(None) => Sky(rd)
    case Found(Some(s)) =>
      if s.reflectivity > ReflectThreshold then
        var next := w.reflect(ro, rd, s);
        Mul(TraceIn(m, w, next.0, next.1, maxBounces, bounce + 1, e * MirrorEfficiency), s.reflectivity * e)
      else w.shade(HitPoint(ro, rd, s), s, e)
  }

  /** The reflective case of the response. */
  lemma RespondReflects(m: MathLib, w: World, ro: Vec3, rd: Vec3, maxBounces: int, bounce: int, e: real, s: Surface)
    requires bounce < maxBounces && s.reflectivity > ReflectThreshold
    ensures var next := w.reflect(ro, rd, s);
      RespondIn(m, w, ro, rd, maxBounces, bounce, e, Found(Some(s)))
        == Mul(TraceIn(m, w, next.0, next.1, maxBounces, bounce + 1, e * MirrorEfficiency), s.reflectivity * e)
  {
  }

  /** An emitter ends the trace with its colour. */
  lemma EmitsIn(m: MathLib, w: World, ro: Vec3, rd: Vec3, maxBounces: int, bounce: int, energy: real)
    requires bounce < maxBounces && energy >= MinEnergy && w.scan(ro, rd).Emit?
    ensures TraceIn(m, w, ro, rd, maxBounces, bounce, energy) == w.scan(ro, rd).color
  {
  }

  /** A ray that hits nothing gets the sky. */
  lemma SkyIn(m: MathLib, w: World, ro: Vec3, rd: Vec3, maxBounces: int, bounce: int, energy: real)
    requires bounce < maxBounces && energy >= MinEnergy && w.scan(ro, rd) == Found(None)
    ensures TraceIn(m, w, ro, rd, maxBounces, bounce, energy) == Sky(rd)
  {
  }

  /**
   * A reflective surface recurses once, one bounce further, along the ray
   * the surface sends on, with 92% of the faded energy, and scales what
   * comes back by reflectivity times that energy.
   */
  lemma ReflectsIn(m: MathLib, w: World, ro: Vec3, rd: Vec3, maxBounces: int, bounce: int, energy: real, s: Surface)
    requires bounce < maxBounces && energy >= MinEnergy
    requires w.scan(ro, rd) == Found(Some(s)) && s.reflectivity > ReflectThreshold
    ensures var next := w.reflect(ro, rd, s);
      TraceIn(m, w, ro, rd, maxBounces, bounce, energy)
        == Mul(TraceIn(m, w, next.0, next.1, maxBounces, bounce + 1, Fade(m, bounce, energy) * MirrorEfficiency),
               s.reflectivity * Fade(m, bounce, energy))
  {
  }

  /** A non-reflective surface is shaded at the hit point with the faded energy. */
  lemma ShadesIn(m: MathLib, w: World, ro: Vec3, rd: Vec3, maxBounces: int, bounce: int, energy: real, s: Surface)
    requires bounce < maxBounces && energy >= MinEnergy
    requires w.scan(ro, rd) == Found(Some(s)) && s.reflectivity <= ReflectThreshold
    ensures TraceIn(m, w, ro, rd, maxBounces, bounce, energy) == w.shade(HitPoint(ro, rd, s), s, Fade(m, bounce, energy))
  {
  }

  // ---------------------------------------------------------------- non-negativity

  /** A world of non-negative colours whose mirrors keep a unit direction unit. */
  ghost predicate WorldOk(w: World) {
    && (forall ro: Vec3, rd: Vec3 :: ScanOk(w.scan(ro, rd)))
    && (forall hit: Vec3, s: Surface, e: real :: NonNeg(s.color) && e >= 0.0 ==> NonNeg(w.shade(hit, s, e)))
    && (forall ro: Vec3, rd: Vec3, s: Surface :: Dot(rd, rd) == 1.0 && Dot(s.n, s.n) == 1.0 ==>
          Dot(w.reflect(ro, rd, s).1, w.reflect(ro, rd, s).1) == 1.0)
  }

  /** In such a world a unit-length ray never traces to a negative colour, at any depth of reflection. */
  lemma {:induction false} TraceInNonNegative(m: MathLib, w: World, ro: Vec3, rd: Vec3, maxBounces: int, bounce: int, energy: real)
    requires ExpDecays(m) && WorldOk(w) && Dot(rd, rd) == 1.0
    ensures NonNeg(TraceIn(m, w, ro, rd, maxBounces, bounce, energy))
    decreases maxBounces - bounce
  {
    if !(bounce >= maxBounces || energy < MinEnergy) {
      var e := Fade(m, bounce, energy);
      FadeBounds(m, bounce, energy);
      assert ScanOk(w.scan(ro, rd));
      match w.scan(ro, rd)
      case Emit(col) =>
        EmitsIn(m, w, ro, rd, maxBounces, bounce, energy);
      case Found(None) =>
        UnitComponentY(rd);
        SkyRange(rd);
        SkyIn(m, w, ro, rd, maxBounces, bounce, energy);
      case Found(Some(s)) =>
        if s.reflectivity > ReflectThreshold {
          var next := w.reflect(ro, rd, s);
          TraceInNonNegative(m, w, next.0, next.1, maxBounces, bounce + 1, e * MirrorEfficiency);
          ReflectsIn(m, w, ro, rd, maxBounces, bounce, energy, s);
          var rc := TraceIn(m, w, next.0, next.1, maxBounces, bounce + 1, e * MirrorEfficiency);
          var k := s.reflectivity * e;
          MulNonNeg(s.reflectivity, e);
          MulNonNeg(rc.x, k);
          MulNonNeg(rc.y, k);
          MulNonNeg(rc.z, k);
        } else {
          ShadesIn(m, w, ro, rd, maxBounces, bounce, energy, s);
        }
    }
  }

  // ---------------------------------------------------------------- the tracer of a scene

  /** `trace` on a scene record: black once the bounce budget or the energy is spent. */
  function Trace(m: MathLib, sc: SceneConfig, ro: Vec3, rd: Vec3, maxBounces: int, bounce: int, energy: real): (c: Vec3)
    ensures bounce >= maxBounces || energy < MinEnergy ==> c == Zero
  {
    TraceIn(m, SceneWorld(m, sc), ro, rd, maxBounces, bounce, energy)
  }

  /** A light hit strictly nearer than the room returns the boosted light intensity, whatever else is in the scene. */
  lemma LightShortCircuits(m: MathLib, sc: SceneConfig, ro: Vec3, rd: Vec3, maxBounces: int, bounce: int, energy: real)
    requires bounce < maxBounces && energy >= MinEnergy
    requires LightHit(m, sc, ro, rd).Hit? && Closer(LightHit(m, sc, ro, rd).t, RoomCandidate(m, sc, ro, rd))
    ensures Trace(m, sc, ro, rd, maxBounces, bounce, energy) == Mul(sc.light.intensity, LightBoost)
    ensures forall ms, cs, hs :: Trace(m, sc.(mirrors := ms, candles := cs, humanModels := hs), ro, rd, maxBounces, bounce, energy)
                                 == Mul(sc.light.intensity, LightBoost)
  {
    LightWins(m, sc, ro, rd);
    EmitsIn(m, SceneWorld(m, sc), ro, rd, maxBounces, bounce, energy);
    forall ms, cs, hs
      ensures Trace(m, sc.(mirrors := ms, candles := cs, humanModels := hs), ro, rd, maxBounces, bounce, energy)
              == Mul(sc.light.intensity, LightBoost)
    {
      EmitsIn(m, SceneWorld(m, sc.(mirrors := ms, candles := cs, humanModels := hs)), ro, rd, maxBounces, bounce, energy);
    }
  }

  /** With nothing hit, `trace` returns the sky gradient. */
  lemma NoHitIsSky(m: MathLib, sc: SceneConfig, ro: Vec3, rd: Vec3, maxBounces: int, bounce: int, energy: real)
    requires bounce < maxBounces && energy >= MinEnergy
    requires RayAabb(ro, rd, RoomMin(sc.room), RoomMax(sc.room)).Miss? && LightHit(m, sc, ro, rd).Miss?
    requires forall k :: 0 <= k < |Mirrors(sc)| ==> IntersectMirror(m, ro, rd, Mirrors(sc)[k]).Miss?
    requires forall k :: 0 <= k < |Candles(sc)| ==> Composite.IntersectCandle(m, ro, rd, Candles(sc)[k]).None?
    requires forall k :: 0 <= k < |Humans(sc)| ==> Composite.IntersectHuman(m, ro, rd, Humans(sc)[k]).None?
    ensures Trace(m, sc, ro, rd, maxBounces, bounce, energy) == Sky(rd)
  {
    NothingHit(m, sc, ro, rd);
    SkyIn(m, SceneWorld(m, sc), ro, rd, maxBounces, bounce, energy);
  }

  /**
   * A reflective surface recurses once, one bounce further, from the hit
   * point lifted 1e-4 along the normal, in the reflected direction, with 92%
   * of the faded energy, and scales what comes back by reflectivity times
   * that energy.
   */
  lemma ReflectionBranch(m: MathLib, sc: SceneConfig, ro: Vec3, rd: Vec3, maxBounces: int, bounce: int, energy: real, s: Surface)
    requires bounce < maxBounces && energy >= MinEnergy
    requires Resolve(m, sc, ro, rd) == Found(Some(s)) && s.reflectivity > ReflectThreshold
    ensures var e := Fade(m, bounce, energy);
      Trace(m, sc, ro, rd, maxBounces, bounce, energy)
        == Mul(Trace(m, sc, Add(HitPoint(ro, rd, s), Mul(s.n, SurfaceOffset)), Reflect(rd, s.n), maxBounces, bounce + 1, e * MirrorEfficiency),
               s.reflectivity * e)
  {
    ReflectsIn(m, SceneWorld(m, sc), ro, rd, maxBounces, bounce, energy, s);
  }

  /** A non-reflective surface is shaded: ambient plus, when unshadowed, direct light scaled by the faded energy. */
  lemma DiffuseBranch(m: MathLib, sc: SceneConfig, ro: Vec3, rd: Vec3, maxBounces: int, bounce: int, energy: real, s: Surface)
    requires bounce < maxBounces && energy >= MinEnergy
    requires Resolve(m, sc, ro, rd) == Found(Some(s)) && s.reflectivity <= ReflectThreshold
    ensures Trace(m, sc, ro, rd, maxBounces, bounce, energy) == Shade(m, sc, HitPoint(ro, rd, s), s, Fade(m, bounce, energy))
  {
    ShadesIn(m, SceneWorld(m, sc), ro, rd, maxBounces, bounce, energy, s);
  }

  /** A scene of non-negative colours is such a world. */
  lemma SceneWorldOk(m: MathLib, sc: SceneConfig)
    requires IsSqrt(m) && ExpDecays(m) && ColorsNonNeg(sc)
    ensures WorldOk(SceneWorld(m, sc))
  {
    var w := SceneWorld(m, sc);
    forall ro: Vec3, rd: Vec3 ensures ScanOk(w.scan(ro, rd)) {
      ResolveOk(m, sc, ro, rd);
    }
    forall hit: Vec3, s: Surface, e: real | NonNeg(s.color) && e >= 0.0 ensures NonNeg(w.shade(hit, s, e)) {
      ShadeNonNeg(m, SceneGeometry(m), sc, hit, s, e);
    }
    forall ro: Vec3, rd: Vec3, s: Surface | Dot(rd, rd) == 1.0 && Dot(s.n, s.n) == 1.0
      ensures Dot(w.reflect(ro, rd, s).1, w.reflect(ro, rd, s).1) == 1.0
    {
      ReflectProperties(rd, s.n);
    }
  }

  /** In a scene whose colours are all non-negative, a unit-length ray never traces to a negative colour. */
  lemma TraceNonNegative(m: MathLib, sc: SceneConfig, ro: Vec3, rd: Vec3, maxBounces: int, bounce: int, energy: real)
    requires IsSqrt(m) && ExpDecays(m) && ColorsNonNeg(sc) && Dot(rd, rd) == 1.0
    ensures NonNeg(Trace(m, sc, ro, rd, maxBounces, bounce, energy))
  {
    SceneWorldOk(m, sc);
    TraceInNonNegative(m, SceneWorld(m, sc), ro, rd, maxBounces, bounce, energy);
  }

  // ---------------------------------------------------------------- the world of a scene

  ghost predicate ScansAs(w: World, m: MathLib, g: Geometry, sc: SceneConfig, ro: Vec3, rd: Vec3) {
    w.scan(ro, rd) == ResolveIn(m, g, sc, ro, rd)
  }

  ghost predicate ShadesAs(w: World, m: MathLib, g: Geometry, sc: SceneConfig, hit: Vec3, s: Surface, e: real) {
    w.shade(hit, s, e) == ShadeIn(m, g, sc, hit, s, e)
  }

  /** w scans and shades as the scene record does over the intersectors g, and reflects as a mirror does. */
  ghost predicate IsSceneWorld(w: World, m: MathLib, g: Geometry, sc: SceneConfig) {
    && (forall ro, rd :: ScansAs(w, m, g, sc, ro, rd))
    && (forall hit, s, e :: ShadesAs(w, m, g, sc, hit, s, e))
    && (forall ro, rd, s :: w.reflect(ro, rd, s) == ReflectedRay(ro, rd, s))
  }

  lemma SceneWorldIsSceneWorld(m: MathLib, sc: SceneConfig)
    ensures IsSceneWorld(SceneWorld(m, sc), m, SceneGeometry(m), sc)
  {
  }
}
