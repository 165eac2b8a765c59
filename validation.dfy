/**
 * The deflection validation trace of python/raytrace_validation.py (lines
 * 15-128): `trace_ray_with_validation` follows one ray for at most a given
 * number of deflections and records each leg together with the material
 * it ends on.
 *
 * `ValidationWalk` is the list the loop records, as a function of the
 * loop's state; the loop is proved to record exactly that, and the
 * properties of the recorded legs (their number, their materials, where a
 * light or sky leg can occur, their energies) are proved about it.
 */
module Validation {
  import opened Wrappers
  import opened Vector
  import opened Primitives
  import opened Config
  import opened TraceSpec
  import opened Scenes
  import opened Bounces

  /** One recorded leg: start and end point, the energy along it, and the material it ends on. */
  datatype RaySegment = RaySegment(start: Vec3, end: Vec3, energy: real, material: string)

  /** The energy the traced ray starts with. */
  const StartEnergy: real := 1.0
  /** The trace treats every human hit as reflecting with this reflectivity. */
  const HumanReflectivity: real := 0.3
  /** A human deflection keeps this fraction of the energy. */
  const HumanKeep: real := 0.70
  /** A wall deflection keeps this fraction of the energy. */
  const WallKeep: real := 0.75
  /** An escaping ray is drawn to the point this far along its direction. */
  const EscapeDistance: real := 100.0
  /** Once this many deflections are done, each further deflection also multiplies the energy by exp(-0.3). */
  const FadeFrom: int := 6
  const FadeExponent: real := -0.3

  /** Where a deflected ray goes on from, in which direction, and with what energy. */
  datatype Deflected = Deflected(ro: Vec3, rd: Vec3, energy: real)

  /** The energy kept by a reflecting hit of reflectivity above 0.01: 92% on a mirror, 70% on a human, all of it otherwise. */
  function ReflectKeep(material: string): real {
    if material == "mirror" then MirrorEfficiency
    else if material == "human" then HumanKeep
    else 1.0
  }

  /** The final fade, applied once the deflection count (after counting this one) has reached 6. */
  function Faded(m: MathLib, count: int, energy: real): real {
    if count >= FadeFrom then energy * m.exp(FadeExponent) else energy
  }

  /**
   * What follows the hit on `nr` at `hit` as deflection number `count + 1`:
   * above reflectivity 0.01 the ray reflects, keeping the material's share
   * of the energy; a non-reflective wall reflects it keeping 75%; any other
   * hit ends the trace. A deflected ray starts 1e-4 above the hit along the
   * normal, and the final fade applies from the sixth deflection on.
   */
  function Deflection(m: MathLib, count: int, energy: real, rd: Vec3, hit: Vec3, nr: Nearest): Option<Deflected> {
    var ro := Add(hit, Mul(nr.n, SurfaceOffset));
    if nr.reflectivity > ReflectThreshold then
      Some(Deflected(ro, Reflect(rd, nr.n), Faded(m, count + 1, energy * ReflectKeep(nr.material))))
    else if nr.material == "wall" then
      Some(Deflected(ro, Reflect(rd, nr.n), Faded(m, count + 1, energy * WallKeep)))
    else None
  }

  /**
   * The legs `trace_ray_with_validation` records from a ray after `count`
   * deflections: nothing once `max_deflections` are done; a last "light"
   * leg when the light is hit before the room; a last "sky" leg when
   * nothing is hit; otherwise a leg to the nearest hit, named by its
   * material, followed by the legs of the deflected ray, if it deflects.
   */
  function ValidationWalk(m: MathLib, g: Geometry, sc: SceneConfig, ro: Vec3, rd: Vec3, energy: real, count: int,
                          maxDeflections: int): seq<RaySegment>
    decreases maxDeflections - count
  {
    if count >= maxDeflections then []
    else
      var lightT := LightAhead(m, g, sc, ro, rd, RoomNearest(g, sc, ro, rd, "wall"));
      if lightT.Some? then [RaySegment(ro, Add(ro, Mul(rd, lightT.value)), energy, "light")]
      else match BounceScan(g, sc, ro, rd, "wall", HumanReflectivity)
        case None => [RaySegment(ro, Add(ro, Mul(rd, EscapeDistance)), energy, "sky")]
        case Some(nr) =>
          var hit := Add(ro, Mul(rd, nr.t));
          [RaySegment(ro, hit, energy, nr.material)] +
            match Deflection(m, count, energy, rd, hit, nr)
            case None => []
            case Some(next) => ValidationWalk(m, g, sc, next.ro, next.rd, next.energy, count + 1, maxDeflections)
  }

  /** The trace from a start point and a start direction, normalised, with energy 1 and the scene's own intersectors. */
  function ValidationTrace(m: MathLib, sc: SceneConfig, startPos: Vec3, startDir: Vec3, maxDeflections: int): seq<RaySegment> {
    ValidationWalk(m, SceneGeometry(m), sc, startPos, Norm(m, startDir), StartEnergy, 0, maxDeflections)
  }

  // ---------------------------------------------------------------- the loop

  /** `trace_ray_with_validation`: the legs recorded for one ray. */
  method TraceRayWithValidation(m: MathLib, scene: Scene, startPos: Vec3, startDir: Vec3, maxDeflections: int)
    returns (segments: seq<RaySegment>)
    requires scene.Valid()
    ensures segments == ValidationTrace(m, scene.config, startPos, startDir, maxDeflections)
  {
    SceneGeometryAgrees(m);
    segments := TraceRayWithValidationIn(m, SceneGeometry(m), scene, startPos, startDir, maxDeflections);
  }

  /** The loop over intersectors g that agree with the scene's. */
  method TraceRayWithValidationIn(m: MathLib, ghost g: Geometry, scene: Scene, startPos: Vec3, startDir: Vec3,
                                  maxDeflections: int) returns (segments: seq<RaySegment>)
    requires scene.Valid() && Agrees(g, m)
    ensures segments == ValidationWalk(m, g, scene.config, startPos, Norm(m, startDir), StartEnergy, 0, maxDeflections)
  {
    segments := [];
    var ro := startPos;
    var rd := Norm(m, startDir);
    var energy := StartEnergy;
    var count := 0;
    ghost var full := ValidationWalk(m, g, scene.config, ro, rd, energy, count, maxDeflections);
    while count < maxDeflections
      invariant segments + ValidationWalk(m, g, scene.config, ro, rd, energy, count, maxDeflections) == full
      decreases maxDeflections - count
    {
      var seg, onward := ValidationStep(m, g, scene, ro, rd, energy, count, maxDeflections);
      ghost var rest := if onward.Some? then ValidationWalk(m, g, scene.config, onward.value.ro, onward.value.rd, onward.value.energy, count + 1, maxDeflections) else [];
      AppendAssociates(segments, seg, rest);
      segments := segments + [seg];
      if onward.None? {
        break;
      }
      ro, rd, energy, count := onward.value.ro, onward.value.rd, onward.value.energy, count + 1;
    }
  }

  /** One pass of the loop: the leg it records and, if the ray deflects, the deflected ray. */
  method ValidationStep(m: MathLib, ghost g: Geometry, scene: Scene, ro: Vec3, rd: Vec3, energy: real, count: int,
                        maxDeflections: int) returns (seg: RaySegment, onward: Option<Deflected>)
    requires scene.Valid() && Agrees(g, m)
    requires count < maxDeflections
    ensures ValidationWalk(m, g, scene.config, ro, rd, energy, count, maxDeflections)
      == [seg] + (if onward.Some? then ValidationWalk(m, g, scene.config, onward.value.ro, onward.value.rd, onward.value.energy, count + 1, maxDeflections) else [])
  {
    var lightT, nearest := Probe(m, g, scene, ro, rd, "wall", HumanReflectivity);
    onward := None;
    if lightT.Some? {
      seg := RaySegment(ro, Add(ro, Mul(rd, lightT.value)), energy, "light");
      return;
    }
    if nearest.None? {
      seg := RaySegment(ro, Add(ro, Mul(rd, EscapeDistance)), energy, "sky");
      return;
    }
    var hit := Add(ro, Mul(rd, nearest.value.t));
    seg := RaySegment(ro, hit, energy, nearest.value.material);
    onward := Deflect(m, count, energy, rd, hit, nearest.value);
  }

  /** The deflection part of a pass: the energy factor of the material, the new ray, and the final fade. */
  method Deflect(m: MathLib, count: int, energy: real, rd: Vec3, hit: Vec3, nr: Nearest) returns (onward: Option<Deflected>)
    ensures onward == Deflection(m, count, energy, rd, hit, nr)
  {
    var e := energy;
    var reflected: Vec3;
    if nr.reflectivity > ReflectThreshold {
      reflected := Reflect(rd, nr.n);
      if nr.material == "mirror" {
        e := e * MirrorEfficiency;
      } else if nr.material == "human" {
        e := e * HumanKeep;
      }
      assert e == energy * ReflectKeep(nr.material);
    } else if nr.material == "wall" {
      reflected := Reflect(rd, nr.n);
      e := e * WallKeep;
    } else {
      return None;
    }
    var ro := Add(hit, Mul(nr.n, SurfaceOffset));
    var deflections := count + 1;
    if deflections >= FadeFrom {
      e := e * m.exp(FadeExponent);
    }
    assert e == Faded(m, deflections, if nr.reflectivity > ReflectThreshold then energy * ReflectKeep(nr.material) else energy * WallKeep);
    onward := Some(Deflected(ro, reflected, e));
  }

  // ---------------------------------------------------------------- what the recorded legs satisfy

  /** A hit deflects exactly when it reflects (reflectivity above 0.01) or is a wall, from 1e-4 above the hit in the mirrored direction. */
  lemma DeflectionCases(m: MathLib, count: int, energy: real, rd: Vec3, hit: Vec3, nr: Nearest)
    ensures var o := Deflection(m, count, energy, rd, hit, nr);
      && (o.Some? <==> nr.reflectivity > ReflectThreshold || nr.material == "wall")
      && (o.Some? ==> o.value.ro == Add(hit, Mul(nr.n, SurfaceOffset)) && o.value.rd == Reflect(rd, nr.n))
      && (o.Some? && count + 1 < FadeFrom ==>
            o.value.energy == energy * (if nr.reflectivity > ReflectThreshold then ReflectKeep(nr.material) else WallKeep))
      && (o.Some? && count + 1 >= FadeFrom ==>
            o.value.energy == energy * (if nr.reflectivity > ReflectThreshold then ReflectKeep(nr.material) else WallKeep) * m.exp(FadeExponent))
  {
  }

  /** A deflection keeps a positive energy positive and never raises it. */
  lemma DeflectionWeakens(m: MathLib, count: int, energy: real, rd: Vec3, hit: Vec3, nr: Nearest)
    requires ExpDecays(m) && energy > 0.0
    ensures var o := Deflection(m, count, energy, rd, hit, nr);
      o.Some? ==> 0.0 < o.value.energy <= energy
  {
    var k := if nr.reflectivity > ReflectThreshold then ReflectKeep(nr.material) else WallKeep;
    assert 0.0 < k <= 1.0;
    assert 0.0 < energy * k <= energy;
    if count + 1 >= FadeFrom {
      var f := m.exp(FadeExponent);
      assert 0.0 < f <= 1.0;
      assert 0.0 < energy * k * f <= energy * k;
    }
  }

  /** At most one leg per remaining deflection: from count 0, at most max(0, max_deflections) legs. */
  lemma {:induction false} ValidationLength(m: MathLib, g: Geometry, sc: SceneConfig, ro: Vec3, rd: Vec3, energy: real, count: int, maxDeflections: int)
    ensures |ValidationWalk(m, g, sc, ro, rd, energy, count, maxDeflections)| <= if count < maxDeflections then maxDeflections - count else 0
    decreases maxDeflections - count
  {
    if count < maxDeflections && LightAhead(m, g, sc, ro, rd, RoomNearest(g, sc, ro, rd, "wall")).None? {
      match BounceScan(g, sc, ro, rd, "wall", HumanReflectivity)
      case None =>
      case Some(nr) =>
        var hit := Add(ro, Mul(rd, nr.t));
        match Deflection(m, count, energy, rd, hit, nr)
        case None =>
        case Some(next) =>
          ValidationLength(m, g, sc, next.ro, next.rd, next.energy, count + 1, maxDeflections);
    }
  }

  /** The materials a leg can end on. */
  predicate KnownMaterial(material: string) {
    material == "wall" || material == "light" || material == "mirror" || material == "human" || material == "sky"
  }

  /** A "light" or "sky" leg ends the trace. */
  predicate Terminal(material: string) {
    material == "light" || material == "sky"
  }

  /** Every leg ends on a known material. */
  ghost predicate KnownMaterials(w: seq<RaySegment>) {
    forall i :: 0 <= i < |w| ==> KnownMaterial(w[i].material)
  }

  /** No leg but the last ends on the light or the sky. */
  ghost predicate TerminalOnlyLast(w: seq<RaySegment>) {
    forall i :: 0 <= i < |w| - 1 ==> !Terminal(w[i].material)
  }

  /**
   * Every leg ends on the wall, the light, a mirror, a human or the sky,
   * and only the last leg can end on the light or the sky.
   */
  lemma {:induction false} ValidationMaterials(m: MathLib, g: Geometry, sc: SceneConfig, ro: Vec3, rd: Vec3, energy: real, count: int, maxDeflections: int)
    ensures KnownMaterials(ValidationWalk(m, g, sc, ro, rd, energy, count, maxDeflections))
    ensures TerminalOnlyLast(ValidationWalk(m, g, sc, ro, rd, energy, count, maxDeflections))
    decreases maxDeflections - count
  {
    var w := ValidationWalk(m, g, sc, ro, rd, energy, count, maxDeflections);
    if count < maxDeflections && LightAhead(m, g, sc, ro, rd, RoomNearest(g, sc, ro, rd, "wall")).None? {
      ScanClassified(g, sc, ro, rd, "wall", HumanReflectivity);
      match BounceScan(g, sc, ro, rd, "wall", HumanReflectivity)
      case None =>
      case Some(nr) =>
        var hit := Add(ro, Mul(rd, nr.t));
        assert KnownMaterial(nr.material) && !Terminal(nr.material);
        match Deflection(m, count, energy, rd, hit, nr)
        case None =>
        case Some(next) =>
          var tail := ValidationWalk(m, g, sc, next.ro, next.rd, next.energy, count + 1, maxDeflections);
          assert w == [RaySegment(ro, hit, energy, nr.material)] + tail;
          ValidationMaterials(m, g, sc, next.ro, next.rd, next.energy, count + 1, maxDeflections);
          assert forall i :: 1 <= i < |w| ==> w[i] == tail[i - 1];
    }
  }

  /** A non-empty trace starts at the current ray with its energy. */
  lemma ValidationHead(m: MathLib, g: Geometry, sc: SceneConfig, ro: Vec3, rd: Vec3, energy: real, count: int, maxDeflections: int)
    ensures var w := ValidationWalk(m, g, sc, ro, rd, energy, count, maxDeflections);
      (|w| > 0 <==> count < maxDeflections) && (|w| > 0 ==> w[0].start == ro && w[0].energy == energy)
  {
  }

  /** Every leg's energy is positive and at most `top`. */
  ghost predicate EnergiesWithin(w: seq<RaySegment>, top: real) {
    forall i :: 0 <= i < |w| ==> 0.0 < w[i].energy <= top
  }

  /** The energies never increase along the legs. */
  ghost predicate NonIncreasing(w: seq<RaySegment>) {
    forall i, j :: 0 <= i <= j < |w| ==> w[j].energy <= w[i].energy
  }

  /**
   * Starting from a positive energy, every leg carries a positive energy
   * no larger than the start, and the energies never increase along the
   * trace.
   */
  lemma {:induction false} ValidationEnergies(m: MathLib, g: Geometry, sc: SceneConfig, ro: Vec3, rd: Vec3, energy: real, count: int, maxDeflections: int)
    requires ExpDecays(m) && energy > 0.0
    ensures EnergiesWithin(ValidationWalk(m, g, sc, ro, rd, energy, count, maxDeflections), energy)
    ensures NonIncreasing(ValidationWalk(m, g, sc, ro, rd, energy, count, maxDeflections))
    decreases maxDeflections - count
  {
    var w := ValidationWalk(m, g, sc, ro, rd, energy, count, maxDeflections);
    if count < maxDeflections && LightAhead(m, g, sc, ro, rd, RoomNearest(g, sc, ro, rd, "wall")).None? {
      match BounceScan(g, sc, ro, rd, "wall", HumanReflectivity)
      case None =>
      case Some(nr) =>
        var hit := Add(ro, Mul(rd, nr.t));
        match Deflection(m, count, energy, rd, hit, nr)
        case None =>
        case Some(next) =>
          var tail := ValidationWalk(m, g, sc, next.ro, next.rd, next.energy, count + 1, maxDeflections);
          assert w == [RaySegment(ro, hit, energy, nr.material)] + tail;
          DeflectionWeakens(m, count, energy, rd, hit, nr);
          ValidationEnergies(m, g, sc, next.ro, next.rd, next.energy, count + 1, maxDeflections);
          ValidationHead(m, g, sc, next.ro, next.rd, next.energy, count + 1, maxDeflections);
          assert forall i :: 1 <= i < |w| ==> w[i] == tail[i - 1];
    }
  }

  /** The trace of a ray that starts with energy 1 keeps every leg's energy in (0, 1]. */
  lemma ValidationTraceEnergies(m: MathLib, sc: SceneConfig, startPos: Vec3, startDir: Vec3, maxDeflections: int)
    requires ExpDecays(m)
    ensures EnergiesWithin(ValidationTrace(m, sc, startPos, startDir, maxDeflections), 1.0)
    ensures NonIncreasing(ValidationTrace(m, sc, startPos, startDir, maxDeflections))
  {
    ValidationEnergies(m, SceneGeometry(m), sc, startPos, Norm(m, startDir), StartEnergy, 0, maxDeflections);
  }

  /** A hit on a mirror of reflectivity at most 0.01 ends the trace with a "mirror" leg to the hit. */
  lemma DimMirrorEndsTrace(m: MathLib, g: Geometry, sc: SceneConfig, ro: Vec3, rd: Vec3, energy: real, count: int, maxDeflections: int)
    requires count < maxDeflections
    requires LightAhead(m, g, sc, ro, rd, RoomNearest(g, sc, ro, rd, "wall")).None?
    requires var r := BounceScan(g, sc, ro, rd, "wall", HumanReflectivity);
      r.Some? && r.value.material == "mirror" && r.value.reflectivity <= ReflectThreshold
    ensures var nr := BounceScan(g, sc, ro, rd, "wall", HumanReflectivity).value;
      ValidationWalk(m, g, sc, ro, rd, energy, count, maxDeflections) == [RaySegment(ro, Add(ro, Mul(rd, nr.t)), energy, "mirror")]
  {
  }

  /**
   * A human or wall hit deflects the ray: the trace goes on from the
   * deflected ray, with 70% (human) or 75% (wall) of the energy before the
   * final fade.
   */
  lemma HumanAndWallDeflect(m: MathLib, g: Geometry, sc: SceneConfig, ro: Vec3, rd: Vec3, energy: real, count: int, maxDeflections: int)
    requires count < maxDeflections
    requires LightAhead(m, g, sc, ro, rd, RoomNearest(g, sc, ro, rd, "wall")).None?
    requires var r := BounceScan(g, sc, ro, rd, "wall", HumanReflectivity);
      r.Some? && (r.value.material == "human" || r.value.material == "wall")
    ensures var nr := BounceScan(g, sc, ro, rd, "wall", HumanReflectivity).value;
      var hit := Add(ro, Mul(rd, nr.t));
      var keep := if nr.material == "human" then HumanKeep else WallKeep;
      var e := Faded(m, count + 1, energy * keep);
      ValidationWalk(m, g, sc, ro, rd, energy, count, maxDeflections)
        == [RaySegment(ro, hit, energy, nr.material)]
           + ValidationWalk(m, g, sc, Add(hit, Mul(nr.n, SurfaceOffset)), Reflect(rd, nr.n), e, count + 1, maxDeflections)
  {
    ScanClassified(g, sc, ro, rd, "wall", HumanReflectivity);
  }

  /**
   * A trace that stops before `max_deflections` legs stopped on the light,
   * on the sky, or on a mirror.
   */
  lemma {:induction false} ShortTraceEnds(m: MathLib, g: Geometry, sc: SceneConfig, ro: Vec3, rd: Vec3, energy: real, count: int, maxDeflections: int)
    requires var w := ValidationWalk(m, g, sc, ro, rd, energy, count, maxDeflections);
      0 < |w| < maxDeflections - count
    ensures var w := ValidationWalk(m, g, sc, ro, rd, energy, count, maxDeflections);
      Terminal(w[|w| - 1].material) || w[|w| - 1].material == "mirror"
    decreases maxDeflections - count
  {
    var w := ValidationWalk(m, g, sc, ro, rd, energy, count, maxDeflections);
    if LightAhead(m, g, sc, ro, rd, RoomNearest(g, sc, ro, rd, "wall")).None? {
      ScanClassified(g, sc, ro, rd, "wall", HumanReflectivity);
      match BounceScan(g, sc, ro, rd, "wall", HumanReflectivity)
      case None =>
      case Some(nr) =>
        var hit := Add(ro, Mul(rd, nr.t));
        match Deflection(m, count, energy, rd, hit, nr)
        case None =>
        case Some(next) =>
          var tail := ValidationWalk(m, g, sc, next.ro, next.rd, next.energy, count + 1, maxDeflections);
          assert w == [RaySegment(ro, hit, energy, nr.material)] + tail;
          if |tail| == 0 {
            ValidationHead(m, g, sc, next.ro, next.rd, next.energy, count + 1, maxDeflections);
          } else {
            ShortTraceEnds(m, g, sc, next.ro, next.rd, next.energy, count + 1, maxDeflections);
            assert w[|w| - 1] == tail[|tail| - 1];
          }
    }
  }
}
