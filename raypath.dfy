/**
 * The recorded ray path of python/raytrace_path.py (lines 15-138): the
 * `RayPath` record of segments and energies, and the `trace_ray_path` loop
 * that follows one ray through the scene and records each leg.
 *
 * `Walk` is the path the loop records, as a function of the loop's state;
 * the loop is proved to record exactly that, and what the code promises
 * (the length bound, the energy floor, the energy decrease, which hits end
 * the path) is proved about `Walk`.
 */
module RayPaths {
  import opened Wrappers
  import opened Vector
  import opened Primitives
  import opened Config
  import opened TraceSpec
  import opened Scenes
  import opened Bounces

  /** One leg of the path: where it starts and ends, and the energy the ray carries along it. */
  datatype Segment = Segment(start: Vec3, end: Vec3, energy: real)

  /** The loop runs while the energy exceeds this. */
  const PathMinEnergy: real := 0.01
  /** A ray that escapes is drawn to the point this far along its direction. */
  const SkyDistance: real := 100.0
  /** From this bounce on, each bounce also multiplies the energy by exp(-(bounce-6)*0.3). */
  const PathFadeStart: int := 6
  const PathFadeRate: real := 0.3
  /** A wall bounce keeps this fraction of the energy on top of the per-bounce attenuation. */
  const WallKeep: real := 0.75

  /** The energy history: the initial energy, then the energy of each segment in order. */
  ghost predicate HistoryOf(history: seq<real>, initialEnergy: real, segs: seq<Segment>) {
    && |history| == |segs| + 1
    && history[0] == initialEnergy
    && forall i :: 0 <= i < |segs| ==> history[i + 1] == segs[i].energy
  }

  /** `RayPath`: the segments recorded so far and the energy history. */
  class RayPath {
    var segments: seq<Segment>
    var energyHistory: seq<real>

    constructor()
      ensures segments == [] && energyHistory == []
    {
      segments := [];
      energyHistory := [];
    }

    /** `add_segment`: appends the segment to the segments and its energy to the history. */
    method AddSegment(start: Vec3, end: Vec3, energy: real)
      modifies this
      ensures segments == old(segments) + [Segment(start, end, energy)]
      ensures energyHistory == old(energyHistory) + [energy]
    {
      segments := segments + [Segment(start, end, energy)];
      energyHistory := energyHistory + [energy];
    }
  }

  /** The energy after a bounce: times the attenuation, and from bounce 6 on also times the fade. */
  function Attenuate(m: MathLib, bounce: int, energy: real, attenuation: real): real {
    if bounce >= PathFadeStart then energy * (attenuation * m.exp(-((bounce - PathFadeStart) as real) * PathFadeRate))
    else energy * attenuation
  }

  /**
   * The segments `trace_ray_path` records from a ray at bounce `bounce` with
   * the given energy: nothing once the bounces or the energy run out; one
   * last segment to a light hit, to the far point of an escaping ray, or to
   * a diffuse hit; and on a mirror of reflectivity above 0.01 or on a wall,
   * a segment to the hit followed by the rest of the path from the
   * reflected ray, one bounce further, with the attenuated energy.
   */
  function Walk(m: MathLib, g: Geometry, sc: SceneConfig, ro: Vec3, rd: Vec3, energy: real, bounce: int,
                maxBounces: int, attenuation: real): seq<Segment>
    decreases maxBounces - bounce
  {
    if !(bounce < maxBounces && energy > PathMinEnergy) then []
    else
      var lightT := LightAhead(m, g, sc, ro, rd, RoomNearest(g, sc, ro, rd, "room"));
      if lightT.Some? then [Segment(ro, Add(ro, Mul(rd, lightT.value)), energy)]
      else match BounceScan(g, sc, ro, rd, "room", 0.0)
        case None => [Segment(ro, Add(ro, Mul(rd, SkyDistance)), energy)]
        case Some(nr) =>
          var hit := Add(ro, Mul(rd, nr.t));
          [Segment(ro, hit, energy)] +
            match PathBounce(m, bounce, energy, attenuation, rd, hit, nr)
            case None => []
            case Some(next) => Walk(m, g, sc, next.ro, next.rd, next.energy, bounce + 1, maxBounces, attenuation)
  }

  /** Where a ray goes on after a hit, and with what energy. */
  datatype Onward = Onward(ro: Vec3, rd: Vec3, energy: real)

  /**
   * What follows a hit at `hit` on the nearest surface: a mirror of
   * reflectivity above 0.01 or a wall sends the ray on from the hit point
   * lifted 1e-4 along the normal, in the reflected direction, with the
   * attenuated energy, a wall keeping only 75% of that; anything else ends
   * the path.
   */
  function PathBounce(m: MathLib, bounce: int, energy: real, attenuation: real, rd: Vec3, hit: Vec3, nr: Nearest): Option<Onward> {
    var e := Attenuate(m, bounce, energy, attenuation);
    var next := Add(hit, Mul(nr.n, SurfaceOffset));
    if nr.reflectivity > ReflectThreshold then Some(Onward(next, Reflect(rd, nr.n), e))
    else if nr.material == "room" then Some(Onward(next, Reflect(rd, nr.n), e * WallKeep))
    else None
  }

  /** The path from a start point and a start direction, normalised, at bounce 0 with the scene's own intersectors. */
  function PathOf(m: MathLib, sc: SceneConfig, startPos: Vec3, startDir: Vec3, maxBounces: int,
                  initialEnergy: real, attenuation: real): seq<Segment> {
    Walk(m, SceneGeometry(m), sc, startPos, Norm(m, startDir), initialEnergy, 0, maxBounces, attenuation)
  }

  // ---------------------------------------------------------------- the loop

  /**
   * `trace_ray_path`: pushes the initial energy, then records one segment
   * per pass of the loop until the bounces or the energy run out or a
   * light, sky or diffuse hit ends the path.
   */
  method TraceRayPath(m: MathLib, scene: Scene, startPos: Vec3, startDir: Vec3, maxBounces: int,
                      initialEnergy: real, attenuation: real) returns (path: RayPath)
    requires scene.Valid()
    ensures fresh(path)
    ensures path.segments == PathOf(m, scene.config, startPos, startDir, maxBounces, initialEnergy, attenuation)
    ensures HistoryOf(path.energyHistory, initialEnergy, path.segments)
  {
    SceneGeometryAgrees(m);
    path := TraceRayPathIn(m, SceneGeometry(m), scene, startPos, startDir, maxBounces, initialEnergy, attenuation);
  }

  /** The loop over intersectors g that agree with the scene's. */
  method TraceRayPathIn(m: MathLib, ghost g: Geometry, scene: Scene, startPos: Vec3, startDir: Vec3, maxBounces: int,
                        initialEnergy: real, attenuation: real) returns (path: RayPath)
    requires scene.Valid() && Agrees(g, m)
    ensures fresh(path)
    ensures path.segments == Walk(m, g, scene.config, startPos, Norm(m, startDir), initialEnergy, 0, maxBounces, attenuation)
    ensures HistoryOf(path.energyHistory, initialEnergy, path.segments)
  {
    path := new RayPath();
    var ro := startPos;
    var rd := Norm(m, startDir);
    var energy := initialEnergy;
    var bounce := 0;
    path.energyHistory := path.energyHistory + [energy];
    ghost var full := Walk(m, g, scene.config, ro, rd, energy, bounce, maxBounces, attenuation);
    while bounce < maxBounces && energy > PathMinEnergy
      invariant path.segments + Walk(m, g, scene.config, ro, rd, energy, bounce, maxBounces, attenuation) == full
      invariant HistoryOf(path.energyHistory, initialEnergy, path.segments)
      decreases maxBounces - bounce
    {
      var seg, onward := PathStep(m, g, scene, ro, rd, energy, bounce, maxBounces, attenuation);
      ghost var rest := if onward.Some? then Walk(m, g, scene.config, onward.value.ro, onward.value.rd, onward.value.energy, bounce + 1, maxBounces, attenuation) else [];
      AppendAssociates(path.segments, seg, rest);
      path.AddSegment(seg.start, seg.end, seg.energy);
      if onward.None? {
        break;
      }
      ro, rd, energy, bounce := onward.value.ro, onward.value.rd, onward.value.energy, bounce + 1;
    }
  }

  /**
   * One pass of the loop: the segment it records, and whether the ray
   * bounces on, from which origin, in which direction and with what energy.
   */
  method PathStep(m: MathLib, ghost g: Geometry, scene: Scene, ro: Vec3, rd: Vec3, energy: real, bounce: int,
                  maxBounces: int, attenuation: real) returns (seg: Segment, onward: Option<Onward>)
    requires scene.Valid() && Agrees(g, m)
    requires bounce < maxBounces && energy > PathMinEnergy
    ensures Walk(m, g, scene.config, ro, rd, energy, bounce, maxBounces, attenuation)
      == [seg] + (if onward.Some? then Walk(m, g, scene.config, onward.value.ro, onward.value.rd, onward.value.energy, bounce + 1, maxBounces, attenuation) else [])
  {
    var lightT, nearest := Probe(m, g, scene, ro, rd, "room", 0.0);
    onward := None;
    if lightT.Some? {
      seg := Segment(ro, Add(ro, Mul(rd, lightT.value)), energy);
      return;
    }
    if nearest.None? {
      seg := Segment(ro, Add(ro, Mul(rd, SkyDistance)), energy);
      return;
    }
    var hit := Add(ro, Mul(rd, nearest.value.t));
    seg := Segment(ro, hit, energy);
    onward := Deflect(m, bounce, energy, attenuation, rd, hit, nearest.value);
  }

  /** The rest of a pass after a surface hit: the attenuation, then a reflection on a mirror or a wall. */
  method Deflect(m: MathLib, bounce: int, energy: real, attenuation: real, rd: Vec3, hit: Vec3, nr: Nearest) returns (onward: Option<Onward>)
    ensures onward == PathBounce(m, bounce, energy, attenuation, rd, hit, nr)
  {
    var e := Bounce(m, bounce, energy, attenuation);
    if nr.reflectivity > ReflectThreshold {
      onward := Some(Onward(Add(hit, Mul(nr.n, SurfaceOffset)), Reflect(rd, nr.n), e));
    } else if nr.material == "room" {
      onward := Some(Onward(Add(hit, Mul(nr.n, SurfaceOffset)), Reflect(rd, nr.n), e * WallKeep));
    } else {
      onward := None;
    }
  }

  /** The per-bounce attenuation of the loop. */
  method Bounce(m: MathLib, bounce: int, energy: real, attenuation: real) returns (e: real)
    ensures e == Attenuate(m, bounce, energy, attenuation)
  {
    e := energy;
    if bounce >= PathFadeStart {
      var fadeFactor := m.exp(-((bounce - PathFadeStart) as real) * PathFadeRate);
      e := e * (attenuation * fadeFactor);
    } else {
      e := e * attenuation;
    }
  }

  // ---------------------------------------------------------------- what the recorded path satisfies

  /** The loop's condition: bounces left and energy above 0.01. */
  ghost predicate Runs(bounce: int, maxBounces: int, energy: real) {
    bounce < maxBounces && energy > PathMinEnergy
  }

  /** A non-empty path starts with the current ray's energy, and only while the bounces and the energy last. */
  lemma WalkHead(m: MathLib, g: Geometry, sc: SceneConfig, ro: Vec3, rd: Vec3, energy: real, bounce: int, maxBounces: int, attenuation: real)
    ensures var w := Walk(m, g, sc, ro, rd, energy, bounce, maxBounces, attenuation);
      (|w| > 0 <==> Runs(bounce, maxBounces, energy)) && (|w| > 0 ==> w[0].start == ro && w[0].energy == energy)
  {
  }

  /** At most one segment per remaining bounce: from bounce 0, at most max(0, max_bounces) segments. */
  lemma {:induction false} WalkLength(m: MathLib, g: Geometry, sc: SceneConfig, ro: Vec3, rd: Vec3, energy: real, bounce: int, maxBounces: int, attenuation: real)
    ensures |Walk(m, g, sc, ro, rd, energy, bounce, maxBounces, attenuation)| <= if bounce < maxBounces then maxBounces - bounce else 0
    decreases maxBounces - bounce
  {
    if Runs(bounce, maxBounces, energy) && LightAhead(m, g, sc, ro, rd, RoomNearest(g, sc, ro, rd, "room")).None? {
      match BounceScan(g, sc, ro, rd, "room", 0.0)
      case None =>
      case Some(nr) =>
        var hit := Add(ro, Mul(rd, nr.t));
        match PathBounce(m, bounce, energy, attenuation, rd, hit, nr)
        case None =>
        case Some(next) =>
          WalkLength(m, g, sc, next.ro, next.rd, next.energy, bounce + 1, maxBounces, attenuation);
    }
  }

  /** Every segment of the list carries more than `floor` of energy. */
  ghost predicate AllAbove(segs: seq<Segment>, floor: real) {
    forall i :: 0 <= i < |segs| ==> segs[i].energy > floor
  }

  /** Every recorded segment carries more than 0.01 of energy. */
  lemma {:induction false} WalkEnergyFloor(m: MathLib, g: Geometry, sc: SceneConfig, ro: Vec3, rd: Vec3, energy: real, bounce: int, maxBounces: int, attenuation: real)
    ensures AllAbove(Walk(m, g, sc, ro, rd, energy, bounce, maxBounces, attenuation), PathMinEnergy)
    decreases maxBounces - bounce
  {
    var w := Walk(m, g, sc, ro, rd, energy, bounce, maxBounces, attenuation);
    if Runs(bounce, maxBounces, energy) && LightAhead(m, g, sc, ro, rd, RoomNearest(g, sc, ro, rd, "room")).None? {
      match BounceScan(g, sc, ro, rd, "room", 0.0)
      case None =>
      case Some(nr) =>
        var hit := Add(ro, Mul(rd, nr.t));
        match PathBounce(m, bounce, energy, attenuation, rd, hit, nr)
        case None =>
        case Some(next) =>
          var tail := Walk(m, g, sc, next.ro, next.rd, next.energy, bounce + 1, maxBounces, attenuation);
          assert w == [Segment(ro, hit, energy)] + tail;
          WalkEnergyFloor(m, g, sc, next.ro, next.rd, next.energy, bounce + 1, maxBounces, attenuation);
          assert forall i :: 1 <= i < |w| ==> w[i] == tail[i - 1];
    }
  }

  /** With an attenuation of at most 1, a bounce never raises positive energy: neither the fade nor the wall factor exceeds 1. */
  lemma OnwardNoStronger(m: MathLib, bounce: int, energy: real, attenuation: real, rd: Vec3, hit: Vec3, nr: Nearest)
    requires ExpDecays(m) && energy > 0.0 && attenuation <= 1.0
    ensures var o := PathBounce(m, bounce, energy, attenuation, rd, hit, nr);
      o.Some? ==> o.value.energy <= energy
  {
    var e := Attenuate(m, bounce, energy, attenuation);
    var k := if bounce >= PathFadeStart then attenuation * m.exp(-((bounce - PathFadeStart) as real) * PathFadeRate) else attenuation;
    if bounce >= PathFadeStart {
      var f := m.exp(-((bounce - PathFadeStart) as real) * PathFadeRate);
      assert 0.0 < f <= 1.0;
      if attenuation > 0.0 {
        assert attenuation * f <= attenuation * 1.0;
      } else {
        assert attenuation * f <= 0.0;
      }
    }
    assert e == energy * k && k <= 1.0;
    assert energy * k <= energy * 1.0;
    if e < 0.0 {
      assert e * WallKeep < 0.0;
    }
  }

  /**
   * With an attenuation of at most 1, the recorded energies never increase
   * along the path and never exceed the energy the ray started with.
   */
  lemma {:induction false} WalkEnergyDecreases(m: MathLib, g: Geometry, sc: SceneConfig, ro: Vec3, rd: Vec3, energy: real, bounce: int, maxBounces: int, attenuation: real)
    requires ExpDecays(m) && attenuation <= 1.0
    ensures var w := Walk(m, g, sc, ro, rd, energy, bounce, maxBounces, attenuation);
      && (forall i :: 0 <= i < |w| ==> w[i].energy <= energy)
      && (forall i, j :: 0 <= i <= j < |w| ==> w[j].energy <= w[i].energy)
    decreases maxBounces - bounce
  {
    var w := Walk(m, g, sc, ro, rd, energy, bounce, maxBounces, attenuation);
    if Runs(bounce, maxBounces, energy) && LightAhead(m, g, sc, ro, rd, RoomNearest(g, sc, ro, rd, "room")).None? {
      match BounceScan(g, sc, ro, rd, "room", 0.0)
      case None =>
      case Some(nr) =>
        var hit := Add(ro, Mul(rd, nr.t));
        match PathBounce(m, bounce, energy, attenuation, rd, hit, nr)
        case None =>
        case Some(next) =>
          var tail := Walk(m, g, sc, next.ro, next.rd, next.energy, bounce + 1, maxBounces, attenuation);
          assert w == [Segment(ro, hit, energy)] + tail;
          WalkEnergyDecreases(m, g, sc, next.ro, next.rd, next.energy, bounce + 1, maxBounces, attenuation);
          WalkHead(m, g, sc, next.ro, next.rd, next.energy, bounce + 1, maxBounces, attenuation);
          OnwardNoStronger(m, bounce, energy, attenuation, rd, hit, nr);
          assert |tail| > 0 ==> next.energy <= energy;
          assert forall i :: 1 <= i < |w| ==> w[i] == tail[i - 1];
    }
  }

  /** A pass goes on exactly after a mirror of reflectivity above 0.01 or a wall; the wall also costs 25% of the energy. */
  lemma BounceCases(m: MathLib, bounce: int, energy: real, attenuation: real, rd: Vec3, hit: Vec3, nr: Nearest)
    ensures var o := PathBounce(m, bounce, energy, attenuation, rd, hit, nr);
      && (o.Some? <==> nr.reflectivity > ReflectThreshold || nr.material == "room")
      && (o.Some? ==> o.value.ro == Add(hit, Mul(nr.n, SurfaceOffset)) && o.value.rd == Reflect(rd, nr.n))
      && (nr.reflectivity > ReflectThreshold ==> o.Some? && o.value.energy == Attenuate(m, bounce, energy, attenuation))
      && (nr.reflectivity <= ReflectThreshold && nr.material == "room" ==>
            o.Some? && o.value.energy == Attenuate(m, bounce, energy, attenuation) * WallKeep)
  {
  }

  /** A light reached before the room ends the path with a segment to the point where the ray meets it. */
  lemma LightEndsPath(m: MathLib, g: Geometry, sc: SceneConfig, ro: Vec3, rd: Vec3, energy: real, bounce: int, maxBounces: int, attenuation: real)
    requires Runs(bounce, maxBounces, energy)
    requires LightAhead(m, g, sc, ro, rd, RoomNearest(g, sc, ro, rd, "room")).Some?
    ensures var t := LightAhead(m, g, sc, ro, rd, RoomNearest(g, sc, ro, rd, "room")).value;
      Walk(m, g, sc, ro, rd, energy, bounce, maxBounces, attenuation) == [Segment(ro, Add(ro, Mul(rd, t)), energy)]
  {
  }

  /** A ray that hits nothing ends the path with a segment to the point 100 units along it. */
  lemma SkyEndsPath(m: MathLib, g: Geometry, sc: SceneConfig, ro: Vec3, rd: Vec3, energy: real, bounce: int, maxBounces: int, attenuation: real)
    requires Runs(bounce, maxBounces, energy)
    requires LightAhead(m, g, sc, ro, rd, RoomNearest(g, sc, ro, rd, "room")).None?
    requires BounceScan(g, sc, ro, rd, "room", 0.0).None?
    ensures Walk(m, g, sc, ro, rd, energy, bounce, maxBounces, attenuation) == [Segment(ro, Add(ro, Mul(rd, SkyDistance)), energy)]
  {
  }

  /**
   * A hit on a human, or on a mirror of reflectivity at most 0.01, ends
   * the path with a segment to the hit point.
   */
  lemma DiffuseEndsPath(m: MathLib, g: Geometry, sc: SceneConfig, ro: Vec3, rd: Vec3, energy: real, bounce: int, maxBounces: int, attenuation: real)
    requires Runs(bounce, maxBounces, energy)
    requires LightAhead(m, g, sc, ro, rd, RoomNearest(g, sc, ro, rd, "room")).None?
    requires var r := BounceScan(g, sc, ro, rd, "room", 0.0);
      r.Some? && (r.value.material == "human" || (r.value.material == "mirror" && r.value.reflectivity <= ReflectThreshold))
    ensures var nr := BounceScan(g, sc, ro, rd, "room", 0.0).value;
      Walk(m, g, sc, ro, rd, energy, bounce, maxBounces, attenuation) == [Segment(ro, Add(ro, Mul(rd, nr.t)), energy)]
  {
    ScanClassified(g, sc, ro, rd, "room", 0.0);
  }

  /**
   * A path that goes on past its first segment did so because the ray hit
   * a mirror of reflectivity above 0.01 or a wall, with no light ahead; the
   * rest is the path from the reflected ray one bounce further.
   */
  lemma WalkGoesOn(m: MathLib, g: Geometry, sc: SceneConfig, ro: Vec3, rd: Vec3, energy: real, bounce: int, maxBounces: int, attenuation: real)
    requires |Walk(m, g, sc, ro, rd, energy, bounce, maxBounces, attenuation)| >= 2
    ensures LightAhead(m, g, sc, ro, rd, RoomNearest(g, sc, ro, rd, "room")).None?
    ensures var r := BounceScan(g, sc, ro, rd, "room", 0.0);
      && r.Some? && (r.value.reflectivity > ReflectThreshold || r.value.material == "room")
      && var next := PathBounce(m, bounce, energy, attenuation, rd, Add(ro, Mul(rd, r.value.t)), r.value).value;
         Walk(m, g, sc, ro, rd, energy, bounce, maxBounces, attenuation)[1..]
           == Walk(m, g, sc, next.ro, next.rd, next.energy, bounce + 1, maxBounces, attenuation)
  {
  }
}
