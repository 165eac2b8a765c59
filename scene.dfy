/**
 * The `Scene` class of python/raytrace_cpu.py (lines 160-514) as the code
 * runs it: the constructor fixes the room bounds, the composite
 * intersectors build their `hits` lists part by part, and `Trace` walks the
 * mirrors, candles and humans with loops that keep the nearest surface
 * found so far, tests the shadow ray with loops that stop at the first
 * blocker, and recurses on a mirror.
 *
 * Every method is proved equal to the function of module Composite,
 * TraceSpec or Tracer that specifies it; what the code promises is proved
 * about those functions.
 */
module Scenes {
  import opened Wrappers
  import opened Vector
  import opened Primitives
  import opened Config
  import opened Composite
  import opened TraceSpec
  import opened Tracer

  // ---------------------------------------------------------------- composite intersectors

  /** One part's intersector: `ray_sphere` for a sphere, `ray_cylinder` for a cylinder. */
  method PartHit(m: MathLib, ro: Vec3, rd: Vec3, s: Shape) returns (h: Hit)
    ensures h == Intersector(m, ro, rd)(s)
  {
    match s
    case Sphere(c, r) =>
      h := RaySphere(m, ro, rd, c, r);
    case Cylinder(c, r, height) =>
      h := RayCylinder(m, ro, rd, c, r, height);
  }

  /** The `hits` list: each part is intersected in turn and its hit, if any, appended with the part's name. */
  method CollectHits<P>(m: MathLib, ro: Vec3, rd: Vec3, parts: seq<Part<P>>) returns (hits: seq<Tagged<P>>)
    ensures hits == HitsOf(Intersector(m, ro, rd), parts)
  {
    hits := [];
    for i := 0 to |parts|
      invariant hits == HitsOf(Intersector(m, ro, rd), parts[..i])
    {
      var h := PartHit(m, ro, rd, parts[i].shape);
      HitsOfAppend(Intersector(m, ro, rd), parts, i);
      if h.Hit? {
        hits := hits + [Tagged(h.t, h.n, parts[i].tag)];
      }
    }
    assert parts[..|parts|] == parts;
  }

  /**
   * `hits.sort(key=distance); return hits[0]`: the head of the stable sort,
   * found by one pass that keeps the first entry of smallest distance.
   */
  method SortedHead<P>(hits: seq<Tagged<P>>) returns (r: Option<Tagged<P>>)
    ensures r == Nearest(hits)
  {
    if |hits| == 0 {
      return None;
    }
    var best := 0;
    for i := 1 to |hits|
      invariant best == NearestIndex(hits[..i])
    {
      assert hits[..i + 1][..i] == hits[..i];
      if hits[i].t < hits[best].t {
        best := i;
      }
    }
    assert hits[..|hits|] == hits;
    return Some(hits[best]);
  }

  // ---------------------------------------------------------------- the scene

  class Scene {
    const config: SceneConfig
    const room: Room
    const light: Light
    const mirrors: seq<Mirror>
    const humanModels: seq<Human>
    const candles: seq<Candle>
    const roomMin: Vec3
    const roomMax: Vec3

    /** The fields are the scene record's groups, with empty lists for absent ones, and the room's corners. */
    ghost predicate Valid() {
      && room == config.room && light == config.light
      && mirrors == Mirrors(config) && humanModels == Humans(config) && candles == Candles(config)
      && roomMin == RoomMin(room) && roomMax == RoomMax(room)
    }

    /** `__init__`: keeps the record's groups and computes the room's corners from its centre and size. */
    constructor(sceneData: SceneConfig)
      ensures config == sceneData && Valid()
    {
      config := sceneData;
      room := sceneData.room;
      light := sceneData.light;
      mirrors := sceneData.mirrors.GetOr([]);
      humanModels := sceneData.humanModels.GetOr([]);
      candles := sceneData.candles.GetOr([]);
      var size := sceneData.room.size;
      var center := sceneData.room.center;
      roomMin := Vec3(center.x - size.x / 2.0, center.y - size.y / 2.0, center.z - size.z / 2.0);
      roomMax := Vec3(center.x + size.x / 2.0, center.y + size.y / 2.0, center.z + size.z / 2.0);
    }

    /** `intersect_candle`: the body cylinder, then the flame sphere, and the nearest of their hits. */
    method IntersectCandle(m: MathLib, ro: Vec3, rd: Vec3, candle: Candle) returns (r: Option<Tagged<CandlePart>>)
      ensures r == Composite.IntersectCandle(m, ro, rd, candle)
    {
      var hits := CollectHits(m, ro, rd, CandleParts(candle));
      r := SortedHead(hits);
    }

    /** `intersect_human`: the fourteen parts in order, and the nearest of their hits. */
    method IntersectHuman(m: MathLib, ro: Vec3, rd: Vec3, human: Human) returns (r: Option<Tagged<HumanPart>>)
      ensures r == Composite.IntersectHuman(m, ro, rd, human)
    {
      var hits := CollectHits(m, ro, rd, HumanParts(m, human));
      r := SortedHead(hits);
    }

    /**
     * The intersection of candle i, or human i, with a ray: what the
     * intersectors g give, when they agree with the scene's.
     */
    method CandleAt(m: MathLib, ghost g: Geometry, ro: Vec3, rd: Vec3, i: int) returns (h: Option<Tagged<CandlePart>>)
      requires Valid() && Agrees(g, m) && 0 <= i < |candles|
      ensures h == g.candle(ro, rd, candles[i])
    {
      h := IntersectCandle(m, ro, rd, candles[i]);
      assert CandleAgrees(g, m, ro, rd, candles[i]);
    }

    method HumanAt(m: MathLib, ghost g: Geometry, ro: Vec3, rd: Vec3, i: int) returns (r: Option<Tagged<HumanPart>>)
      requires Valid() && Agrees(g, m) && 0 <= i < |humanModels|
      ensures r == g.human(ro, rd, humanModels[i])
    {
      r := IntersectHuman(m, ro, rd, humanModels[i]);
      assert HumanAgrees(g, m, ro, rd, humanModels[i]);
    }

    // -------------------------------------------------------------- the nearest-hit scan

    /** The mirror loop of `trace`: a mirror strictly nearer than the current surface replaces it. */
    method ScanMirrorList(m: MathLib, ghost g: Geometry, ro: Vec3, rd: Vec3, cur: Option<Surface>) returns (nearest: Option<Surface>)
      requires Valid() && Agrees(g, m)
      ensures nearest == ScanMirrors(mirrors, MirrorHitsIn(g, ro, rd, mirrors), cur)
    {
      ghost var hs := MirrorHitsIn(g, ro, rd, mirrors);
      nearest := cur;
      for i := 0 to |mirrors|
        invariant nearest == ScanMirrors(mirrors[..i], hs[..i], cur)
      {
        assert mirrors[..i + 1][..i] == mirrors[..i] && hs[..i + 1][..i] == hs[..i];
        var h := IntersectMirror(m, ro, rd, mirrors[i]);
        assert MirrorAgrees(g, m, ro, rd, mirrors[i]);
        if h.Hit? && Closer(h.t, nearest) {
          nearest := Some(Surface(h.t, h.n, Zero, mirrors[i].Reflectivity()));
        }
      }
      assert mirrors[..|mirrors|] == mirrors && hs[..|hs|] == hs;
    }

    /** The candle loop of `trace`: a strictly nearer flame returns its intensity at once, a nearer body is wax. */
    method ScanCandleList(m: MathLib, ghost g: Geometry, ro: Vec3, rd: Vec3, cur: Option<Surface>) returns (scan: Scan)
      requires Valid() && Agrees(g, m)
      ensures scan == ScanCandles(candles, CandleHitsIn(g, ro, rd, candles), cur)
    {
      ghost var hs := CandleHitsIn(g, ro, rd, candles);
      var nearest := cur;
      for i := 0 to |candles|
        invariant ScanCandles(candles[..i], hs[..i], cur) == Found(nearest)
      {
        assert candles[..i + 1][..i] == candles[..i] && hs[..i + 1][..i] == hs[..i];
        var h := CandleAt(m, g, ro, rd, i);
        if h.Some? && Closer(h.value.t, nearest) {
          if h.value.tag == Flame {
            FlameSkipsLaterCandles(candles, hs, i + 1, cur);
            return Emit(candles[i].FlameIntensity());
          }
          nearest := Some(Surface(h.value.t, h.value.n, candles[i].WaxColor(), 0.0));
        }
      }
      assert candles[..|candles|] == candles && hs[..|hs|] == hs;
      return Found(nearest);
    }

    /** The human loop of `trace`: a human strictly nearer than the current surface replaces it. */
    method ScanHumanList(m: MathLib, ghost g: Geometry, ro: Vec3, rd: Vec3, cur: Option<Surface>) returns (nearest: Option<Surface>)
      requires Valid() && Agrees(g, m)
      ensures nearest == ScanHumans(humanModels, HumanHitsIn(g, ro, rd, humanModels), cur)
    {
      ghost var rs := HumanHitsIn(g, ro, rd, humanModels);
      nearest := cur;
      for i := 0 to |humanModels|
        invariant nearest == ScanHumans(humanModels[..i], rs[..i], cur)
      {
        assert humanModels[..i + 1][..i] == humanModels[..i] && rs[..i + 1][..i] == rs[..i];
        var r := HumanAt(m, g, ro, rd, i);
        if r.Some? && Closer(r.value.t, nearest) {
          nearest := Some(Surface(r.value.t, r.value.n, humanModels[i].color, 0.0));
        }
      }
      assert humanModels[..|humanModels|] == humanModels && rs[..|rs|] == rs;
    }

    /** The scan of `trace`: room, then light, mirrors, candles and humans. */
    method FindNearest(m: MathLib, ghost g: Geometry, ghost w: World, ro: Vec3, rd: Vec3) returns (scan: Scan)
      requires Valid() && Agrees(g, m) && IsSceneWorld(w, m, g, config)
      ensures scan == w.scan(ro, rd)
    {
      assert ScansAs(w, m, g, config, ro, rd);
      var nearest: Option<Surface> := None;
      var tRoom := RayAabb(ro, rd, roomMin, roomMax);
      if tRoom.Hit? {
        nearest := Some(Surface(tRoom.t, tRoom.n, RoomFaceColor(room, tRoom.n), 0.0));
      }
      assert nearest == RoomCandidate(m, config, ro, rd);
      var tLight := RaySphere(m, ro, rd, light.position, light.radius);
      if tLight.Hit? && Closer(tLight.t, nearest) {
        return Emit(Mul(light.intensity, LightBoost));
      }
      nearest := ScanMirrorList(m, g, ro, rd, nearest);
      scan := ScanCandleList(m, g, ro, rd, nearest);
      if scan.Found? {
        nearest := ScanHumanList(m, g, ro, rd, scan.nearest);
        scan := Found(nearest);
      }
    }

    // -------------------------------------------------------------- shading

    /** The candle shadow loop: stops at the first candle hit short of the light. */
    method CandlesBlock(m: MathLib, ghost g: Geometry, sro: Vec3, ldir: Vec3, dist: real) returns (blocked: bool)
      requires Valid() && Agrees(g, m)
      ensures blocked <==> AnyShort(CandleHitsIn(g, sro, ldir, candles), dist)
    {
      ghost var hs := CandleHitsIn(g, sro, ldir, candles);
      blocked := false;
      for i := 0 to |candles|
        invariant forall k :: 0 <= k < i ==> !(hs[k].Some? && hs[k].value.t < dist)
      {
        var h := CandleAt(m, g, sro, ldir, i);
        assert hs[i] == h;
        if h.Some? && h.value.t < dist {
          blocked := true;
          break;
        }
      }
    }

    /** The human shadow loop: stops at the first human hit short of the light. */
    method HumansBlock(m: MathLib, ghost g: Geometry, sro: Vec3, ldir: Vec3, dist: real) returns (blocked: bool)
      requires Valid() && Agrees(g, m)
      ensures blocked <==> AnyShort(HumanHitsIn(g, sro, ldir, humanModels), dist)
    {
      ghost var rs := HumanHitsIn(g, sro, ldir, humanModels);
      blocked := false;
      for i := 0 to |humanModels|
        invariant forall k :: 0 <= k < i ==> !(rs[k].Some? && rs[k].value.t < dist)
      {
        var r := HumanAt(m, g, sro, ldir, i);
        assert rs[i] == r;
        if r.Some? && r.value.t < dist {
          blocked := true;
          break;
        }
      }
    }

    /** The shadow ray's tests in the order `trace` makes them: the light sphere, the room, the candles, the humans. */
    method ShadowTest(m: MathLib, ghost g: Geometry, shadowRo: Vec3, ldir: Vec3, dist: real) returns (blocked: bool)
      requires Valid() && Agrees(g, m)
      ensures blocked == BlockedIn(g, config, shadowRo, ldir, dist)
    {
      var shadowT := RaySphere(m, shadowRo, ldir, light.position, light.radius);
      assert SphereAgrees(g, m, shadowRo, ldir, light.position, light.radius);
      blocked := shadowT.Hit? && shadowT.t < dist - light.radius - ShadowSlack;
      if !blocked {
        var tRoom := RayAabb(shadowRo, ldir, roomMin, roomMax);
        assert BoxAgrees(g, shadowRo, ldir, roomMin, roomMax);
        if tRoom.Hit? && tRoom.t < dist {
          blocked := true;
        }
      }
      if !blocked {
        blocked := CandlesBlock(m, g, shadowRo, ldir, dist);
      }
      if !blocked {
        blocked := HumansBlock(m, g, shadowRo, ldir, dist);
      }
    }

    /** The unshadowed light at a point: Lambert term, inverse-square falloff floored at 0.1, and medium absorption. */
    static method DirectLight(m: MathLib, n: Vec3, ldir: Vec3, dist: real) returns (d: real)
      ensures d == Direct(m, n, ldir, dist)
    {
      var ndotl := Clamp01(Dot(n, ldir));
      var distFactor := 1.0 / Max(0.1, dist * dist);
      var medium := m.exp(-dist * MediumAbsorption);
      d := ndotl * distFactor * medium;
    }

    /** The diffuse branch of `trace`: the shadow test, then ambient plus direct light. */
    method ShadeSurface(m: MathLib, ghost g: Geometry, ghost w: World, hit: Vec3, s: Surface, energy: real) returns (col: Vec3)
      requires Valid() && Agrees(g, m) && IsSceneWorld(w, m, g, config)
      ensures col == w.shade(hit, s, energy)
    {
      assert ShadesAs(w, m, g, config, hit, s, energy);
      var toLight := Sub(light.position, hit);
      var dist := Length(m, toLight);
      var ldir := Norm(m, toLight);
      var shadowRo := Add(hit, Mul(s.n, SurfaceOffset));
      var blocked := ShadowTest(m, g, shadowRo, ldir, dist);
      var direct := 0.0;
      if !blocked {
        direct := DirectLight(m, s.n, ldir, dist);
      }
      col := Vec3(s.color.x * (Ambient + direct * light.intensity.x * energy),
                  s.color.y * (Ambient + direct * light.intensity.y * energy),
                  s.color.z * (Ambient + direct * light.intensity.z * energy));
      assert col == Lit(s.color, direct, light.intensity, energy);
    }

    // -------------------------------------------------------------- trace

    /**
     * `trace`: the recursive tracer, equal to the tracer in any world that
     * scans and shades as this scene does over intersectors that agree
     * with the scene's: black once the budget or the energy is spent, and
     * otherwise the response to the nearest-hit scan with the faded energy.
     */
    method Trace(m: MathLib, ghost g: Geometry, ghost w: World, ro: Vec3, rd: Vec3, maxBounces: int, bounce: int, energy: real)
      returns (c: Vec3)
      requires Valid() && Agrees(g, m) && IsSceneWorld(w, m, g, config)
      ensures c == TraceIn(m, w, ro, rd, maxBounces, bounce, energy)
      decreases maxBounces - bounce, 2
    {
      if bounce >= maxBounces || energy < MinEnergy {
        return Zero;
      }
      var e := energy;
      if bounce >= FadeStart {
        e := e * m.exp(-((bounce - FadeStart) as real) * FadeRate);
      }
      assert e == Fade(m, bounce, energy);
      var scan := FindNearest(m, g, w, ro, rd);
      c := Respond(m, g, w, ro, rd, maxBounces, bounce, e, scan);
    }

    /** The rest of `trace` after the scan: an emitter, the sky, a mirror's recursion, or the diffuse shading. */
    method Respond(m: MathLib, ghost g: Geometry, ghost w: World, ro: Vec3, rd: Vec3, maxBounces: int, bounce: int, e: real, scan: Scan)
      returns (c: Vec3)
      requires Valid() && Agrees(g, m) && IsSceneWorld(w, m, g, config) && bounce < maxBounces
      ensures c == RespondIn(m, w, ro, rd, maxBounces, bounce, e, scan)
      decreases maxBounces - bounce, 1
    {
      match scan
      case Emit(col) =>
        return col;
      case Found(None) =>
        var t := 0.5 * (rd.y + 1.0);
        return Vec3(0.1 * (1.0 - t) + 0.3 * t, 0.12 * (1.0 - t) + 0.4 * t, 0.15 * (1.0 - t) + 0.5 * t);
      case Found(Some(s)) =>
        if s.reflectivity > ReflectThreshold {
          c := Reflection(m, g, w, ro, rd, maxBounces, bounce, e, s);
          RespondReflects(m, w, ro, rd, maxBounces, bounce, e, s);
        } else {
          var hit := Add(ro, Mul(rd, s.t));
          c := ShadeSurface(m, g, w, hit, s, e);
        }
    }

    /**
     * A mirror's branch of `trace`: the ray leaves the hit point lifted along
     * the normal in the reflected direction with 92% of the energy, and what
     * it brings back is scaled by reflectivity times energy.
     */
    method Reflection(m: MathLib, ghost g: Geometry, ghost w: World, ro: Vec3, rd: Vec3, maxBounces: int, bounce: int, e: real, s: Surface)
      returns (c: Vec3)
      requires Valid() && Agrees(g, m) && IsSceneWorld(w, m, g, config) && bounce < maxBounces
      ensures var next := w.reflect(ro, rd, s);
        c == Mul(TraceIn(m, w, next.0, next.1, maxBounces, bounce + 1, e * MirrorEfficiency), s.reflectivity * e)
      decreases maxBounces - bounce, 0
    {
      var hit := Add(ro, Mul(rd, s.t));
      var reflectedRd := Reflect(rd, s.n);
      var reflectedRo := Add(hit, Mul(s.n, SurfaceOffset));
      var newEnergy := e * MirrorEfficiency;
      assert w.reflect(ro, rd, s) == (reflectedRo, reflectedRd);
      var reflectedColor := Trace(m, g, w, reflectedRo, reflectedRd, maxBounces, bounce + 1, newEnergy);
      c := Mul(reflectedColor, s.reflectivity * e);
    }

    /** `trace` on the scene record itself: the recursion above in the scene's own world. */
    method TraceScene(m: MathLib, ro: Vec3, rd: Vec3, maxBounces: int, bounce: int, energy: real) returns (c: Vec3)
      requires Valid()
      ensures c == Tracer.Trace(m, config, ro, rd, maxBounces, bounce, energy)
    {
      SceneGeometryAgrees(m);
      SceneWorldIsSceneWorld(m, config);
      c := Trace(m, SceneGeometry(m), SceneWorld(m, config), ro, rd, maxBounces, bounce, energy);
    }
  }
}
