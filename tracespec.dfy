/**
 * The nearest-hit scan and the diffuse shading of `Scene.trace`
 * (python/raytrace_cpu.py, lines 350-514), as functions of the scene
 * record, and the Reinhard tone map (lines 516-518). The recursion of
 * `trace` itself is in module Tracer.
 *
 * The nearest-hit scan visits the room, the light, the mirrors, the candles
 * and the humans in that order; a later object replaces the current nearest
 * surface only when it is strictly nearer, so earlier ones win ties. The
 * light and a candle flame end the scan with their emission. The scans over
 * the lists are folds over their prefixes, so the loops of `Scene` keep
 * "the result of the scan so far" as their invariant.
 */
module TraceSpec {
  import opened Wrappers
  import opened Vector
  import opened Primitives
  import opened Config
  import opened Composite

  /** The nearest surface found so far: distance, normal, surface colour and reflectivity. */
  datatype Surface = Surface(t: real, n: Vec3, color: Vec3, reflectivity: real)

  /** How a scan ends: with an emitter's colour, or with the nearest surface, if any. */
  datatype Scan = Emit(color: Vec3) | Found(nearest: Option<Surface>)

  const LightBoost: real := 1.15
  const ReflectThreshold: real := 0.01
  const MirrorEfficiency: real := 0.92
  const Ambient: real := 0.1
  const SurfaceOffset: real := 1e-4
  const ShadowSlack: real := 1e-3
  const MediumAbsorption: real := 0.02

  function Mirrors(sc: SceneConfig): seq<Mirror> { sc.mirrors.GetOr([]) }
  function Humans(sc: SceneConfig): seq<Human> { sc.humanModels.GetOr([]) }
  function Candles(sc: SceneConfig): seq<Candle> { sc.candles.GetOr([]) }

  /** A hit at distance t replaces the current nearest surface: there is none, or t is strictly nearer. */
  predicate Closer(t: real, cur: Option<Surface>) {
    cur.None? || t < cur.value.t
  }

  // ---------------------------------------------------------------- the nearest-hit scan

  /** The room box, always the first candidate; its faces do not reflect. */
  function RoomCandidate(m: MathLib, sc: SceneConfig, ro: Vec3, rd: Vec3): (r: Option<Surface>)
    ensures RayAabb(ro, rd, RoomMin(sc.room), RoomMax(sc.room)).Miss? <==> r.None?
    ensures r.Some? ==> r.value.reflectivity == 0.0 && r.value.color == RoomFaceColor(sc.room, r.value.n)
  {
    match RayAabb(ro, rd, RoomMin(sc.room), RoomMax(sc.room))
    case Miss => None
    case Hit(t, n) => Some(Surface(t, n, RoomFaceColor(sc.room, n), 0.0))
  }

  /** One mirror of the scan: its plane replaces the nearest surface when strictly nearer. */
  function MirrorStep(cur: Option<Surface>, mirror: Mirror, h: Hit): Option<Surface> {
    if h.Hit? && Closer(h.t, cur) then Some(Surface(h.t, h.n, Zero, mirror.Reflectivity())) else cur
  }

  /** The mirror loop, given each mirror's intersection in list order. */
  function ScanMirrors(ms: seq<Mirror>, hs: seq<Hit>, cur: Option<Surface>): Option<Surface>
    requires |ms| == |hs|
  {
    if |ms| == 0 then cur
    else MirrorStep(ScanMirrors(ms[..|ms| - 1], hs[..|hs| - 1], cur), ms[|ms| - 1], hs[|hs| - 1])
  }

  /** One candle of the scan: a nearer flame ends the scan with the flame's intensity, a nearer body is wax. */
  function CandleStep(cur: Option<Surface>, c: Candle, h: Option<Tagged<CandlePart>>): Scan {
    if h.Some? && Closer(h.value.t, cur) then
      if h.value.tag == Flame then Emit(c.FlameIntensity())
      else Found(Some(Surface(h.value.t, h.value.n, c.WaxColor(), 0.0)))
    else Found(cur)
  }

  /** The candle loop, given each candle's intersection; a flame returns at once. */
  function ScanCandles(cs: seq<Candle>, hs: seq<Option<Tagged<CandlePart>>>, cur: Option<Surface>): Scan
    requires |cs| == |hs|
  {
    if |cs| == 0 then Found(cur)
    else match ScanCandles(cs[..|cs| - 1], hs[..|hs| - 1], cur)
      case Emit(e) => Emit(e)
      case Found(s) => CandleStep(s, cs[|cs| - 1], hs[|hs| - 1])
  }

  /** One human of the scan; humans take their own colour and do not reflect. */
  function HumanStep(cur: Option<Surface>, h: Human, r: Option<Tagged<HumanPart>>): Option<Surface> {
    if r.Some? && Closer(r.value.t, cur) then Some(Surface(r.value.t, r.value.n, h.color, 0.0)) else cur
  }

  function ScanHumans(hs: seq<Human>, rs: seq<Option<Tagged<HumanPart>>>, cur: Option<Surface>): Option<Surface>
    requires |hs| == |rs|
  {
    if |hs| == 0 then cur
    else HumanStep(ScanHumans(hs[..|hs| - 1], rs[..|rs| - 1], cur), hs[|hs| - 1], rs[|rs| - 1])
  }

  // ---------------------------------------------------------------- the intersectors

  /**
   * The intersectors of a ray (origin, direction) with one mirror, one
   * candle and one human. The scan and the shadow test are written over any
   * such triple; `SceneGeometry` is the triple of module Composite, and
   * `Agrees` says that a triple computes exactly what it computes.
   */
  datatype Geometry = Geometry(sphere: (Vec3, Vec3, Vec3, real) -> Hit,
                               box: (Vec3, Vec3, Vec3, Vec3) -> Hit,
                               mirror: (Vec3, Vec3, Mirror) -> Hit,
                               candle: (Vec3, Vec3, Candle) -> Option<Tagged<CandlePart>>,
                               human: (Vec3, Vec3, Human) -> Option<Tagged<HumanPart>>)

  function SceneGeometry(m: MathLib): Geometry {
    Geometry((ro, rd, center, radius) => RaySphere(m, ro, rd, center, radius),
             (ro, rd, bmin, bmax) => RayAabb(ro, rd, bmin, bmax),
             (ro, rd, mi) => IntersectMirror(m, ro, rd, mi),
             (ro, rd, c) => Composite.IntersectCandle(m, ro, rd, c),
             (ro, rd, h) => Composite.IntersectHuman(m, ro, rd, h))
  }

  ghost predicate SphereAgrees(g: Geometry, m: MathLib, ro: Vec3, rd: Vec3, center: Vec3, radius: real) {
    g.sphere(ro, rd, center, radius) == RaySphere(m, ro, rd, center, radius)
  }

  ghost predicate BoxAgrees(g: Geometry, ro: Vec3, rd: Vec3, bmin: Vec3, bmax: Vec3) {
    g.box(ro, rd, bmin, bmax) == RayAabb(ro, rd, bmin, bmax)
  }

  ghost predicate MirrorAgrees(g: Geometry, m: MathLib, ro: Vec3, rd: Vec3, mi: Mirror) {
    g.mirror(ro, rd, mi) == IntersectMirror(m, ro, rd, mi)
  }

  ghost predicate CandleAgrees(g: Geometry, m: MathLib, ro: Vec3, rd: Vec3, c: Candle) {
    g.candle(ro, rd, c) == Composite.IntersectCandle(m, ro, rd, c)
  }

  ghost predicate HumanAgrees(g: Geometry, m: MathLib, ro: Vec3, rd: Vec3, h: Human) {
    g.human(ro, rd, h) == Composite.IntersectHuman(m, ro, rd, h)
  }

  /** g intersects every ray with every mirror, candle and human as the scene does. */
  ghost predicate Agrees(g: Geometry, m: MathLib) {
    && (forall ro, rd, center, radius :: SphereAgrees(g, m, ro, rd, center, radius))
    && (forall ro, rd, bmin, bmax :: BoxAgrees(g, ro, rd, bmin, bmax))
    && (forall ro, rd, mi :: MirrorAgrees(g, m, ro, rd, mi))
    && (forall ro, rd, c :: CandleAgrees(g, m, ro, rd, c))
    && (forall ro, rd, h :: HumanAgrees(g, m, ro, rd, h))
  }

  lemma SceneGeometryAgrees(m: MathLib)
    ensures Agrees(SceneGeometry(m), m)
  {
  }

  /**
   * Each mirror's, candle's and human's intersection with the ray, in list
   * order.
   */
  function MirrorHitsIn(g: Geometry, ro: Vec3, rd: Vec3, ms: seq<Mirror>): (hs: seq<Hit>)
    ensures |hs| == |ms|
  {
    seq(|ms|, k requires 0 <= k < |ms| => g.mirror(ro, rd, ms[k]))
  }

  function CandleHitsIn(g: Geometry, ro: Vec3, rd: Vec3, cs: seq<Candle>): (hs: seq<Option<Tagged<CandlePart>>>)
    ensures |hs| == |cs|
  {
    seq(|cs|, k requires 0 <= k < |cs| => g.candle(ro, rd, cs[k]))
  }

  function HumanHitsIn(g: Geometry, ro: Vec3, rd: Vec3, hs: seq<Human>): (rs: seq<Option<Tagged<HumanPart>>>)
    ensures |rs| == |hs|
  {
    seq(|hs|, k requires 0 <= k < |hs| => g.human(ro, rd, hs[k]))
  }

  function MirrorHits(m: MathLib, ro: Vec3, rd: Vec3, ms: seq<Mirror>): (hs: seq<Hit>)
    ensures |hs| == |ms|
  {
    MirrorHitsIn(SceneGeometry(m), ro, rd, ms)
  }

  function CandleHits(m: MathLib, ro: Vec3, rd: Vec3, cs: seq<Candle>): (hs: seq<Option<Tagged<CandlePart>>>)
    ensures |hs| == |cs|
  {
    CandleHitsIn(SceneGeometry(m), ro, rd, cs)
  }

  function HumanHits(m: MathLib, ro: Vec3, rd: Vec3, hs: seq<Human>): (rs: seq<Option<Tagged<HumanPart>>>)
    ensures |rs| == |hs|
  {
    HumanHitsIn(SceneGeometry(m), ro, rd, hs)
  }

  lemma MirrorHitsAt(m: MathLib, ro: Vec3, rd: Vec3, ms: seq<Mirror>, k: int)
    requires 0 <= k < |ms|
    ensures MirrorHits(m, ro, rd, ms)[k] == IntersectMirror(m, ro, rd, ms[k])
  {
  }

  lemma CandleHitsAt(m: MathLib, ro: Vec3, rd: Vec3, cs: seq<Candle>, k: int)
    requires 0 <= k < |cs|
    ensures CandleHits(m, ro, rd, cs)[k] == Composite.IntersectCandle(m, ro, rd, cs[k])
  {
  }

  lemma HumanHitsAt(m: MathLib, ro: Vec3, rd: Vec3, hs: seq<Human>, k: int)
    requires 0 <= k < |hs|
    ensures HumanHits(m, ro, rd, hs)[k] == Composite.IntersectHuman(m, ro, rd, hs[k])
  {
  }

  /** An agreeing triple gives each list of objects the scene's own list of intersections. */
  lemma MirrorHitsInAgree(m: MathLib, g: Geometry, ro: Vec3, rd: Vec3, ms: seq<Mirror>)
    requires Agrees(g, m)
    ensures MirrorHitsIn(g, ro, rd, ms) == MirrorHits(m, ro, rd, ms)
  {
    forall k | 0 <= k < |ms| ensures MirrorHitsIn(g, ro, rd, ms)[k] == MirrorHits(m, ro, rd, ms)[k] {
      assert MirrorAgrees(g, m, ro, rd, ms[k]);
      MirrorHitsAt(m, ro, rd, ms, k);
    }
  }

  lemma CandleHitsInAgree(m: MathLib, g: Geometry, ro: Vec3, rd: Vec3, cs: seq<Candle>)
    requires Agrees(g, m)
    ensures CandleHitsIn(g, ro, rd, cs) == CandleHits(m, ro, rd, cs)
  {
    forall k | 0 <= k < |cs| ensures CandleHitsIn(g, ro, rd, cs)[k] == CandleHits(m, ro, rd, cs)[k] {
      assert CandleAgrees(g, m, ro, rd, cs[k]);
      CandleHitsAt(m, ro, rd, cs, k);
    }
  }

  lemma HumanHitsInAgree(m: MathLib, g: Geometry, ro: Vec3, rd: Vec3, hs: seq<Human>)
    requires Agrees(g, m)
    ensures HumanHitsIn(g, ro, rd, hs) == HumanHits(m, ro, rd, hs)
  {
    forall k | 0 <= k < |hs| ensures HumanHitsIn(g, ro, rd, hs)[k] == HumanHits(m, ro, rd, hs)[k] {
      assert HumanAgrees(g, m, ro, rd, hs[k]);
      HumanHitsAt(m, ro, rd, hs, k);
    }
  }

  /** The light sphere as seen along the ray. */
  function LightHit(m: MathLib, sc: SceneConfig, ro: Vec3, rd: Vec3): Hit {
    RaySphere(m, ro, rd, sc.light.position, sc.light.radius)
  }

  /** The scan after the room and the light: mirrors, then candles, then humans. */
  function ScanObjectsIn(g: Geometry, sc: SceneConfig, ro: Vec3, rd: Vec3, room: Option<Surface>): Scan {
    var afterMirrors := ScanMirrors(Mirrors(sc), MirrorHitsIn(g, ro, rd, Mirrors(sc)), room);
    match ScanCandles(Candles(sc), CandleHitsIn(g, ro, rd, Candles(sc)), afterMirrors)
    case Emit(e) => Emit(e)
    case Found(s) => Found(ScanHumans(Humans(sc), HumanHitsIn(g, ro, rd, Humans(sc)), s))
  }

  /** The whole scan of `trace`: room, light, mirrors, candles, humans. */
  function ResolveIn(m: MathLib, g: Geometry, sc: SceneConfig, ro: Vec3, rd: Vec3): Scan {
    var room := RoomCandidate(m, sc, ro, rd);
    var light := LightHit(m, sc, ro, rd);
    if light.Hit? && Closer(light.t, room) then Emit(Mul(sc.light.intensity, LightBoost))
    else ScanObjectsIn(g, sc, ro, rd, room)
  }

  function ScanObjects(m: MathLib, sc: SceneConfig, ro: Vec3, rd: Vec3, room: Option<Surface>): Scan {
    ScanObjectsIn(SceneGeometry(m), sc, ro, rd, room)
  }

  /** The scan with the scene's own intersectors. */
  function Resolve(m: MathLib, sc: SceneConfig, ro: Vec3, rd: Vec3): Scan {
    ResolveIn(m, SceneGeometry(m), sc, ro, rd)
  }

  /** The scan over an agreeing triple is the scene's scan. */
  lemma ResolveInAgrees(m: MathLib, g: Geometry, sc: SceneConfig, ro: Vec3, rd: Vec3)
    requires Agrees(g, m)
    ensures ResolveIn(m, g, sc, ro, rd) == Resolve(m, sc, ro, rd)
  {
    MirrorHitsInAgree(m, g, ro, rd, Mirrors(sc));
    CandleHitsInAgree(m, g, ro, rd, Candles(sc));
    HumanHitsInAgree(m, g, ro, rd, Humans(sc));
  }

  /** The background gradient, blended by t = 0.5*(rd.y + 1). */
  function Sky(rd: Vec3): Vec3 {
    var t := 0.5 * (rd.y + 1.0);
    Vec3(0.1 * (1.0 - t) + 0.3 * t, 0.12 * (1.0 - t) + 0.4 * t, 0.15 * (1.0 - t) + 0.5 * t)
  }

  /** Straight down gives the dark end of the gradient, straight up the bright end, and between them it is non-negative. */
  lemma SkyRange(rd: Vec3)
    requires -1.0 <= rd.y <= 1.0
    ensures 0.1 <= Sky(rd).x <= 0.3 && 0.12 <= Sky(rd).y <= 0.4 && 0.15 <= Sky(rd).z <= 0.5
    ensures rd.y == -1.0 ==> Sky(rd) == Vec3(0.1, 0.12, 0.15)
    ensures rd.y == 1.0 ==> Sky(rd) == Vec3(0.3, 0.4, 0.5)
  {
  }

  // ---------------------------------------------------------------- what the scan yields

  /** With nothing hit by any of the room, the light, the mirrors, the candles or the humans, the scan finds nothing. */
  lemma NothingHit(m: MathLib, sc: SceneConfig, ro: Vec3, rd: Vec3)
    requires RayAabb(ro, rd, RoomMin(sc.room), RoomMax(sc.room)).Miss? && LightHit(m, sc, ro, rd).Miss?
    requires forall k :: 0 <= k < |Mirrors(sc)| ==> IntersectMirror(m, ro, rd, Mirrors(sc)[k]).Miss?
    requires forall k :: 0 <= k < |Candles(sc)| ==> Composite.IntersectCandle(m, ro, rd, Candles(sc)[k]).None?
    requires forall k :: 0 <= k < |Humans(sc)| ==> Composite.IntersectHuman(m, ro, rd, Humans(sc)[k]).None?
    ensures Resolve(m, sc, ro, rd) == Found(None)
  {
    forall k | 0 <= k < |Mirrors(sc)| ensures MirrorHits(m, ro, rd, Mirrors(sc))[k].Miss? {
      MirrorHitsAt(m, ro, rd, Mirrors(sc), k);
    }
    forall k | 0 <= k < |Candles(sc)| ensures CandleHits(m, ro, rd, Candles(sc))[k].None? {
      CandleHitsAt(m, ro, rd, Candles(sc), k);
    }
    forall k | 0 <= k < |Humans(sc)| ensures HumanHits(m, ro, rd, Humans(sc))[k].None? {
      HumanHitsAt(m, ro, rd, Humans(sc), k);
    }
    MirrorsMissKeep(Mirrors(sc), MirrorHits(m, ro, rd, Mirrors(sc)), None);
    CandlesMissKeep(Candles(sc), CandleHits(m, ro, rd, Candles(sc)), None);
    HumansMissKeep(Humans(sc), HumanHits(m, ro, rd, Humans(sc)), None);
  }

  /** A light hit strictly nearer than the room ends the scan with the boosted intensity, whatever else is in the scene. */
  lemma LightWins(m: MathLib, sc: SceneConfig, ro: Vec3, rd: Vec3)
    requires LightHit(m, sc, ro, rd).Hit? && Closer(LightHit(m, sc, ro, rd).t, RoomCandidate(m, sc, ro, rd))
    ensures Resolve(m, sc, ro, rd) == Emit(Mul(sc.light.intensity, LightBoost))
    ensures forall ms, cs, hs :: Resolve(m, sc.(mirrors := ms, candles := cs, humanModels := hs), ro, rd)
                                 == Emit(Mul(sc.light.intensity, LightBoost))
  {
  }

  /** Once a candle flame ends the scan, later candles cannot change the outcome. */
  lemma {:induction false} FlameSkipsLaterCandles(cs: seq<Candle>, hs: seq<Option<Tagged<CandlePart>>>, k: nat, cur: Option<Surface>)
    requires |cs| == |hs| && k <= |cs|
    requires ScanCandles(cs[..k], hs[..k], cur).Emit?
    ensures ScanCandles(cs, hs, cur) == ScanCandles(cs[..k], hs[..k], cur)
    decreases |cs| - k
  {
    if k < |cs| {
      var n := |cs| - 1;
      assert cs[..n][..k] == cs[..k] && hs[..n][..k] == hs[..k];
      FlameSkipsLaterCandles(cs[..n], hs[..n], k, cur);
    } else {
      assert cs[..k] == cs && hs[..k] == hs;
    }
  }

  /** A candle scan that ends at an emitter ends at a flame: its colour is the flame intensity of a candle whose flame was hit. */
  lemma {:induction false} CandleEmitIsFlame(cs: seq<Candle>, hs: seq<Option<Tagged<CandlePart>>>, cur: Option<Surface>)
    requires |cs| == |hs|
    requires ScanCandles(cs, hs, cur).Emit?
    ensures exists k :: (0 <= k < |cs| && ScanCandles(cs, hs, cur).color == cs[k].FlameIntensity()
      && hs[k].Some? && hs[k].value.tag == Flame)
  {
    var n := |cs| - 1;
    match ScanCandles(cs[..n], hs[..n], cur)
    case Emit(e) =>
      CandleEmitIsFlame(cs[..n], hs[..n], cur);
      var k :| 0 <= k < n && e == cs[..n][k].FlameIntensity() && hs[..n][k].Some? && hs[..n][k].value.tag == Flame;
      assert cs[..n][k] == cs[k] && hs[..n][k] == hs[k];
    case Found(s) =>
      assert ScanCandles(cs, hs, cur) == CandleStep(s, cs[n], hs[n]);
  }

  /** When a flame ends the scan the humans are never examined: the result does not depend on them. */
  lemma FlameSkipsHumans(m: MathLib, sc: SceneConfig, ro: Vec3, rd: Vec3, room: Option<Surface>, humans: Option<seq<Human>>)
    requires ScanCandles(Candles(sc), CandleHits(m, ro, rd, Candles(sc)),
                         ScanMirrors(Mirrors(sc), MirrorHits(m, ro, rd, Mirrors(sc)), room)).Emit?
    ensures ScanObjects(m, sc, ro, rd, room).Emit?
    ensures ScanObjects(m, sc.(humanModels := humans), ro, rd, room) == ScanObjects(m, sc, ro, rd, room)
  {
  }

  lemma {:induction false} MirrorsMissKeep(ms: seq<Mirror>, hs: seq<Hit>, cur: Option<Surface>)
    requires |ms| == |hs| && forall k :: 0 <= k < |hs| ==> hs[k].Miss?
    ensures ScanMirrors(ms, hs, cur) == cur
  {
    if |ms| > 0 {
      var n := |ms| - 1;
      assert forall k :: 0 <= k < n ==> hs[..n][k] == hs[k];
      MirrorsMissKeep(ms[..n], hs[..n], cur);
    }
  }

  lemma {:induction false} CandlesMissKeep(cs: seq<Candle>, hs: seq<Option<Tagged<CandlePart>>>, cur: Option<Surface>)
    requires |cs| == |hs| && forall k :: 0 <= k < |hs| ==> hs[k].None?
    ensures ScanCandles(cs, hs, cur) == Found(cur)
  {
    if |cs| > 0 {
      var n := |cs| - 1;
      assert forall k :: 0 <= k < n ==> hs[..n][k] == hs[k];
      CandlesMissKeep(cs[..n], hs[..n], cur);
    }
  }

  lemma {:induction false} HumansMissKeep(hs: seq<Human>, rs: seq<Option<Tagged<HumanPart>>>, cur: Option<Surface>)
    requires |hs| == |rs| && forall k :: 0 <= k < |rs| ==> rs[k].None?
    ensures ScanHumans(hs, rs, cur) == cur
  {
    if |hs| > 0 {
      var n := |hs| - 1;
      assert forall k :: 0 <= k < n ==> rs[..n][k] == rs[k];
      HumansMissKeep(hs[..n], rs[..n], cur);
    }
  }

  // ---------------------------------------------------------------- shading

  /** Some object's hit of the shadow ray lies short of the light. */
  predicate AnyShort<P>(hs: seq<Option<Tagged<P>>>, dist: real) {
    exists k :: 0 <= k < |hs| && hs[k].Some? && hs[k].value.t < dist
  }

  /**
   * The shadow test: the shadow ray meets the light sphere well before its
   * centre distance, or meets the room, a candle or a human short of it.
   */
  predicate BlockedIn(g: Geometry, sc: SceneConfig, sro: Vec3, ldir: Vec3, dist: real) {
    var lh := g.sphere(sro, ldir, sc.light.position, sc.light.radius);
    var rh := g.box(sro, ldir, RoomMin(sc.room), RoomMax(sc.room));
    || (lh.Hit? && lh.t < dist - sc.light.radius - ShadowSlack)
    || (rh.Hit? && rh.t < dist)
    || AnyShort(CandleHitsIn(g, sro, ldir, Candles(sc)), dist)
    || AnyShort(HumanHitsIn(g, sro, ldir, Humans(sc)), dist)
  }

  /** The shadow test with the scene's own intersectors. */
  predicate Blocked(m: MathLib, sc: SceneConfig, sro: Vec3, ldir: Vec3, dist: real) {
    BlockedIn(SceneGeometry(m), sc, sro, ldir, dist)
  }

  /** The candle part of the shadow test, one candle at a time. */
  lemma CandlesShadow(m: MathLib, sro: Vec3, ldir: Vec3, dist: real, cs: seq<Candle>)
    ensures AnyShort(CandleHits(m, sro, ldir, cs), dist) <==>
      exists k :: 0 <= k < |cs| && CandleShadows(m, sro, ldir, dist, cs[k])
  {
    forall k | 0 <= k < |cs| ensures CandleHits(m, sro, ldir, cs)[k] == Composite.IntersectCandle(m, sro, ldir, cs[k]) {
      CandleHitsAt(m, sro, ldir, cs, k);
    }
  }

  /** The human part of the shadow test, one human at a time. */
  lemma HumansShadow(m: MathLib, sro: Vec3, ldir: Vec3, dist: real, hs: seq<Human>)
    ensures AnyShort(HumanHits(m, sro, ldir, hs), dist) <==>
      exists k :: 0 <= k < |hs| && HumanShadows(m, sro, ldir, dist, hs[k])
  {
    forall k | 0 <= k < |hs| ensures HumanHits(m, sro, ldir, hs)[k] == Composite.IntersectHuman(m, sro, ldir, hs[k]) {
      HumanHitsAt(m, sro, ldir, hs, k);
    }
  }

  /** Does candle c hide the light from a shadow ray that must travel `dist`? */
  predicate CandleShadows(m: MathLib, sro: Vec3, ldir: Vec3, dist: real, c: Candle) {
    var h := Composite.IntersectCandle(m, sro, ldir, c);
    h.Some? && h.value.t < dist
  }

  predicate HumanShadows(m: MathLib, sro: Vec3, ldir: Vec3, dist: real, h: Human) {
    var r := Composite.IntersectHuman(m, sro, ldir, h);
    r.Some? && r.value.t < dist
  }

  /** The direct-light factor: Lambert term, inverse-square falloff floored at 0.1, and medium absorption. */
  function Direct(m: MathLib, n: Vec3, ldir: Vec3, dist: real): real {
    Clamp01(Dot(n, ldir)) * (1.0 / Max(0.1, dist * dist)) * m.exp(-dist * MediumAbsorption)
  }

  /** The surface colour scaled per channel by ambient plus direct light. */
  function Lit(color: Vec3, direct: real, intensity: Vec3, energy: real): Vec3 {
    Vec3(color.x * (Ambient + direct * intensity.x * energy),
         color.y * (Ambient + direct * intensity.y * energy),
         color.z * (Ambient + direct * intensity.z * energy))
  }

  /** The diffuse branch of `trace` for a non-reflective surface hit at `hit`. */
  function ShadeIn(m: MathLib, g: Geometry, sc: SceneConfig, hit: Vec3, s: Surface, energy: real): Vec3 {
    var toLight := Sub(sc.light.position, hit);
    var dist := Length(m, toLight);
    var ldir := Norm(m, toLight);
    var sro := Add(hit, Mul(s.n, SurfaceOffset));
    var direct := if BlockedIn(g, sc, sro, ldir, dist) then 0.0 else Direct(m, s.n, ldir, dist);
    Lit(s.color, direct, sc.light.intensity, energy)
  }

  /** The shading with the scene's own intersectors. */
  function Shade(m: MathLib, sc: SceneConfig, hit: Vec3, s: Surface, energy: real): Vec3 {
    ShadeIn(m, SceneGeometry(m), sc, hit, s, energy)
  }

  /** The shading over an agreeing triple is the scene's shading. */
  lemma ShadeInAgrees(m: MathLib, g: Geometry, sc: SceneConfig, hit: Vec3, s: Surface, energy: real)
    requires Agrees(g, m)
    ensures ShadeIn(m, g, sc, hit, s, energy) == Shade(m, sc, hit, s, energy)
  {
    var toLight := Sub(sc.light.position, hit);
    var ldir := Norm(m, toLight);
    var sro := Add(hit, Mul(s.n, SurfaceOffset));
    assert SphereAgrees(g, m, sro, ldir, sc.light.position, sc.light.radius);
    assert BoxAgrees(g, sro, ldir, RoomMin(sc.room), RoomMax(sc.room));
    CandleHitsInAgree(m, g, sro, ldir, Candles(sc));
    HumanHitsInAgree(m, g, sro, ldir, Humans(sc));
  }

  /** A point in shadow gets the ambient term only: a tenth of its surface colour. */
  lemma ShadowedIsAmbient(m: MathLib, g: Geometry, sc: SceneConfig, hit: Vec3, s: Surface, energy: real)
    requires var toLight := Sub(sc.light.position, hit);
      BlockedIn(g, sc, Add(hit, Mul(s.n, SurfaceOffset)), Norm(m, toLight), Length(m, toLight))
    ensures ShadeIn(m, g, sc, hit, s, energy) == Mul(s.color, Ambient)
  {
  }

  // ---------------------------------------------------------------- non-negativity of the result

  ghost predicate NonNeg(v: Vec3) {
    v.x >= 0.0 && v.y >= 0.0 && v.z >= 0.0
  }

  /** Every colour a scene supplies is non-negative. */
  ghost predicate ColorsNonNeg(sc: SceneConfig) {
    && NonNeg(sc.room.floorColor) && NonNeg(sc.room.ceilingColor) && NonNeg(sc.room.wallColor)
    && NonNeg(sc.light.intensity)
    && (forall k :: 0 <= k < |Candles(sc)| ==> NonNeg(Candles(sc)[k].FlameIntensity()) && NonNeg(Candles(sc)[k].WaxColor()))
    && (forall k :: 0 <= k < |Humans(sc)| ==> NonNeg(Humans(sc)[k].color))
  }

  /** A surface the scan can produce: non-negative colour, and a unit normal whenever it reflects. */
  ghost predicate SurfaceOk(s: Option<Surface>) {
    s.Some? ==> NonNeg(s.value.color) && (s.value.reflectivity > ReflectThreshold ==> Dot(s.value.n, s.value.n) == 1.0)
  }

  /** A scan result of that kind: a non-negative emitter colour, or an admissible nearest surface. */
  ghost predicate ScanOk(scan: Scan) {
    match scan
    case Emit(c) => NonNeg(c)
    case Found(s) => SurfaceOk(s)
  }

  lemma {:induction false} ScanMirrorsOk(ms: seq<Mirror>, hs: seq<Hit>, cur: Option<Surface>)
    requires |ms| == |hs| && SurfaceOk(cur)
    requires forall k :: 0 <= k < |hs| && hs[k].Hit? ==> Dot(hs[k].n, hs[k].n) == 1.0
    ensures SurfaceOk(ScanMirrors(ms, hs, cur))
  {
    if |ms| > 0 {
      var n := |ms| - 1;
      assert forall k :: 0 <= k < n ==> hs[..n][k] == hs[k];
      ScanMirrorsOk(ms[..n], hs[..n], cur);
    }
  }

  lemma {:induction false} ScanCandlesOk(cs: seq<Candle>, hs: seq<Option<Tagged<CandlePart>>>, cur: Option<Surface>)
    requires |cs| == |hs| && SurfaceOk(cur)
    requires forall k :: 0 <= k < |cs| ==> NonNeg(cs[k].FlameIntensity()) && NonNeg(cs[k].WaxColor())
    ensures ScanCandles(cs, hs, cur).Emit? ==> NonNeg(ScanCandles(cs, hs, cur).color)
    ensures ScanCandles(cs, hs, cur).Found? ==> SurfaceOk(ScanCandles(cs, hs, cur).nearest)
  {
    if |cs| > 0 {
      var n := |cs| - 1;
      assert forall k :: 0 <= k < n ==> cs[..n][k] == cs[k];
      ScanCandlesOk(cs[..n], hs[..n], cur);
    }
  }

  lemma {:induction false} ScanHumansOk(hs: seq<Human>, rs: seq<Option<Tagged<HumanPart>>>, cur: Option<Surface>)
    requires |hs| == |rs| && SurfaceOk(cur)
    requires forall k :: 0 <= k < |hs| ==> NonNeg(hs[k].color)
    ensures SurfaceOk(ScanHumans(hs, rs, cur))
  {
    if |hs| > 0 {
      var n := |hs| - 1;
      assert forall k :: 0 <= k < n ==> hs[..n][k] == hs[k];
      ScanHumansOk(hs[..n], rs[..n], cur);
    }
  }

  /** What the scan yields in a scene of non-negative colours: a non-negative emitter or an admissible surface. */
  lemma ResolveOk(m: MathLib, sc: SceneConfig, ro: Vec3, rd: Vec3)
    requires IsSqrt(m) && ColorsNonNeg(sc)
    ensures ScanOk(Resolve(m, sc, ro, rd))
  {
    var room := RoomCandidate(m, sc, ro, rd);
    assert SurfaceOk(room);
    var mh := MirrorHits(m, ro, rd, Mirrors(sc));
    forall k | 0 <= k < |mh| && mh[k].Hit? ensures Dot(mh[k].n, mh[k].n) == 1.0 {
      MirrorHitsAt(m, ro, rd, Mirrors(sc), k);
    }
    ScanMirrorsOk(Mirrors(sc), mh, room);
    var afterMirrors := ScanMirrors(Mirrors(sc), mh, room);
    var ch := CandleHits(m, ro, rd, Candles(sc));
    ScanCandlesOk(Candles(sc), ch, afterMirrors);
    var afterCandles := ScanCandles(Candles(sc), ch, afterMirrors);
    if afterCandles.Found? {
      ScanHumansOk(Humans(sc), HumanHits(m, ro, rd, Humans(sc)), afterCandles.nearest);
    }
    if Resolve(m, sc, ro, rd).Emit? && !(LightHit(m, sc, ro, rd).Hit? && Closer(LightHit(m, sc, ro, rd).t, room)) {
      assert Resolve(m, sc, ro, rd) == afterCandles;
    }
  }

  lemma MulNonNeg(a: real, b: real)
    requires a >= 0.0 && b >= 0.0
    ensures a * b >= 0.0
  {
  }

  /** A unit vector's components lie in [-1, 1]. */
  lemma UnitComponentY(v: Vec3)
    requires Dot(v, v) == 1.0
    ensures -1.0 <= v.y <= 1.0
  {
    SquareNonNegative(v.x);
    SquareNonNegative(v.z);
    assert v.y * v.y <= 1.0;
  }

  lemma DirectNonNeg(m: MathLib, n: Vec3, ldir: Vec3, dist: real)
    requires ExpDecays(m) && dist >= 0.0
    ensures Direct(m, n, ldir, dist) >= 0.0
  {
    var k := Clamp01(Dot(n, ldir));
    var f := 1.0 / Max(0.1, dist * dist);
    var a := m.exp(-dist * MediumAbsorption);
    assert f > 0.0 && a > 0.0;
    MulNonNeg(k, f);
    MulNonNeg(k * f, a);
  }

  lemma LitNonNeg(color: Vec3, direct: real, intensity: Vec3, energy: real)
    requires NonNeg(color) && NonNeg(intensity) && direct >= 0.0 && energy >= 0.0
    ensures NonNeg(Lit(color, direct, intensity, energy))
  {
    MulNonNeg(direct, intensity.x);
    MulNonNeg(direct * intensity.x, energy);
    MulNonNeg(color.x, Ambient + direct * intensity.x * energy);
    MulNonNeg(direct, intensity.y);
    MulNonNeg(direct * intensity.y, energy);
    MulNonNeg(color.y, Ambient + direct * intensity.y * energy);
    MulNonNeg(direct, intensity.z);
    MulNonNeg(direct * intensity.z, energy);
    MulNonNeg(color.z, Ambient + direct * intensity.z * energy);
  }

  /** In a scene of non-negative colours, shading a surface of non-negative colour with non-negative energy gives a non-negative colour. */
  lemma ShadeNonNeg(m: MathLib, g: Geometry, sc: SceneConfig, hit: Vec3, s: Surface, energy: real)
    requires IsSqrt(m) && ExpDecays(m) && ColorsNonNeg(sc) && NonNeg(s.color) && energy >= 0.0
    ensures NonNeg(ShadeIn(m, g, sc, hit, s, energy))
  {
    var toLight := Sub(sc.light.position, hit);
    var dist := Length(m, toLight);
    var ldir := Norm(m, toLight);
    DirectNonNeg(m, s.n, ldir, dist);
    var direct := if BlockedIn(g, sc, Add(hit, Mul(s.n, SurfaceOffset)), ldir, dist) then 0.0 else Direct(m, s.n, ldir, dist);
    LitNonNeg(s.color, direct, sc.light.intensity, energy);
  }

  // ---------------------------------------------------------------- tone mapping

  /** One channel of the Reinhard operator, c / (1 + c). */
  function ReinhardChannel(x: real): real
    requires x != -1.0
  {
    x / (1.0 + x)
  }

  /** `tone_map_reinhard`; a channel equal to -1 makes Python divide by zero. */
  function ToneMapReinhard(c: Vec3): Vec3
    requires c.x != -1.0 && c.y != -1.0 && c.z != -1.0
  {
    Vec3(ReinhardChannel(c.x), ReinhardChannel(c.y), ReinhardChannel(c.z))
  }

  /**
   * On non-negative channels the tone map lands in [0, 1), preserves order
   * and is undone by r / (1 - r).
   */
  lemma ReinhardChannelProperties(x: real, y: real)
    requires 0.0 <= x && 0.0 <= y
    ensures 0.0 <= ReinhardChannel(x) < 1.0
    ensures x <= y ==> ReinhardChannel(x) <= ReinhardChannel(y)
    ensures ReinhardChannel(x) / (1.0 - ReinhardChannel(x)) == x
  {
    var r := ReinhardChannel(x);
    assert r * (1.0 + x) == x;
    assert 1.0 - r == 1.0 / (1.0 + x);
    if x <= y {
      var d := (1.0 + x) * (1.0 + y);
      assert d > 0.0;
      assert ReinhardChannel(y) - ReinhardChannel(x) == (y - x) / d;
      DivNonNeg(y - x, d);
    }
  }

  lemma DivNonNeg(a: real, b: real)
    requires a >= 0.0 && b > 0.0
    ensures a / b >= 0.0
  {
  }

  /** Tone mapping a non-negative colour gives a colour in [0, 1) on every channel. */
  lemma ToneMapInUnitCube(c: Vec3)
    requires NonNeg(c)
    ensures var r := ToneMapReinhard(c);
      NonNeg(r) && r.x < 1.0 && r.y < 1.0 && r.z < 1.0
  {
    ReinhardChannelProperties(c.x, c.x);
    ReinhardChannelProperties(c.y, c.y);
    ReinhardChannelProperties(c.z, c.z);
  }
}
