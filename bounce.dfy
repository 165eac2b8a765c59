/**
 * The nearest-hit scan shared by the two path-recording bounce loops,
 * `trace_ray_path` (python/raytrace_path.py, lines 55-97) and
 * `trace_ray_with_validation` (python/raytrace_validation.py, lines 48-92).
 *
 * Both loops test the room first, then the light (only against the room,
 * and only when the ray does not start inside 1.1 light radii of its
 * centre), then the mirrors and the humans; candles are not tested. A
 * later object replaces the nearest hit only when strictly nearer. The two
 * loops differ in the name they give the room ("room" or "wall") and in the
 * reflectivity they give a human (0.0 or 0.3), which are parameters here.
 */
module Bounces {
  import opened Wrappers
  import opened Vector
  import opened Primitives
  import opened Config
  import opened Composite
  import opened TraceSpec
  import opened Scenes

  /** The nearest hit so far: distance, normal, material name and reflectivity. */
  datatype Nearest = Nearest(t: real, n: Vec3, material: string, reflectivity: real)

  /** The light is tested only from origins farther than this many radii from its centre. */
  const LightSkipFactor: real := 1.1

  /** A hit at distance t replaces the current nearest hit when there is none yet or t is strictly smaller. */
  predicate Nearer(t: real, cur: Option<Nearest>) {
    cur.None? || t < cur.value.t
  }

  /** The room's walls: a hit on the box is a non-reflective surface named `wall`. */
  function RoomNearest(g: Geometry, sc: SceneConfig, ro: Vec3, rd: Vec3, wall: string): (r: Option<Nearest>)
    ensures r.None? <==> g.box(ro, rd, RoomMin(sc.room), RoomMax(sc.room)).Miss?
    ensures r.Some? ==> r.value.material == wall && r.value.reflectivity == 0.0
  {
    match g.box(ro, rd, RoomMin(sc.room), RoomMax(sc.room))
    case Miss => None
    case Hit(t, n) => Some(Nearest(t, n, wall, 0.0))
  }

  /**
   * The light test: from an origin more than 1.1 radii from the light's
   * centre, the distance of a light hit nearer than the room, if any.
   */
  function LightAhead(m: MathLib, g: Geometry, sc: SceneConfig, ro: Vec3, rd: Vec3, room: Option<Nearest>): (r: Option<real>)
    ensures r.Some? ==> Length(m, Sub(ro, sc.light.position)) > sc.light.radius * LightSkipFactor
    ensures r.Some? ==> g.sphere(ro, rd, sc.light.position, sc.light.radius).Hit? && g.sphere(ro, rd, sc.light.position, sc.light.radius).t == r.value
    ensures r.Some? ==> Nearer(r.value, room)
    ensures Length(m, Sub(ro, sc.light.position)) > sc.light.radius * LightSkipFactor
      && g.sphere(ro, rd, sc.light.position, sc.light.radius).Hit?
      && Nearer(g.sphere(ro, rd, sc.light.position, sc.light.radius).t, room)
      ==> r == Some(g.sphere(ro, rd, sc.light.position, sc.light.radius).t)
  {
    if Length(m, Sub(ro, sc.light.position)) > sc.light.radius * LightSkipFactor then
      var h := g.sphere(ro, rd, sc.light.position, sc.light.radius);
      if h.Hit? && Nearer(h.t, room) then Some(h.t) else None
    else None
  }

  /** One mirror of the scan: a strictly nearer plane hit becomes the nearest, with the mirror's reflectivity. */
  function MirrorStep(cur: Option<Nearest>, mirror: Mirror, h: Hit): Option<Nearest> {
    if h.Hit? && Nearer(h.t, cur) then Some(Nearest(h.t, h.n, "mirror", mirror.Reflectivity())) else cur
  }

  /** The mirror loop, given each mirror's intersection in list order. */
  function MirrorPass(ms: seq<Mirror>, hs: seq<Hit>, cur: Option<Nearest>): Option<Nearest>
    requires |ms| == |hs|
  {
    if |ms| == 0 then cur
    else MirrorStep(MirrorPass(ms[..|ms| - 1], hs[..|hs| - 1], cur), ms[|ms| - 1], hs[|hs| - 1])
  }

  /** One human of the scan: a strictly nearer hit becomes the nearest, with the loop's human reflectivity. */
  function HumanStep(cur: Option<Nearest>, r: Option<Tagged<HumanPart>>, humanReflectivity: real): Option<Nearest> {
    if r.Some? && Nearer(r.value.t, cur) then Some(Nearest(r.value.t, r.value.n, "human", humanReflectivity)) else cur
  }

  /** The human loop, given each human's intersection in list order. */
  function HumanPass(rs: seq<Option<Tagged<HumanPart>>>, cur: Option<Nearest>, humanReflectivity: real): Option<Nearest> {
    if |rs| == 0 then cur
    else HumanStep(HumanPass(rs[..|rs| - 1], cur, humanReflectivity), rs[|rs| - 1], humanReflectivity)
  }

  /** The scan after the light test: the room, then the mirrors, then the humans. */
  function BounceScan(g: Geometry, sc: SceneConfig, ro: Vec3, rd: Vec3, wall: string, humanReflectivity: real): Option<Nearest> {
    var afterMirrors := MirrorPass(Mirrors(sc), MirrorHitsIn(g, ro, rd, Mirrors(sc)), RoomNearest(g, sc, ro, rd, wall));
    HumanPass(HumanHitsIn(g, ro, rd, Humans(sc)), afterMirrors, humanReflectivity)
  }

  // ---------------------------------------------------------------- what the scan can return

  /** A nearest hit is the room's (named `wall`, not reflective), a mirror's, or a human's with the loop's reflectivity. */
  ghost predicate Classified(r: Option<Nearest>, wall: string, humanReflectivity: real) {
    r.Some? ==>
      || (r.value.material == wall && r.value.reflectivity == 0.0)
      || r.value.material == "mirror"
      || (r.value.material == "human" && r.value.reflectivity == humanReflectivity)
  }

  lemma {:induction false} MirrorPassClassified(ms: seq<Mirror>, hs: seq<Hit>, cur: Option<Nearest>, wall: string, humanReflectivity: real)
    requires |ms| == |hs| && Classified(cur, wall, humanReflectivity)
    ensures Classified(MirrorPass(ms, hs, cur), wall, humanReflectivity)
    decreases |ms|
  {
    if |ms| > 0 {
      MirrorPassClassified(ms[..|ms| - 1], hs[..|hs| - 1], cur, wall, humanReflectivity);
    }
  }

  lemma {:induction false} HumanPassClassified(rs: seq<Option<Tagged<HumanPart>>>, cur: Option<Nearest>, wall: string, humanReflectivity: real)
    requires Classified(cur, wall, humanReflectivity)
    ensures Classified(HumanPass(rs, cur, humanReflectivity), wall, humanReflectivity)
    decreases |rs|
  {
    if |rs| > 0 {
      HumanPassClassified(rs[..|rs| - 1], cur, wall, humanReflectivity);
    }
  }

  /** Every hit the scan reports is the room, a mirror or a human. */
  lemma ScanClassified(g: Geometry, sc: SceneConfig, ro: Vec3, rd: Vec3, wall: string, humanReflectivity: real)
    ensures Classified(BounceScan(g, sc, ro, rd, wall, humanReflectivity), wall, humanReflectivity)
  {
    var room := RoomNearest(g, sc, ro, rd, wall);
    MirrorPassClassified(Mirrors(sc), MirrorHitsIn(g, ro, rd, Mirrors(sc)), room, wall, humanReflectivity);
    HumanPassClassified(HumanHitsIn(g, ro, rd, Humans(sc)), MirrorPass(Mirrors(sc), MirrorHitsIn(g, ro, rd, Mirrors(sc)), room), wall, humanReflectivity);
  }

  /** The mirror loop finds nothing exactly when it started with nothing and no mirror is hit. */
  lemma {:induction false} MirrorPassNone(ms: seq<Mirror>, hs: seq<Hit>, cur: Option<Nearest>)
    requires |ms| == |hs|
    ensures MirrorPass(ms, hs, cur).None? <==> cur.None? && forall k :: 0 <= k < |hs| ==> hs[k].Miss?
    decreases |ms|
  {
    if |ms| > 0 {
      MirrorPassNone(ms[..|ms| - 1], hs[..|hs| - 1], cur);
      assert forall k :: 0 <= k < |hs| - 1 ==> hs[..|hs| - 1][k] == hs[k];
    }
  }

  /** The human loop finds nothing exactly when it started with nothing and no human is hit. */
  lemma {:induction false} HumanPassNone(rs: seq<Option<Tagged<HumanPart>>>, cur: Option<Nearest>, humanReflectivity: real)
    ensures HumanPass(rs, cur, humanReflectivity).None? <==> cur.None? && forall k :: 0 <= k < |rs| ==> rs[k].None?
    decreases |rs|
  {
    if |rs| > 0 {
      HumanPassNone(rs[..|rs| - 1], cur, humanReflectivity);
      assert forall k :: 0 <= k < |rs| - 1 ==> rs[..|rs| - 1][k] == rs[k];
    }
  }

  /** The scan reports no hit exactly when the room, every mirror and every human miss. */
  lemma ScanMisses(g: Geometry, sc: SceneConfig, ro: Vec3, rd: Vec3, wall: string, humanReflectivity: real)
    ensures BounceScan(g, sc, ro, rd, wall, humanReflectivity).None? <==>
      && g.box(ro, rd, RoomMin(sc.room), RoomMax(sc.room)).Miss?
      && (forall k :: 0 <= k < |Mirrors(sc)| ==> g.mirror(ro, rd, Mirrors(sc)[k]).Miss?)
      && (forall k :: 0 <= k < |Humans(sc)| ==> g.human(ro, rd, Humans(sc)[k]).None?)
  {
    var ms := Mirrors(sc);
    var hs := MirrorHitsIn(g, ro, rd, ms);
    var rs := HumanHitsIn(g, ro, rd, Humans(sc));
    var room := RoomNearest(g, sc, ro, rd, wall);
    MirrorPassNone(ms, hs, room);
    HumanPassNone(rs, MirrorPass(ms, hs, room), humanReflectivity);
    assert forall k :: 0 <= k < |ms| ==> hs[k] == g.mirror(ro, rd, ms[k]);
    assert forall k :: 0 <= k < |Humans(sc)| ==> rs[k] == g.human(ro, rd, Humans(sc)[k]);
  }

  /** From within 1.1 radii of the light's centre the light is never hit. */
  lemma LightSkippedNearLight(m: MathLib, g: Geometry, sc: SceneConfig, ro: Vec3, rd: Vec3, room: Option<Nearest>)
    requires Length(m, Sub(ro, sc.light.position)) <= sc.light.radius * LightSkipFactor
    ensures LightAhead(m, g, sc, ro, rd, room) == None
  {
  }

  // ---------------------------------------------------------------- the scan as the loops run it

  /** The mirror loop of both bounce loops. */
  method MirrorLoop(m: MathLib, ghost g: Geometry, scene: Scene, ro: Vec3, rd: Vec3, cur: Option<Nearest>) returns (nearest: Option<Nearest>)
    requires scene.Valid() && Agrees(g, m)
    ensures nearest == MirrorPass(scene.mirrors, MirrorHitsIn(g, ro, rd, scene.mirrors), cur)
  {
    ghost var hs := MirrorHitsIn(g, ro, rd, scene.mirrors);
    nearest := cur;
    for i := 0 to |scene.mirrors|
      invariant nearest == MirrorPass(scene.mirrors[..i], hs[..i], cur)
    {
      assert scene.mirrors[..i + 1][..i] == scene.mirrors[..i] && hs[..i + 1][..i] == hs[..i];
      var h := IntersectMirror(m, ro, rd, scene.mirrors[i]);
      assert MirrorAgrees(g, m, ro, rd, scene.mirrors[i]);
      if h.Hit? && Nearer(h.t, nearest) {
        nearest := Some(Nearest(h.t, h.n, "mirror", scene.mirrors[i].Reflectivity()));
      }
    }
    assert scene.mirrors[..|scene.mirrors|] == scene.mirrors && hs[..|hs|] == hs;
  }

  /** The human loop of both bounce loops. */
  method HumanLoop(m: MathLib, ghost g: Geometry, scene: Scene, ro: Vec3, rd: Vec3, cur: Option<Nearest>, humanReflectivity: real)
    returns (nearest: Option<Nearest>)
    requires scene.Valid() && Agrees(g, m)
    ensures nearest == HumanPass(HumanHitsIn(g, ro, rd, scene.humanModels), cur, humanReflectivity)
  {
    ghost var rs := HumanHitsIn(g, ro, rd, scene.humanModels);
    nearest := cur;
    for i := 0 to |scene.humanModels|
      invariant nearest == HumanPass(rs[..i], cur, humanReflectivity)
    {
      assert rs[..i + 1][..i] == rs[..i];
      var r := scene.HumanAt(m, g, ro, rd, i);
      assert r == rs[i];
      if r.Some? && Nearer(r.value.t, nearest) {
        nearest := Some(Nearest(r.value.t, r.value.n, "human", humanReflectivity));
      }
    }
    assert rs[..|rs|] == rs;
  }

  /**
   * One scan of either bounce loop: the light's distance when the light
   * ends the path, and otherwise the nearest of room, mirrors and humans.
   */
  method Probe(m: MathLib, ghost g: Geometry, scene: Scene, ro: Vec3, rd: Vec3, wall: string, humanReflectivity: real)
    returns (lightT: Option<real>, nearest: Option<Nearest>)
    requires scene.Valid() && Agrees(g, m)
    ensures lightT == LightAhead(m, g, scene.config, ro, rd, RoomNearest(g, scene.config, ro, rd, wall))
    ensures lightT.None? ==> nearest == BounceScan(g, scene.config, ro, rd, wall, humanReflectivity)
  {
    nearest := None;
    var tRoom := RayAabb(ro, rd, scene.roomMin, scene.roomMax);
    assert BoxAgrees(g, ro, rd, scene.roomMin, scene.roomMax);
    if tRoom.Hit? {
      nearest := Some(Nearest(tRoom.t, tRoom.n, wall, 0.0));
    }
    assert nearest == RoomNearest(g, scene.config, ro, rd, wall);
    lightT := None;
    if Length(m, Sub(ro, scene.light.position)) > scene.light.radius * LightSkipFactor {
      var tLight := RaySphere(m, ro, rd, scene.light.position, scene.light.radius);
      assert SphereAgrees(g, m, ro, rd, scene.light.position, scene.light.radius);
      if tLight.Hit? && Nearer(tLight.t, nearest) {
        lightT := Some(tLight.t);
        return;
      }
    }
    nearest := MirrorLoop(m, g, scene, ro, rd, nearest);
    nearest := HumanLoop(m, g, scene, ro, rd, nearest, humanReflectivity);
  }
}
