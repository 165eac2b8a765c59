/**
 * The composite objects of `Scene` in python/raytrace_cpu.py: the room's
 * face colours, the mirror plane, and the candle and human figures built
 * from spheres and vertical cylinders (lines 177-348).
 *
 * `intersect_candle` and `intersect_human` collect the hits of their parts
 * in a list, sort it by distance and return its head. Python's sort is
 * stable, so the head is the FIRST hit with the smallest distance; that is
 * what `Nearest` returns.
 */
module Composite {
  import opened Wrappers
  import opened Vector
  import opened Primitives
  import opened Config

  // ---------------------------------------------------------------- room and mirror

  /** `get_room_face_color`: floor below -0.9, ceiling above 0.9, wall otherwise. */
  function RoomFaceColor(room: Room, n: Vec3): (c: Vec3)
    ensures n.y < -0.9 ==> c == room.floorColor
    ensures n.y > 0.9 ==> c == room.ceilingColor
    ensures -0.9 <= n.y <= 0.9 ==> c == room.wallColor
  {
    if n.y < -0.9 then room.floorColor
    else if n.y > 0.9 then room.ceilingColor
    else room.wallColor
  }

  /** On the box normals that `ray_aabb` returns, the floor is -Y, the ceiling +Y and the four walls the rest. */
  lemma RoomFaceColorOfBoxNormal(room: Room, n: Vec3)
    requires IsAxisUnit(n)
    ensures RoomFaceColor(room, n) == (if n == Vec3(0.0, -1.0, 0.0) then room.floorColor
                                      else if n == Vec3(0.0, 1.0, 0.0) then room.ceilingColor
                                      else room.wallColor)
  {
  }

  /**
   * `intersect_mirror`: the plane through the mirror's position with its
   * normalised normal. The mirror's `size` is not used, so the mirror is an
   * unbounded plane.
   */
  function IntersectMirror(m: MathLib, ro: Vec3, rd: Vec3, mirror: Mirror): (r: Hit)
    ensures r == RayPlane(ro, rd, mirror.position, Norm(m, mirror.normal))
    ensures Length(m, mirror.normal) < NormEpsilon ==> r == Miss
    ensures IsSqrt(m) && r.Hit? ==> Dot(r.n, r.n) == 1.0
  {
    var n := Norm(m, mirror.normal);
    if Length(m, mirror.normal) < NormEpsilon then
      assert Dot(rd, n) == 0.0;
      RayPlane(ro, rd, mirror.position, n)
    else
      RayPlane(ro, rd, mirror.position, n)
  }

  // ---------------------------------------------------------------- parts and nearest hit

  datatype Shape = Sphere(center: Vec3, radius: real) | Cylinder(base: Vec3, radius: real, height: real)

  /** One part of a composite object, labelled with the name the code reports for it. */
  datatype Part<P> = Part(shape: Shape, tag: P)

  /** An entry of the `hits` list: distance, normal and part name. */
  datatype Tagged<P> = Tagged(t: real, n: Vec3, tag: P)

  function ShapeHit(m: MathLib, ro: Vec3, rd: Vec3, s: Shape): Hit {
    match s
    case Sphere(c, r) => RaySphere(m, ro, rd, c, r)
    case Cylinder(c, r, h) => CylinderHit(m, ro, rd, c, r, h)
  }

  /**
   * The intersector of one ray, shape by shape. The list code below is
   * written over any such intersector, so its lemmas hold whatever the
   * shapes' geometry.
   */
  function Intersector(m: MathLib, ro: Vec3, rd: Vec3): (hit: Shape -> Hit)
    ensures forall s :: hit(s) == ShapeHit(m, ro, rd, s)
  {
    s => ShapeHit(m, ro, rd, s)
  }

  /** The result of each part's intersector, in part order. */
  function PartHits<P>(hit: Shape -> Hit, parts: seq<Part<P>>): (hs: seq<Hit>)
    ensures |hs| == |parts|
    ensures forall k :: 0 <= k < |parts| ==> hs[k] == hit(parts[k].shape)
  {
    if |parts| == 0 then []
    else PartHits(hit, parts[..|parts| - 1]) + [hit(parts[|parts| - 1].shape)]
  }

  function Tags<P>(parts: seq<Part<P>>): (tags: seq<P>)
    ensures |tags| == |parts|
    ensures forall k :: 0 <= k < |parts| ==> tags[k] == parts[k].tag
  {
    if |parts| == 0 then []
    else Tags(parts[..|parts| - 1]) + [parts[|parts| - 1].tag]
  }

  /** The `hits.append` of one part: one entry for a hit, none for a miss. */
  function Entries<P>(h: Hit, tag: P): (es: seq<Tagged<P>>)
    ensures h.Miss? ==> es == []
    ensures h.Hit? ==> es == [Tagged(h.t, h.n, tag)]
  {
    if h.Hit? then [Tagged(h.t, h.n, tag)] else []
  }

  /** The `hits` list built from the parts' results, in part order. */
  function Collect<P>(hs: seq<Hit>, tags: seq<P>): seq<Tagged<P>>
    requires |hs| == |tags|
  {
    if |hs| == 0 then []
    else Collect(hs[..|hs| - 1], tags[..|tags| - 1]) + Entries(hs[|hs| - 1], tags[|tags| - 1])
  }

  /** The `hits` list of a composite object before it is sorted. */
  function HitsOf<P>(hit: Shape -> Hit, parts: seq<Part<P>>): seq<Tagged<P>> {
    Collect(PartHits(hit, parts), Tags(parts))
  }

  /** Visiting part i appends its entries to the `hits` list of the parts before it. */
  lemma HitsOfAppend<P>(hit: Shape -> Hit, parts: seq<Part<P>>, i: int)
    requires 0 <= i < |parts|
    ensures HitsOf(hit, parts[..i + 1]) == HitsOf(hit, parts[..i]) + Entries(hit(parts[i].shape), parts[i].tag)
  {
    var ps := parts[..i + 1];
    assert ps[..i] == parts[..i];
    var hs, tags := PartHits(hit, ps), Tags(ps);
    assert hs[..i] == PartHits(hit, parts[..i]);
    assert tags[..i] == Tags(parts[..i]);
  }

  /** Index i holds the head of a stable sort by distance: no entry is nearer, and every earlier one is farther. */
  ghost predicate IsFirstNearest<P>(hits: seq<Tagged<P>>, i: int) {
    && 0 <= i < |hits|
    && (forall j :: 0 <= j < |hits| ==> hits[i].t <= hits[j].t)
    && (forall j :: 0 <= j < i ==> hits[j].t > hits[i].t)
  }

  /** At most one index can be the head of the stable sort. */
  lemma FirstNearestUnique<P>(hits: seq<Tagged<P>>, i: int, k: int)
    requires IsFirstNearest(hits, i) && IsFirstNearest(hits, k)
    ensures i == k
  {
    assert hits[i].t <= hits[k].t && hits[k].t <= hits[i].t;
  }

  /** The index of the first entry with the smallest distance. */
  function NearestIndex<P>(hits: seq<Tagged<P>>): (i: nat)
    requires |hits| > 0
    ensures IsFirstNearest(hits, i)
  {
    if |hits| == 1 then 0
    else
      var p := NearestIndex(hits[..|hits| - 1]);
      assert forall j :: 0 <= j < |hits| - 1 ==> hits[..|hits| - 1][j] == hits[j];
      if hits[|hits| - 1].t < hits[p].t then |hits| - 1 else p
  }

  /** `hits.sort(key=distance); return hits[0]`, or no hit for an empty list. */
  function Nearest<P>(hits: seq<Tagged<P>>): (r: Option<Tagged<P>>)
    ensures r.None? <==> |hits| == 0
    ensures r.Some? ==> exists i :: IsFirstNearest(hits, i) && r.value == hits[i]
  {
    if |hits| == 0 then None else Some(hits[NearestIndex(hits)])
  }

  /** What a composite object of the given parts reports for a ray. */
  function IntersectParts<P>(hit: Shape -> Hit, parts: seq<Part<P>>): Option<Tagged<P>> {
    Nearest(HitsOf(hit, parts))
  }

  /** The `hits` list holds exactly the parts' hits, each with its distance, normal and name. */
  lemma {:induction false} CollectMembers<P>(hs: seq<Hit>, tags: seq<P>)
    requires |hs| == |tags|
    ensures forall x :: x in Collect(hs, tags) <==>
      exists k :: 0 <= k < |hs| && hs[k] == Hit(x.t, x.n) && tags[k] == x.tag
  {
    if |hs| > 0 {
      var n := |hs| - 1;
      var hs', tags' := hs[..n], tags[..n];
      CollectMembers(hs', tags');
      var c := Collect(hs, tags);
      assert c == Collect(hs', tags') + Entries(hs[n], tags[n]);
      forall x
        ensures x in c <==> exists k :: 0 <= k < |hs| && hs[k] == Hit(x.t, x.n) && tags[k] == x.tag
      {
        if x in c && x !in Collect(hs', tags') {
          assert hs[n] == Hit(x.t, x.n) && tags[n] == x.tag;
        }
        if exists k :: 0 <= k < |hs| && hs[k] == Hit(x.t, x.n) && tags[k] == x.tag {
          var k :| 0 <= k < |hs| && hs[k] == Hit(x.t, x.n) && tags[k] == x.tag;
          if k < n {
            assert hs'[k] == Hit(x.t, x.n) && tags'[k] == x.tag;
            assert x in Collect(hs', tags');
          }
        }
      }
    }
  }

  /** The `hits` list is empty exactly when every part misses. */
  lemma {:induction false} CollectEmpty<P>(hs: seq<Hit>, tags: seq<P>)
    requires |hs| == |tags|
    ensures |Collect(hs, tags)| == 0 <==> forall k :: 0 <= k < |hs| ==> hs[k].Miss?
  {
    if |hs| > 0 {
      var n := |hs| - 1;
      var hs' := hs[..n];
      CollectEmpty(hs', tags[..n]);
      assert |Collect(hs, tags)| == |Collect(hs', tags[..n])| + |Entries(hs[n], tags[n])|;
      assert forall k :: 0 <= k < n ==> hs'[k] == hs[k];
    }
  }

  /**
   * The head of the sorted `hits` list: none exactly when every part
   * misses, and otherwise one of the parts' hits with no part hit nearer.
   */
  lemma NearestOfCollect<P>(hs: seq<Hit>, tags: seq<P>)
    requires |hs| == |tags|
    ensures Nearest(Collect(hs, tags)).None? <==> forall k :: 0 <= k < |hs| ==> hs[k].Miss?
    ensures var r := Nearest(Collect(hs, tags));
      r.Some? ==>
        && (exists k :: 0 <= k < |hs| && hs[k] == Hit(r.value.t, r.value.n) && tags[k] == r.value.tag)
        && (forall k :: 0 <= k < |hs| && hs[k].Hit? ==> r.value.t <= hs[k].t)
  {
    CollectEmpty(hs, tags);
    NearestIsPartHit(hs, tags);
    NearestIsMinimal(hs, tags);
  }

  lemma NearestIsPartHit<P>(hs: seq<Hit>, tags: seq<P>)
    requires |hs| == |tags|
    ensures var r := Nearest(Collect(hs, tags));
      r.Some? ==> exists k :: 0 <= k < |hs| && hs[k] == Hit(r.value.t, r.value.n) && tags[k] == r.value.tag
  {
    CollectMembers(hs, tags);
    var c := Collect(hs, tags);
    var r := Nearest(c);
    if r.Some? {
      var i :| IsFirstNearest(c, i) && r.value == c[i];
      assert r.value in c;
    }
  }

  lemma NearestIsMinimal<P>(hs: seq<Hit>, tags: seq<P>)
    requires |hs| == |tags|
    ensures var r := Nearest(Collect(hs, tags));
      r.Some? ==> forall k :: 0 <= k < |hs| && hs[k].Hit? ==> r.value.t <= hs[k].t
  {
    CollectMembers(hs, tags);
    var c := Collect(hs, tags);
    var r := Nearest(c);
    if r.Some? {
      var i :| IsFirstNearest(c, i) && r.value == c[i];
      forall k | 0 <= k < |hs| && hs[k].Hit?
        ensures r.value.t <= hs[k].t
      {
        var x := Tagged(hs[k].t, hs[k].n, tags[k]);
        assert x in c;
        var j :| 0 <= j < |c| && c[j] == x;
      }
    }
  }

  /**
   * A composite object reports no hit exactly when none of its parts is hit;
   * otherwise it reports one of its parts' hits and no part is hit nearer.
   */
  lemma IntersectPartsNone<P>(hit: Shape -> Hit, parts: seq<Part<P>>)
    ensures IntersectParts(hit, parts).None? <==>
      forall k :: 0 <= k < |parts| ==> hit(parts[k].shape).Miss?
  {
    var hs := PartHits(hit, parts);
    var tags := Tags(parts);
    NearestOfCollect(hs, tags);
  }

  lemma IntersectPartsSome<P>(hit: Shape -> Hit, parts: seq<Part<P>>)
    ensures var r := IntersectParts(hit, parts);
      r.Some? ==>
        exists k :: 0 <= k < |parts| && hit(parts[k].shape) == Hit(r.value.t, r.value.n) && parts[k].tag == r.value.tag
  {
    var hs := PartHits(hit, parts);
    var tags := Tags(parts);
    NearestOfCollect(hs, tags);
    var r := IntersectParts(hit, parts);
    if r.Some? {
      var k :| 0 <= k < |hs| && hs[k] == Hit(r.value.t, r.value.n) && tags[k] == r.value.tag;
      assert hit(parts[k].shape) == Hit(r.value.t, r.value.n) && parts[k].tag == r.value.tag;
    }
  }

  lemma IntersectPartsMin<P>(hit: Shape -> Hit, parts: seq<Part<P>>)
    ensures var r := IntersectParts(hit, parts);
      r.Some? ==>
        forall k :: 0 <= k < |parts| && hit(parts[k].shape).Hit? ==> r.value.t <= hit(parts[k].shape).t
  {
    var hs := PartHits(hit, parts);
    var tags := Tags(parts);
    NearestOfCollect(hs, tags);
  }

  /**
   * A composite object reports no hit exactly when none of its parts is hit;
   * otherwise it reports one of its parts' hits and no part is hit nearer.
   */
  lemma IntersectPartsNearest<P>(hit: Shape -> Hit, parts: seq<Part<P>>)
    ensures IntersectParts(hit, parts).None? <==>
      forall k :: 0 <= k < |parts| ==> hit(parts[k].shape).Miss?
    ensures var r := IntersectParts(hit, parts);
      r.Some? ==>
        && (exists k :: 0 <= k < |parts| && hit(parts[k].shape) == Hit(r.value.t, r.value.n) && parts[k].tag == r.value.tag)
        && (forall k :: 0 <= k < |parts| && hit(parts[k].shape).Hit? ==> r.value.t <= hit(parts[k].shape).t)
  {
    IntersectPartsNone(hit, parts);
    IntersectPartsSome(hit, parts);
    IntersectPartsMin(hit, parts);
  }

  // ---------------------------------------------------------------- candle

  datatype CandlePart = Body | Flame

  const FlameLift: real := 0.15
  const FlameRadius: real := 0.12

  /** The wax cylinder standing on the candle's position and the flame sphere above it, in that order. */
  function CandleParts(c: Candle): (ps: seq<Part<CandlePart>>)
    ensures |ps| == 2 && ps[0].tag == Body && ps[1].tag == Flame
  {
    var p := c.position;
    [Part(Cylinder(Vec3(p.x, p.y + c.Height() * 0.5, p.z), c.Radius(), c.Height()), Body),
     Part(Sphere(Vec3(p.x, p.y + c.Height() + FlameLift, p.z), FlameRadius), Flame)]
  }

  /** `intersect_candle`. */
  function IntersectCandle(m: MathLib, ro: Vec3, rd: Vec3, c: Candle): Option<Tagged<CandlePart>> {
    IntersectParts(Intersector(m, ro, rd), CandleParts(c))
  }

  /**
   * The candle reports the flame only when the flame is hit strictly nearer
   * than the body, or the body is missed: on a tie the body wins.
   */
  lemma CandleBodyWinsTies(m: MathLib, ro: Vec3, rd: Vec3, c: Candle)
    ensures var ps := CandleParts(c);
      var body := ShapeHit(m, ro, rd, ps[0].shape);
      var flame := ShapeHit(m, ro, rd, ps[1].shape);
      var r := IntersectCandle(m, ro, rd, c);
      && (r.None? <==> body.Miss? && flame.Miss?)
      && (r.Some? && r.value.tag == Flame <==> flame.Hit? && (body.Miss? || flame.t < body.t))
      && (r.Some? && r.value.tag == Body ==> r.value.t == body.t && r.value.n == body.n)
      && (r.Some? && r.value.tag == Flame ==> r.value.t == flame.t && r.value.n == flame.n)
  {
    var ps := CandleParts(c);
    var hs := PartHits(Intersector(m, ro, rd), ps);
    var tags := Tags(ps);
    assert hs[..1][..0] == [] && tags[..1][..0] == [];
    assert hs[..1] == [hs[0]] && tags[..1] == [Body];
    assert Collect(hs[..1], tags[..1]) == Entries(hs[0], Body);
    assert Collect(hs, tags) == Entries(hs[0], Body) + Entries(hs[1], Flame);
    NearestOfTwo(hs[0], hs[1], Body, Flame);
  }

  /** The head of the stable sort of at most two entries. */
  lemma NearestOfTwo<P>(a: Hit, b: Hit, ta: P, tb: P)
    requires ta != tb
    ensures var r := Nearest(Entries(a, ta) + Entries(b, tb));
      && (r.None? <==> a.Miss? && b.Miss?)
      && (r.Some? && r.value.tag == tb <==> b.Hit? && (a.Miss? || b.t < a.t))
      && (r.Some? && r.value.tag == ta ==> r.value == Tagged(a.t, a.n, ta))
      && (r.Some? && r.value.tag == tb ==> r.value == Tagged(b.t, b.n, tb))
  {
    var hs := Entries(a, ta) + Entries(b, tb);
    if a.Hit? && b.Hit? {
      assert hs == [Tagged(a.t, a.n, ta), Tagged(b.t, b.n, tb)];
      var r := Nearest(hs);
      var i :| IsFirstNearest(hs, i) && r.value == hs[i];
      assert i == 0 || i == 1;
    }
  }

  // ---------------------------------------------------------------- human

  datatype HumanPart = Head | Torso | Arm | Leg | Hand | Foot

  const Pi: real := 3.141592653589793

  /** The figure's rotation in radians. */
  function RotationRadians(h: Human): real {
    h.Rotation() * Pi / 180.0
  }

  /** `rotate_and_translate`: turns an offset about the vertical axis and adds the position. */
  function Place(m: MathLib, h: Human, x: real, y: real, z: real): (p: Vec3)
    ensures p.y == h.position.y + y
  {
    var a := RotationRadians(h);
    var cr := m.cos(a);
    var sr := m.sin(a);
    Vec3(h.position.x + (x * cr - z * sr), h.position.y + y, h.position.z + (x * sr + z * cr))
  }

  /** The fourteen parts of the figure in the order the code tests them; head and torso are not rotated. */
  function HumanParts(m: MathLib, h: Human): (ps: seq<Part<HumanPart>>)
    ensures |ps| == 14
  {
    var s := h.Scale();
    var p := h.position;
    [ Part(Sphere(Vec3(p.x, p.y + 1.1 * s, p.z), 0.15 * s), Head),
      Part(Cylinder(Vec3(p.x, p.y + 0.4 * s, p.z), 0.25 * s, 0.8 * s), Torso),
      Part(Sphere(Place(m, h, -0.35 * s, 0.5 * s, 0.0), 0.1 * s), Arm),
      Part(Sphere(Place(m, h, -0.5 * s, 0.2 * s, 0.0), 0.08 * s), Arm),
      Part(Sphere(Place(m, h, 0.35 * s, 0.5 * s, 0.0), 0.1 * s), Arm),
      Part(Sphere(Place(m, h, 0.5 * s, 0.2 * s, 0.0), 0.08 * s), Arm),
      Part(Cylinder(Place(m, h, -0.15 * s, -0.2 * s, 0.0), 0.12 * s, 0.4 * s), Leg),
      Part(Cylinder(Place(m, h, -0.15 * s, -0.6 * s, 0.0), 0.1 * s, 0.4 * s), Leg),
      Part(Cylinder(Place(m, h, 0.15 * s, -0.2 * s, 0.0), 0.12 * s, 0.4 * s), Leg),
      Part(Cylinder(Place(m, h, 0.15 * s, -0.6 * s, 0.0), 0.1 * s, 0.4 * s), Leg),
      Part(Sphere(Place(m, h, -0.65 * s, 0.05 * s, 0.0), 0.07 * s), Hand),
      Part(Sphere(Place(m, h, 0.65 * s, 0.05 * s, 0.0), 0.07 * s), Hand),
      Part(Sphere(Place(m, h, -0.15 * s, -0.9 * s, 0.1 * s), 0.08 * s), Foot),
      Part(Sphere(Place(m, h, 0.15 * s, -0.9 * s, 0.1 * s), 0.08 * s), Foot) ]
  }

  /** `intersect_human`. */
  function IntersectHuman(m: MathLib, ro: Vec3, rd: Vec3, h: Human): Option<Tagged<HumanPart>> {
    IntersectParts(Intersector(m, ro, rd), HumanParts(m, h))
  }

  /**
   * A rotation about the vertical axis: when cos² + sin² = 1 at the
   * figure's angle, the placed point is as far from the figure's vertical
   * axis as the offset is from the origin, and it is raised by the offset's
   * height.
   */
  lemma PlaceKeepsHorizontalDistance(m: MathLib, h: Human, x: real, y: real, z: real)
    requires m.cos(RotationRadians(h)) * m.cos(RotationRadians(h)) + m.sin(RotationRadians(h)) * m.sin(RotationRadians(h)) == 1.0
    ensures var p := Place(m, h, x, y, z);
      (p.x - h.position.x) * (p.x - h.position.x) + (p.z - h.position.z) * (p.z - h.position.z) == x * x + z * z
      && p.y - h.position.y == y
  {
    var c := m.cos(RotationRadians(h));
    var s := m.sin(RotationRadians(h));
    var p := Place(m, h, x, y, z);
    assert p.x - h.position.x == x * c - z * s;
    assert p.z - h.position.z == x * s + z * c;
    calc {
      (x * c - z * s) * (x * c - z * s) + (x * s + z * c) * (x * s + z * c);
      x * x * (c * c + s * s) + z * z * (c * c + s * s);
      x * x + z * z;
    }
  }

  /** With no rotation the limbs sit at their unrotated offsets when cos 0 = 1 and sin 0 = 0. */
  lemma PlaceUnrotated(m: MathLib, h: Human, x: real, y: real, z: real)
    requires h.Rotation() == 0.0 && m.cos(0.0) == 1.0 && m.sin(0.0) == 0.0
    ensures Place(m, h, x, y, z) == Add(h.position, Vec3(x, y, z))
  {
  }
}
