/**
 * The scene record the tracer reads (the dictionaries behind `Scene` in
 * python/raytrace_cpu.py, lines 163-175). Keys read with `dict.get(key,
 * default)` are `Option` fields here, and the defaults the code supplies
 * are stated by the accessor functions.
 */
module Config {
  import opened Wrappers
  import opened Vector

  datatype Room = Room(center: Vec3, size: Vec3, floorColor: Vec3, ceilingColor: Vec3, wallColor: Vec3)

  datatype Light = Light(position: Vec3, radius: real, intensity: Vec3)

  /** A planar mirror; `size` is read by the code but never used to bound the hit. */
  datatype Mirror = Mirror(position: Vec3, normal: Vec3, size: seq<real>, reflectivity: Option<real>)
  {
    function Reflectivity(): real { reflectivity.GetOr(0.95) }
  }

  datatype Candle = Candle(position: Vec3, height: Option<real>, radius: Option<real>,
                           flameIntensity: Option<Vec3>, waxColor: Option<Vec3>)
  {
    function Height(): real { height.GetOr(1.5) }
    function Radius(): real { radius.GetOr(0.2) }
    function FlameIntensity(): Vec3 { flameIntensity.GetOr(Vec3(8.0, 6.0, 4.0)) }
    function WaxColor(): Vec3 { waxColor.GetOr(Vec3(0.9, 0.9, 0.95)) }
  }

  /** A human figure; `rotation` is in degrees about the vertical axis. */
  datatype Human = Human(position: Vec3, scale: Option<real>, rotation: Option<real>, color: Vec3)
  {
    function Scale(): real { scale.GetOr(1.0) }
    function Rotation(): real { rotation.GetOr(0.0) }
  }

  datatype SceneConfig = SceneConfig(room: Room, light: Light, mirrors: Option<seq<Mirror>>,
                                     humanModels: Option<seq<Human>>, candles: Option<seq<Candle>>)

  /** The defaults the tracer substitutes for keys a scene leaves out. */
  lemma Defaults(mi: Mirror, c: Candle, h: Human)
    ensures mi.reflectivity.None? ==> mi.Reflectivity() == 0.95
    ensures mi.reflectivity.Some? ==> mi.Reflectivity() == mi.reflectivity.value
    ensures c.height.None? ==> c.Height() == 1.5
    ensures c.radius.None? ==> c.Radius() == 0.2
    ensures c.flameIntensity.None? ==> c.FlameIntensity() == Vec3(8.0, 6.0, 4.0)
    ensures c.waxColor.None? ==> c.WaxColor() == Vec3(0.9, 0.9, 0.95)
    ensures h.scale.None? ==> h.Scale() == 1.0
    ensures h.rotation.None? ==> h.Rotation() == 0.0
  {
  }

  /** The room's corners: its centre minus and plus half its size on each axis. */
  function RoomMin(room: Room): Vec3 {
    Vec3(room.center.x - room.size.x / 2.0, room.center.y - room.size.y / 2.0, room.center.z - room.size.z / 2.0)
  }

  function RoomMax(room: Room): Vec3 {
    Vec3(room.center.x + room.size.x / 2.0, room.center.y + room.size.y / 2.0, room.center.z + room.size.z / 2.0)
  }

  /** The corners are symmetric about the centre and span exactly the size. */
  lemma RoomBounds(room: Room)
    ensures Sub(RoomMax(room), RoomMin(room)) == room.size
    ensures Mul(Add(RoomMin(room), RoomMax(room)), 0.5) == room.center
    ensures room.size.x >= 0.0 ==> RoomMin(room).x <= RoomMax(room).x
  {
  }
}
