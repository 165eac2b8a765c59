/**
 * The scene file check of python/scene.py (lines 10-33): `validate_scene`
 * looks at a parsed scene dictionary and fails on the first requirement
 * it finds unmet.
 *
 * A parsed JSON value is a `Json`; `ValidateScene` returns `Passed` or the
 * first failure, in the order the checks are made. `WellFormedScene`
 * states the requirements as one condition, and the lemmas prove that the
 * check passes exactly on well-formed scenes, which failure each missing
 * part causes, and that nothing else in the scene is looked at.
 */
module SceneFile {

  /** A parsed JSON value; objects are dictionaries from keys to values. */
  datatype Json =
    | JNull
    | JBool(b: bool)
    | JNum(x: real)
    | JStr(s: string)
    | JArr(items: seq<Json>)
    | JObj(fields: map<string, Json>)

  /** Why the check failed: a missing top-level group (with its message), or a group field that is missing or has the wrong length. */
  datatype SceneError = MissingGroup(message: string) | BadField(group: string, field: string)

  datatype Verdict = Passed | Failed(error: SceneError)

  /**
   * Python's `key in v` followed by `v[key]` succeeds only on a dictionary
   * holding the key: on a list or a string `in` tests elements or
   * substrings and the subscript then raises, and on anything else `in`
   * raises. Either way the check fails.
   */
  predicate Has(v: Json, key: string) {
    v.JObj? && key in v.fields
  }

  /**
   * Python's `len(x) == 3`: three elements, three characters or three
   * keys, whatever the elements are; `len` of anything else raises.
   */
  predicate LengthThree(v: Json) {
    match v
    case JArr(items) => |items| == 3
    case JStr(s) => |s| == 3
    case JObj(fields) => |fields| == 3
    case _ => false
  }

  /** `key in v and len(v[key]) == 3`. */
  predicate HasTriple(v: Json, key: string) {
    Has(v, key) && LengthThree(v.fields[key])
  }

  /** `validate_scene`: the checks in order, stopping at the first one that fails. */
  function ValidateScene(scene: map<string, Json>): Verdict {
    if "camera" !in scene then Failed(MissingGroup("Scene must have camera"))
    else if "room" !in scene then Failed(MissingGroup("Scene must have room"))
    else if "light" !in scene then Failed(MissingGroup("Scene must have light"))
    else if "render" !in scene then Failed(MissingGroup("Scene must have render settings"))
    else
      var cam := scene["camera"];
      var room := scene["room"];
      var light := scene["light"];
      if !HasTriple(cam, "position") then Failed(BadField("camera", "position"))
      else if !HasTriple(cam, "look_at") then Failed(BadField("camera", "look_at"))
      else if !Has(cam, "fov") then Failed(BadField("camera", "fov"))
      else if !HasTriple(room, "size") then Failed(BadField("room", "size"))
      else if !HasTriple(room, "center") then Failed(BadField("room", "center"))
      else if !HasTriple(light, "position") then Failed(BadField("light", "position"))
      else if !HasTriple(light, "intensity") then Failed(BadField("light", "intensity"))
      else Passed
  }

  // ---------------------------------------------------------------- the requirements as one condition

  /** The camera has a position and a look-at point of length 3, and a field of view. */
  ghost predicate CameraOk(cam: Json) {
    cam.JObj? && "position" in cam.fields && "look_at" in cam.fields && "fov" in cam.fields
    && LengthThree(cam.fields["position"]) && LengthThree(cam.fields["look_at"])
  }

  /** The room has a size and a centre of length 3. */
  ghost predicate RoomOk(room: Json) {
    room.JObj? && "size" in room.fields && "center" in room.fields
    && LengthThree(room.fields["size"]) && LengthThree(room.fields["center"])
  }

  /** The light has a position and an intensity of length 3. */
  ghost predicate LightOk(light: Json) {
    light.JObj? && "position" in light.fields && "intensity" in light.fields
    && LengthThree(light.fields["position"]) && LengthThree(light.fields["intensity"])
  }

  /** All four groups are present and the camera, room and light meet their requirements. */
  ghost predicate WellFormedScene(scene: map<string, Json>) {
    && "camera" in scene && "room" in scene && "light" in scene && "render" in scene
    && CameraOk(scene["camera"]) && RoomOk(scene["room"]) && LightOk(scene["light"])
  }

  /** The check passes exactly on the well-formed scenes. */
  lemma ValidatePassesIff(scene: map<string, Json>)
    ensures ValidateScene(scene) == Passed <==> WellFormedScene(scene)
  {
  }

  /** A missing group fails the check with the message of the first group missing, in the order camera, room, light, render. */
  lemma MissingGroupFails(scene: map<string, Json>)
    requires "camera" !in scene || "room" !in scene || "light" !in scene || "render" !in scene
    ensures ValidateScene(scene).Failed? && ValidateScene(scene).error.MissingGroup?
    ensures "camera" !in scene ==> ValidateScene(scene) == Failed(MissingGroup("Scene must have camera"))
    ensures "camera" in scene && "room" !in scene ==> ValidateScene(scene) == Failed(MissingGroup("Scene must have room"))
    ensures "camera" in scene && "room" in scene && "light" !in scene ==> ValidateScene(scene) == Failed(MissingGroup("Scene must have light"))
    ensures "camera" in scene && "room" in scene && "light" in scene && "render" !in scene ==>
      ValidateScene(scene) == Failed(MissingGroup("Scene must have render settings"))
  {
  }

  /** With all groups present, a camera without a position or look-at point of length 3, or without a field of view, fails the check on the camera. */
  lemma BadCameraFails(scene: map<string, Json>)
    requires "camera" in scene && "room" in scene && "light" in scene && "render" in scene
    requires !CameraOk(scene["camera"])
    ensures ValidateScene(scene).Failed? && ValidateScene(scene).error.BadField?
    ensures ValidateScene(scene).error.group == "camera"
  {
  }

  /** With all groups present and a good camera, a room without a size or centre of length 3 fails the check on the room. */
  lemma BadRoomFails(scene: map<string, Json>)
    requires "camera" in scene && "room" in scene && "light" in scene && "render" in scene
    requires CameraOk(scene["camera"]) && !RoomOk(scene["room"])
    ensures ValidateScene(scene).Failed? && ValidateScene(scene).error.BadField?
    ensures ValidateScene(scene).error.group == "room"
  {
  }

  /** With all groups present and a good camera and room, a light without a position or intensity of length 3 fails the check on the light. */
  lemma BadLightFails(scene: map<string, Json>)
    requires "camera" in scene && "room" in scene && "light" in scene && "render" in scene
    requires CameraOk(scene["camera"]) && RoomOk(scene["room"]) && !LightOk(scene["light"])
    ensures ValidateScene(scene).Failed? && ValidateScene(scene).error.BadField?
    ensures ValidateScene(scene).error.group == "light"
  {
  }

  /** The keys of a group the check looks at. */
  function InspectedFields(group: string): set<string> {
    if group == "camera" then {"position", "look_at", "fov"}
    else if group == "room" then {"size", "center"}
    else if group == "light" then {"position", "intensity"}
    else {}
  }

  /**
   * The check does not look at the render settings' contents nor at any
   * top-level key other than the four groups: replacing such a value, or
   * adding such a key, leaves the verdict as it was.
   */
  lemma TopLevelUninspected(scene: map<string, Json>, key: string, v: Json)
    requires key != "camera" && key != "room" && key != "light"
    requires key == "render" ==> "render" in scene
    ensures ValidateScene(scene[key := v]) == ValidateScene(scene)
  {
    assert forall k :: k in scene[key := v] <==> k in scene || k == key;
  }

  /**
   * Inside the camera, room and light, the check looks only at the keys
   * it names: in particular not at the light's radius. Replacing such a
   * key's value, or adding such a key, leaves the verdict as it was.
   */
  lemma FieldUninspected(scene: map<string, Json>, group: string, key: string, v: Json)
    requires group == "camera" || group == "room" || group == "light"
    requires group in scene && scene[group].JObj?
    requires key !in InspectedFields(group)
    ensures ValidateScene(scene[group := JObj(scene[group].fields[key := v])]) == ValidateScene(scene)
  {
    var after := scene[group := JObj(scene[group].fields[key := v])];
    assert forall k :: k in after <==> k in scene;
  }
}
