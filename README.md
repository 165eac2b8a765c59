# A verified model of the CPU ray tracer

This project models the decision logic of a small Python CPU ray tracer
(tahamir79/Ray-Tracing) in Dafny and proves properties of it. A scene has
four kinds of content:

- an axis-aligned room;
- a spherical point light;
- planar mirrors, which are unbounded;
- candles (a wax cylinder with an emissive flame sphere on top) and
  articulated human figures built from 14 spheres and cylinders.

The model covers four parts of the program:

- **Vector algebra and primitive intersectors** (`vector.dfy`,
  `primitives.dfy`):
  - the vector helpers;
  - the slab test `ray_aabb`, with its fixed face-priority order;
  - `ray_sphere`, `ray_plane` and the finite vertical `ray_cylinder`, with
    their fixed epsilons (1e-8 for parallel or degenerate cases, 1e-4 as the
    minimum distance).
- **Scene configuration and composite objects** (`config.dfy`,
  `composite.dfy`):
  - the scene dictionaries as datatypes, with each `dict.get` default made
    explicit;
  - the room face colour, the mirror test, and the candle and human tests.
    Each of the last two collects its parts' hits and returns the head of
    the stably sorted list.
- **The recursive tracer** (`tracespec.dfy`, `tracer.dfy`, `scene.dfy`):
  - the priority-ordered nearest-hit scan: room, light, mirrors, candles,
    then humans, with strict `<` so earlier categories win ties;
  - the light and candle-flame short-circuits;
  - the reflection branch and the diffuse branch, with the shadow ray and
    its fixed order of tests;
  - the exponential fade after bounce 6, and Reinhard tone mapping.

  `TraceSpec` and `Tracer` state all of this as functions. `Scenes.Scene`
  is the imperative `Scene` class. Its loops, early returns, `blocked`
  flag and recursive `trace` are proved to compute exactly those
  functions.
- **The path-recording bounce loops and the scene check** (`bounce.dfy`,
  `raypath.dfy`, `validation.dfy`, `scenefile.dfy`):
  - `trace_ray_path`, with its `RayPath` record;
  - `trace_ray_with_validation`;
  - `validate_scene`.

  Each `while` loop is an imperative method proved to record exactly the
  list given by a recursive specification function. The loop bounds,
  segment counts, energy bounds and which hits end a path are proved about
  that function.

Floating-point numbers are modelled as `real`. `math.sqrt`, `math.exp`,
`math.cos` and `math.sin` are the fields of a `MathLib` value passed to every
operation that uses them. Two predicates hold the only facts the proofs use
about them:

- `IsSqrt`: the root is non-negative and squares back to its argument;
- `ExpDecays`: `exp` maps non-positive arguments into (0, 1].

Lemmas that need these facts require the predicate.

The tracer is written over intersectors passed as a `Geometry` value. It
holds the sphere, box, mirror, candle and human tests as function values.
`Agrees(g, m)` says that a `Geometry` computes what the real intersectors
compute, and `SceneGeometry(m)` is the one built from them. The imperative
methods take the `Geometry` as a ghost parameter. Every result is stated for
the scene's own intersectors at the top-level methods (`Scenes.Scene.TraceScene`,
`RayPaths.TraceRayPath`, `Validation.TraceRayWithValidation`).

On scene validation, `validate_scene` only checks `len(...) == 3`, so a
three-character string or a three-key object passes as a triple; the
entries' types are never checked (`SceneFile.LengthThree`).

## Model

| member | source | states |
|---|---|---|
| Vector.AddSubInverse | python/raytrace_cpu.py:12-16 | `sub` undoes `add` and `add` undoes `sub` |
| Vector.DotSelfNonNegative | python/raytrace_cpu.py:21-22 | `dot(v, v)` is never negative |
| Vector.Length | python/raytrace_cpu.py:24-25 | the length is the non-negative square root of `dot(v, v)` |
| Vector.Norm | python/raytrace_cpu.py:27-31 | exactly (0,0,0) when the length is below 1e-8, otherwise `v` scaled by 1/length, which has unit length |
| Vector.NormUnitOrZero | python/raytrace_cpu.py:27-31 | `norm` returns a unit vector or the zero vector, and the zero vector exactly when the length is below 1e-8 |
| Vector.ReflectProperties | python/raytrace_cpu.py:33-35 | for a unit normal, `reflect(d,n)·n == -(d·n)`, the length is preserved, and reflecting twice gives back `d` |
| Vector.ReflectZeroNormal | python/raytrace_cpu.py:33-35 | reflecting off the zero normal leaves the direction unchanged |
| Vector.Clamp01 | python/raytrace_cpu.py:37-38 | the result is in [0,1], equals x inside it, and is 0 below it and 1 above it |
| Primitives.FaceNormalUnit | python/raytrace_cpu.py:63-76 | the box normal is always a signed unit axis vector |
| Primitives.FaceNormalPriority | python/raytrace_cpu.py:63-76 | each face normal is chosen exactly when its face is within 1e-4 and no earlier face in the order −X, +X, −Y, +Y, −Z is; +Z is the default |
| Primitives.SlabHitCases | python/raytrace_cpu.py:54-61 | no hit if `tmax < 0` or `tmin > tmax`; a hit exactly when `tmin <= tmax` and `tmax >= 1e-4`; the distance is `tmin` when `tmin >= 1e-4`, else `tmax`, always at least 1e-4 |
| Primitives.RayAabbCases | python/raytrace_cpu.py:41-78 | `ray_aabb` on the ray's slab interval meets all the cases above, and its normal is the face normal of the hit point |
| Primitives.RootsSolve | python/raytrace_cpu.py:92-94 | with a non-negative discriminant and a ≠ 0, both computed roots solve the quadratic, and the near root is the smaller one when a > 0 |
| Primitives.SphereRaisesIffZeroDirection | python/raytrace_cpu.py:84-94 | `ray_sphere` as written divides by zero exactly when the direction has squared length 0 |
| Primitives.SphereZeroDirectionRaises | python/raytrace_cpu.py:84-94 | `ray_sphere(ro, (0,0,0), c, r)` raises ZeroDivisionError for every origin, centre and radius |
| Primitives.RaySphereCases | python/raytrace_cpu.py:80-107 | a negative discriminant (or a zero direction) gives no hit; the near root wins when it exceeds 1e-4, the far root otherwise; a hit has t > 1e-4 and the normalised outward normal |
| Primitives.SphereAgreesWhenReturning | python/raytrace_cpu.py:80-107 | wherever `ray_sphere` as written returns, the corrected test returns the same; a zero direction is a miss |
| Primitives.SphereHitOnSurface | python/raytrace_cpu.py:80-107 | every accepted sphere hit point lies on the sphere |
| Primitives.RayPlaneCases | python/raytrace_cpu.py:109-120 | rejects `abs(d·n) < 1e-8` and t < 1e-4; a hit returns the plane normal unchanged and its point lies in the plane |
| Primitives.CylinderNormal | python/raytrace_cpu.py:150 | the cylinder normal is horizontal (y component 0) |
| Primitives.CylinderHitCases | python/raytrace_cpu.py:122-153 | rejects a horizontal coefficient below 1e-8 and a negative discriminant; an accepted hit clears 1e-4, lies within [0, height] above the base and has a horizontal normal; the near root wins when it is acceptable |
| Primitives.RayCylinder | python/raytrace_cpu.py:139-153 | the `for t in [t0, t1]` loop with `continue` and early return computes the cylinder hit above |
| Primitives.CylinderHitOnSurface | python/raytrace_cpu.py:139-151 | every accepted cylinder hit lies at the radius from the axis |
| Config.Defaults | python/raytrace_cpu.py:204-243 | the `dict.get` defaults: mirror reflectivity 0.95, candle height 1.5, radius 0.2, flame intensity (8,6,4), wax colour (0.9,0.9,0.95), human scale 1.0, rotation 0 |
| Config.RoomBounds | python/raytrace_cpu.py:171-175 | the room bounds span the room's size and are centred on its centre |
| Composite.RoomFaceColor | python/raytrace_cpu.py:177-184 | floor colour iff ny < -0.9, ceiling colour iff ny > 0.9, wall colour otherwise |
| Composite.RoomFaceColorOfBoxNormal | python/raytrace_cpu.py:177-184 | for the box normals, the floor is the −Y face, the ceiling the +Y face, and every other face is a wall |
| Composite.IntersectMirror | python/raytrace_cpu.py:186-202 | the plane test against the normalised mirror normal, never bounded by the mirror size; a degenerate normal misses; a hit has a unit normal |
| Composite.CollectMembers | python/raytrace_cpu.py:256-341 | the hits list holds exactly the hits of the parts, each with its part's tag |
| Composite.CollectEmpty | python/raytrace_cpu.py:343-344 | the hits list is empty exactly when no part is hit |
| Composite.Nearest | python/raytrace_cpu.py:347-348 | the head of the stably sorted list: no result exactly on an empty list, otherwise the first entry of least distance |
| Composite.IntersectPartsNearest | python/raytrace_cpu.py:343-348 | a composite reports no hit iff no part is hit, otherwise one of its parts' hits with no part hit nearer |
| Composite.CandleParts | python/raytrace_cpu.py:216-227 | the candle is a body followed by a flame, in that order |
| Composite.CandleBodyWinsTies | python/raytrace_cpu.py:214-233 | no hit iff both parts miss; the flame is reported iff it is hit strictly nearer than the body or the body misses, so on a tie the body wins |
| Composite.Place | python/raytrace_cpu.py:249-254 | rotating about Y and translating keeps the height offset |
| Composite.PlaceKeepsHorizontalDistance | python/raytrace_cpu.py:249-254 | when cos² + sin² = 1 for the figure's angle, the rotation keeps the horizontal distance of the placed point from the figure's position, and the height offset is kept |
| Composite.PlaceUnrotated | python/raytrace_cpu.py:249-254 | with rotation 0 the placement is a plain translation |
| Composite.HumanParts | python/raytrace_cpu.py:256-341 | the figure has 14 parts |
| TraceSpec.RoomCandidate | python/raytrace_cpu.py:380-387 | the room is a candidate iff the box is hit, with reflectivity 0 and the face colour of its normal |
| TraceSpec.SkyRange | python/raytrace_cpu.py:437-440 | for rd.y in [-1,1] the gradient stays between its two end colours, which it takes at straight down and straight up |
| TraceSpec.NothingHit | python/raytrace_cpu.py:374-440 | with room, light, mirrors, candles and humans all missed, the scan finds nothing |
| TraceSpec.LightWins | python/raytrace_cpu.py:389-399 | a light hit strictly nearer than the room ends the scan with intensity × 1.15, whatever mirrors, candles and humans the scene holds |
| TraceSpec.FlameSkipsLaterCandles | python/raytrace_cpu.py:412-420 | once a candle flame ends the scan, later candles cannot change the result |
| TraceSpec.CandleEmitIsFlame | python/raytrace_cpu.py:412-420 | a candle scan that emits returns the flame intensity of a candle whose flame was hit |
| TraceSpec.FlameSkipsHumans | python/raytrace_cpu.py:412-435 | when a flame ends the scan the result does not depend on the humans |
| TraceSpec.MirrorsMissKeep | python/raytrace_cpu.py:402-409 | mirrors that all miss leave the nearest candidate unchanged |
| TraceSpec.CandlesMissKeep | python/raytrace_cpu.py:412-425 | candles that all miss leave the nearest candidate unchanged |
| TraceSpec.HumansMissKeep | python/raytrace_cpu.py:428-435 | humans that all miss leave the nearest candidate unchanged |
| TraceSpec.CandlesShadow | python/raytrace_cpu.py:478-482 | the candle shadow test is blocked iff some candle is hit before the light distance |
| TraceSpec.HumansShadow | python/raytrace_cpu.py:486-490 | the human shadow test is blocked iff some human is hit before the light distance |
| TraceSpec.ShadowedIsAmbient | python/raytrace_cpu.py:503-512 | a blocked point gets only the ambient term: surface colour × 0.1 |
| TraceSpec.DirectNonNeg | python/raytrace_cpu.py:493-504 | the direct term (clamped Lambert, falloff floored at 0.1, medium absorption) is non-negative |
| TraceSpec.LitNonNeg | python/raytrace_cpu.py:508-512 | non-negative colours, direct term and energy give a non-negative shaded colour |
| TraceSpec.ShadeNonNeg | python/raytrace_cpu.py:459-514 | the diffuse branch never produces a negative channel |
| TraceSpec.ResolveOk | python/raytrace_cpu.py:374-435 | with non-negative scene colours, the scan emits non-negative colours and finds surfaces of non-negative colour whose normal is a unit vector whenever they reflect |
| TraceSpec.ReinhardChannelProperties | python/raytrace_cpu.py:516-518 | each non-negative channel maps into [0,1), monotonically, and the map can be inverted |
| TraceSpec.ToneMapInUnitCube | python/raytrace_cpu.py:516-518 | a non-negative colour maps into [0,1) in every channel |
| Tracer.SceneWorld | python/raytrace_cpu.py:350-514 | the scene's world scans with the scene's own nearest-hit resolution, shades with its diffuse branch and reflects about the normal from the lifted hit point |
| Tracer.FadeBounds | python/raytrace_cpu.py:368-371 | the fade keeps positive energy positive and never raises it, and changes nothing before bounce 6 |
| Tracer.ReflectionLosesEnergy | python/raytrace_cpu.py:450-453 | the energy passed to the recursive call is positive and strictly below the incoming energy |
| Tracer.TraceIn | python/raytrace_cpu.py:365-366 | in any world, black (0,0,0) whenever `bounce >= max_bounces` or `energy < 0.005` |
| Tracer.RespondIn | python/raytrace_cpu.py:389-440 | an emitter returns its colour; finding nothing returns the sky gradient |
| Tracer.EmitsIn | python/raytrace_cpu.py:389-420 | an emitting scan is returned unchanged by `trace` |
| Tracer.SkyIn | python/raytrace_cpu.py:437-440 | an empty scan returns the sky gradient |
| Tracer.ReflectsIn | python/raytrace_cpu.py:445-457 | a reflective surface recurses once with bounce+1 and 92% of the faded energy and scales the result by reflectivity × energy |
| Tracer.ShadesIn | python/raytrace_cpu.py:459-514 | a non-reflective surface is shaded at the hit point with the faded energy |
| Tracer.TraceInNonNegative | python/raytrace_cpu.py:350-514 | in a world whose scans give non-negative emitters and surfaces, whose shading is non-negative and whose mirrors keep unit directions unit, a unit-length ray never traces to a negative colour, at any depth |
| Tracer.Trace | python/raytrace_cpu.py:365-366 | `trace` returns (0,0,0) whenever `bounce >= max_bounces` or `energy < 0.005` |
| Tracer.LightShortCircuits | python/raytrace_cpu.py:389-399 | a light hit strictly nearer than the room returns intensity × 1.15, regardless of mirrors, candles and humans |
| Tracer.NoHitIsSky | python/raytrace_cpu.py:437-440 | a ray that hits nothing returns the gradient with t = 0.5·(rd.y+1) |
| Tracer.ReflectionBranch | python/raytrace_cpu.py:445-457 | reflectivity > 0.01: one recursive call from hit + 1e-4·n along the reflected direction with bounce+1 and energy × 0.92, then scaled by reflectivity × energy |
| Tracer.DiffuseBranch | python/raytrace_cpu.py:459-514 | reflectivity ≤ 0.01: `surface × (0.1 + direct × I × energy)` at the hit point |
| Tracer.TraceNonNegative | python/raytrace_cpu.py:350-514 | for a scene of non-negative colours and a unit direction, `trace` never returns a negative channel |
| Scenes.PartHit | python/raytrace_cpu.py:261-341 | one part test is the sphere or cylinder intersector of that part |
| Scenes.CollectHits | python/raytrace_cpu.py:256-341 | the appending of hits part by part builds exactly the hits list |
| Scenes.SortedHead | python/raytrace_cpu.py:343-348 | the scan for the first least-distance entry returns the head of the stably sorted list |
| Scenes.Scene.constructor | python/raytrace_cpu.py:163-175 | the scene keeps its configuration and its room bounds are the centre ∓ half the size |
| Scenes.Scene.IntersectCandle | python/raytrace_cpu.py:204-233 | `intersect_candle` computes the candle resolver |
| Scenes.Scene.IntersectHuman | python/raytrace_cpu.py:235-348 | `intersect_human` computes the human resolver |
| Scenes.Scene.ScanMirrorList | python/raytrace_cpu.py:402-409 | the mirror loop computes the mirror scan |
| Scenes.Scene.ScanCandleList | python/raytrace_cpu.py:412-425 | the candle loop with its early return of a flame computes the candle scan |
| Scenes.Scene.ScanHumanList | python/raytrace_cpu.py:428-435 | the human loop computes the human scan |
| Scenes.Scene.FindNearest | python/raytrace_cpu.py:374-435 | the whole scan (room, light, mirrors, candles, humans) computes the nearest-hit resolution |
| Scenes.Scene.CandlesBlock | python/raytrace_cpu.py:477-482 | the candle shadow loop with `break` sets `blocked` iff some candle is hit before the light distance |
| Scenes.Scene.HumansBlock | python/raytrace_cpu.py:485-490 | the human shadow loop with `break` sets `blocked` iff some human is hit before the light distance |
| Scenes.Scene.ShadowTest | python/raytrace_cpu.py:466-490 | the `blocked` flag is the shadow predicate: light sphere before distance − radius − 1e-3, then room, candles and humans before the light distance |
| Scenes.Scene.DirectLight | python/raytrace_cpu.py:493-504 | the direct term: clamped Lambert × 1/max(0.1, d²) × exp(−0.02·d) |
| Scenes.Scene.ShadeSurface | python/raytrace_cpu.py:459-514 | the diffuse branch computes the shading function |
| Scenes.Scene.Trace | python/raytrace_cpu.py:350-457 | the recursive method `trace` returns exactly the traced colour of the specification |
| Scenes.Scene.Respond | python/raytrace_cpu.py:437-514 | what `trace` does after the scan: sky, reflection or shading |
| Scenes.Scene.Reflection | python/raytrace_cpu.py:445-457 | the reflection branch with its recursive call |
| Scenes.Scene.TraceScene | python/raytrace_cpu.py:350-514 | `trace` over the scene's own intersectors returns `Tracer.Trace` of the scene |
| Bounces.RoomNearest | python/raytrace_path.py:63-68 | the room is the first candidate iff the box is hit, named by the loop's wall material, with reflectivity 0 |
| Bounces.LightAhead | python/raytrace_path.py:70-79 | the light ends the pass, at the light hit's distance, exactly when the origin is farther than 1.1 × radius from its centre and the light is hit strictly nearer than the room |
| Bounces.LightSkippedNearLight | python/raytrace_path.py:73 | within 1.1 × radius of the light centre, the light test is skipped |
| Bounces.ScanClassified | python/raytrace_path.py:62-97 | the nearest hit is the room (reflectivity 0), a mirror, or a human with the loop's human reflectivity |
| Bounces.ScanMisses | python/raytrace_path.py:62-99 | the scan finds nothing iff the room, every mirror and every human miss |
| Bounces.MirrorLoop | python/raytrace_path.py:82-88 | the mirror loop computes the mirror pass |
| Bounces.HumanLoop | python/raytrace_path.py:91-97 | the human loop computes the human pass |
| Bounces.Probe | python/raytrace_path.py:62-97 | one scan of a bounce loop: the light distance when the light ends it, otherwise the nearest hit |
| RayPaths.RayPath.constructor | python/raytrace_path.py:17-20 | a new path has no segments and an empty energy history |
| RayPaths.RayPath.AddSegment | python/raytrace_path.py:22-25 | `add_segment` appends the segment and appends its energy to the history, nothing else |
| RayPaths.TraceRayPath | python/raytrace_path.py:27-138 | the recorded segments are exactly the path specification from the normalised start direction, and the history is the initial energy followed by each segment's energy (so one longer) |
| RayPaths.TraceRayPathIn | python/raytrace_path.py:46-138 | the loop records exactly the path specification over any agreeing intersectors |
| RayPaths.PathStep | python/raytrace_path.py:56-136 | one pass records the path's first segment and continues from exactly the ray the rest of the path starts from |
| RayPaths.Deflect | python/raytrace_path.py:108-136 | after a hit the ray goes on iff mirror reflectivity > 0.01 or a room hit |
| RayPaths.Bounce | python/raytrace_path.py:108-116 | the per-bounce attenuation, with the extra fade from bounce 6 |
| RayPaths.WalkHead | python/raytrace_path.py:55 | the path is non-empty iff bounce < max_bounces and energy > 0.01, and starts at the ray with its energy |
| RayPaths.WalkLength | python/raytrace_path.py:55-136 | at most one segment per remaining bounce: `len(segments) <= max(0, max_bounces - bounce)` |
| RayPaths.WalkEnergyFloor | python/raytrace_path.py:55-106 | every recorded segment energy is > 0.01 |
| RayPaths.OnwardNoStronger | python/raytrace_path.py:108-132 | with attenuation ≤ 1 a bounce never raises positive energy |
| RayPaths.WalkEnergyDecreases | python/raytrace_path.py:108-132 | with attenuation ≤ 1 the segment energies never exceed the start and never increase along the path |
| RayPaths.BounceCases | python/raytrace_path.py:108-136 | the ray goes on iff mirror reflectivity > 0.01 or a room hit, from hit + 1e-4·n in the reflected direction; a room hit also costs 25% |
| RayPaths.LightEndsPath | python/raytrace_path.py:73-79 | a light hit ends the path with one segment to the point where the ray meets the light |
| RayPaths.SkyEndsPath | python/raytrace_path.py:99-103 | an escaping ray ends the path with a segment to ro + 100·rd |
| RayPaths.DiffuseEndsPath | python/raytrace_path.py:119-136 | a human hit, or a mirror of reflectivity ≤ 0.01, ends the path with a segment to the hit |
| RayPaths.WalkGoesOn | python/raytrace_path.py:119-133 | a path longer than one segment went on after a mirror of reflectivity > 0.01 or a room hit, with no light ahead; the rest is the path from the reflected ray at bounce+1 |
| Validation.TraceRayWithValidation | python/raytrace_validation.py:26-128 | the recorded segments are exactly the validation trace from the normalised start direction with energy 1 |
| Validation.TraceRayWithValidationIn | python/raytrace_validation.py:42-128 | the loop records exactly the validation trace over any agreeing intersectors |
| Validation.ValidationStep | python/raytrace_validation.py:48-126 | one pass records the trace's first segment and continues from exactly the ray the rest starts from |
| Validation.Deflect | python/raytrace_validation.py:103-126 | the deflection of the loop: the material factor, the new ray and the final fade |
| Validation.DeflectionCases | python/raytrace_validation.py:103-126 | deflects iff reflectivity > 0.01 or a wall; energy × 0.92 (mirror), × 0.70 (human), × 0.75 (wall), unchanged for other reflecting materials, and × exp(−0.3) once the count reaches 6 |
| Validation.DeflectionWeakens | python/raytrace_validation.py:104-126 | a deflection keeps positive energy positive and never raises it |
| Validation.ValidationLength | python/raytrace_validation.py:48-122 | `len(segments) <= max(0, max_deflections - count)` |
| Validation.ValidationHead | python/raytrace_validation.py:48-101 | the trace is non-empty iff deflections remain, and starts at the ray with its energy |
| Validation.ValidationMaterials | python/raytrace_validation.py:56-98 | every material is in {"wall","light","mirror","human","sky"}, and "light" or "sky" appears only on the last segment |
| Validation.ValidationEnergies | python/raytrace_validation.py:104-126 | from positive energy, every segment energy is in (0, start] and the energies never increase |
| Validation.ValidationTraceEnergies | python/raytrace_validation.py:45-126 | starting at 1.0, every segment energy is in (0, 1] and non-increasing |
| Validation.DimMirrorEndsTrace | python/raytrace_validation.py:104-117 | a mirror of reflectivity ≤ 0.01 ends the trace with a "mirror" segment to the hit |
| Validation.HumanAndWallDeflect | python/raytrace_validation.py:83-126 | a human (forced reflectivity 0.3) or wall hit is followed by the trace of the deflected ray with 70% or 75% of the energy before the fade |
| Validation.ShortTraceEnds | python/raytrace_validation.py:63-117 | a trace with fewer than `max_deflections` segments ended on the light, the sky, or a mirror |
| SceneFile.ValidatePassesIff | python/scene.py:10-33 | `validate_scene` passes iff the four groups are present, the camera has a length-3 position and look_at and an fov, the room a length-3 size and center, the light a length-3 position and intensity |
| SceneFile.MissingGroupFails | python/scene.py:12-15 | a missing camera, room, light or render fails, with the message of the first one missing |
| SceneFile.BadCameraFails | python/scene.py:18-21 | with all groups present, a bad camera fails on the camera |
| SceneFile.BadRoomFails | python/scene.py:24-26 | with a good camera, a bad room fails on the room |
| SceneFile.BadLightFails | python/scene.py:29-31 | with a good camera and room, a bad light fails on the light |
| SceneFile.TopLevelUninspected | python/scene.py:10-33 | the render contents and every other top-level key (mirrors, candles, humans, …) do not change the verdict |
| SceneFile.FieldUninspected | python/scene.py:17-31 | keys of the camera, room and light other than the checked ones, such as the light radius, do not change the verdict |

## Left out

- `render`, the camera basis built with `tan`, PIL pixel writes, progress output and output file naming: image assembly and I/O (python/raytrace_cpu.py:525-624). The same holds for `render_with_ray_path`, `render_ray_validation`, `project_point` and the line drawing in the path and validation scripts.
- `gamma_correct`: it needs a real-valued `pow`.
- `sample_human_surface` and the deflection-distribution logging: they only generate trigonometric sample points and print.
- `python/preview_plotly.py`: a visualisation front end.
- `load_scene`: JSON file I/O. `SceneFile` starts from an already parsed value.
- IEEE-754 rounding: all arithmetic is on `real`. `sqrt`, `exp`, `cos` and `sin` are known only through `IsSqrt` and `ExpDecays` (`cos`/`sin` not at all). No numerical accuracy is claimed.
- Scenes.Scene.TraceScene, RayPaths.TraceRayPath, Validation.TraceRayWithValidation: they use the corrected sphere test `Primitives.RaySphere`, so a zero ray direction (which `norm` returns for a start direction shorter than 1e-8) misses every sphere where the source raises ZeroDivisionError. Only `Primitives.RaySphereAsWritten` keeps the raising behaviour, and no operation calls it.
- Scenes.Scene.TraceScene, RayPaths.TraceRayPath, Validation.TraceRayWithValidation: Python's default arguments are not modelled; the callers pass them. They are `max_bounces=4, bounce=0, energy=1.0` for `trace`, `max_bounces=10, initial_energy=1.0, attenuation_per_bounce=0.85` for `trace_ray_path` and `max_deflections=6` for `trace_ray_with_validation`.
- SceneFile.ValidateScene: the `print` of the success message (python/scene.py:33) is output only and is left out.
- TraceSpec.ToneMapReinhard: the ZeroDivisionError that `tone_map_reinhard` (python/raytrace_cpu.py:516-518) raises on a channel equal to -1 is not modelled; the function requires every channel to differ from -1. Reaching it needs a negative colour, which `Tracer.TraceNonNegative` rules out for a scene with non-negative colours traced along a unit direction.
- Python exceptions other than the two divisions by zero in `ray_sphere` and `tone_map_reinhard`: a missing required key in a scene record (for example `room["floor_color"]`) is ruled out because the record types have those fields. In `SceneFile` an AssertionError and a TypeError are the same failure.
- Composite.Nearest: the in-place `hits.sort(key=...)` followed by `hits[0]` is modelled as the first entry of least distance. That is what a stable sort puts at the head; the rest of the sorted order is not modelled.
- Composite.HumanParts: the 14 inline blocks of `intersect_human` are a table of 14 parts in the same order, and `Scenes.CollectHits` loops over that table.
- `nearest_material` in `trace` is assigned but never read, so it is not modelled. `ray_sphere_capsule` is only an alias of `ray_sphere`. The mirror `size` is read but never used.
- Scenes.Scene.Trace: `trace` is split into helper methods (scan, respond, reflection, shading). `RayPaths.TraceRayPathIn` and `Validation.TraceRayWithValidationIn` each call one step method per pass and then append. The order of effects visible to the caller is the same.
- Scenes.Scene.Trace, RayPaths.TraceRayPathIn, Validation.TraceRayWithValidationIn: these methods are proved over any intersectors that agree with the real ones (passed as ghost values). The top-level methods fix them to the scene's own intersectors.
- RayPaths: `trace_ray_path` does not test candles at all, and the model does the same.
- Validation: the `RaySegment` constructor's default material "unknown" is never used by the loop, so the model's `RaySegment` has no default.

## Findings

| source | as written | input that shows it | evidently intended | confidence | as-written member | corrected member |
|---|---|---|---|---|---|---|
| python/raytrace_cpu.py:84-94 | `ray_sphere` computes `(-b ± sqrt(disc)) / (2*a)` whenever `disc >= 0`; for a zero direction a = 0 and disc = 0, so it raises ZeroDivisionError. A zero direction does occur: `norm` returns (0,0,0) for vectors shorter than 1e-8, for example a shadow ray from a point at the light centre | `ray_sphere(ro, (0,0,0), center, radius)` for any origin, centre and radius | a degenerate ray hits nothing | not executed | Primitives.SphereZeroDirectionRaises | Primitives.SphereAgreesWhenReturning |
