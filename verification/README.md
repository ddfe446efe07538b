# transistor physics core, modelled in Dafny

A model of the rigid-body core of the `transistor` 2-D engine:

- the vector algebra, the `CLAMP` macro and the integer midpoint-circle rasteriser that the engine shares with its renderer;
- the body, shape, manifold and identifier data model;
- the three narrow-phase overlap tests, the circle–box delegation and the 2×2 dispatch table;
- impulse resolution with restitution and friction, and positional correction;
- half-kick integration;
- `Scene::step`, which integrates every body and then tests and resolves every unordered pair of bodies once, in ascending identifier order, gated by layer masks.

Scalars that are `float` in the engine are exact `real`s here. The library square root is a parameter `sqrt` constrained by `IsSqrt` (non-negative, and its square gives back its argument).

`abs(Vec2)`, `FRICTION_EPSILON` and `IMPULSE_EPSILON` are used by the engine but defined in no file of the core, so they are fields of a `Numerics` parameter. Values and containers are immutable datatypes. A body holds its shape inline, so the body/shape pointer cycle and the unchecked downcasts become preconditions on the shape variant. The scene is a `map<Id, Body>`.

Modules, in dependency order:

| file | module | models |
|---|---|---|
| reals.dfy | `Reals` | squares of reals (proof support) |
| vector.dfy | `Vector` | `Vec2`, `Point`, the operators, `dot_product`, `magnitude`, `normalize`, `CLAMP` |
| raster.dfy | `Raster` | `Circle::calculate_points`, `Circle::size` |
| entities.dfy | `Entities` | `ID_gen`, `Shape` and its two kinds, `move`, `Body`, `Manifold` |
| integration.dfy | `Integration` | `integrate_forces`, `integrate_velocity` |
| narrowphase.dfy | `Narrowphase` | the four collision tests and `collision_callback` |
| response.dfy | `Response` | `resolve_collision`, `positional_correction` |
| scene.dfy | `Scenes` | `Scene`, `add_body`, `remove_body`, `step` |

Where the engine divides by a zero inverse-mass sum (two immovable bodies in contact), the step's result is the `Diverged` outcome naming the pair. Elsewhere, resolution and correction require that sum to be non-zero.

The circle–box test is sometimes described as returning the box–circle normal negated. The code instead swaps the manifold's bodies and runs the box–circle test. So on a pair given circle first, it returns exactly what box–circle returns on the same pair given box first, with the same normal. The model follows the code (`Narrowphase.CircleBoxMirrors`).

The step dispatches a box and a circle to the completed box–circle test (`Narrowphase.BoxCircle`, see "## Findings"), not to the test as written. The two differ only where the written test divides by zero. `Narrowphase.CollideBoxCircle` pins down that difference for a box given first, and `Narrowphase.CollideCircleBox` for a circle given first. So everything the model proves about `Scenes.Step` holds of the engine with that one test corrected. On a circle whose centre lies exactly on the face of the box it is pushed to (the face of the dominant axis), the engine itself computes NaN velocities and positions (see "## Left out").

The write-back after a contact follows the swapped manifold: its first body is stored under the box's key.

## Model

| member | source | states |
|---|---|---|
| Vector.Clamp | include/common.h:14 | for lo ≤ hi the result lies in [lo, hi]; it is x inside the interval, lo below it, hi above it; for hi < lo it is hi |
| Vector.Equals | src/common.cpp:66-68 | `==` holds exactly when the two vectors are equal |
| Vector.AddSubInverse | src/common.cpp:30-48 | subtraction undoes addition and is addition of the negation; a vector plus its negation is zero; addition commutes |
| Vector.ScalarOffsets | src/common.cpp:34-52 | adding or subtracting a scalar is the vector operation with (c, c), and one undoes the other |
| Vector.ScaleDivInverse | src/common.cpp:58-64 | dividing by a non-zero scalar undoes multiplying by it, and vice versa |
| Vector.DotLaws | src/common.cpp:70-72 | the dot product is symmetric, additive and homogeneous in its first argument, non-negative on a vector with itself, and zero there only for the zero vector |
| Vector.AddAssign | src/common.cpp:54-56 | `+=` leaves in the left operand the value it returns, and subtracting the right operand gives back the old value |
| Vector.SubAssign | src/common.cpp:42-44 | `-=` leaves in the left operand the value it returns, and adding the right operand gives back the old value |
| Vector.Magnitude | include/common.h:42-44 | the magnitude is non-negative and zero exactly for the zero vector |
| Vector.MagnitudeSquared | include/common.h:42-44 | the magnitude squared is the vector's dot product with itself |
| Vector.Normalize | include/common.h:46-51 | the zero vector is left unchanged, and only it normalises to zero |
| Vector.NormalizeUnit | include/common.h:49-50 | a non-zero vector normalises to a unit vector that, scaled by the original magnitude, gives the vector back |
| Raster.Size | include/common.h:93-95 | the count is returned as a 32-bit `unsigned`, so it is below 2^32 and equals the number of stored points whenever that number fits |
| Raster.SizeOfOutline | include/common.h:93-95 | for a radius below 2^28 the outline's count is not narrowed, and is exactly eight points per step of the walk |
| Raster.OctantLength | src/common.cpp:4-26 | the walk from (radius, 0) takes at most radius + 1 steps |
| Raster.CalculatePoints | src/common.cpp:3-28 | whatever was stored before, the stored points become exactly the octant walk from (radius, 0) mirrored eight ways, and `size()` is eight times the number of iterations |
| Raster.Ring | src/common.cpp:9-18 | each visited offset contributes exactly eight points |
| Raster.EightSymmetric | src/common.cpp:10-17 | one iteration's eight points are closed under reflection in both axes and the diagonal through the centre |
| Raster.RingSymmetric | src/common.cpp:10-17 | the whole outline is closed under those reflections |
| Raster.OctantRows | src/common.cpp:19 | the k-th iteration runs with p.y raised by k from its start |
| Raster.OctantSteps | src/common.cpp:19-26 | from one iteration to the next p.x stays or drops by exactly one |
| Raster.OctantBounds | src/common.cpp:4-26 | every visited offset satisfies 0 ≤ p.y ≤ p.x ≤ radius |
| Raster.RingInSquare | src/common.cpp:10-17 | offsets in the first octant within the radius put every point in the square of half-side radius around the centre |
| Raster.OutlineShape | src/common.cpp:4-18 | the first point is (centre.x + radius, centre.y); the outline has at least eight points, eight per iteration, lies in the square of half-side radius and is symmetric |
| Raster.OutlineOfZero | src/common.cpp:4-17 | radius 0 gives exactly eight copies of the centre |
| Entities.GetId | include/physics.h:7-13 | returns the counter and advances it by one, wrapping from 2^64 − 1 to 0 |
| Entities.IssueIncreasing | include/physics.h:10-12 | until the counter wraps, n successive calls return consecutive, strictly increasing identifiers and leave the counter n higher |
| Entities.IdWrapsAround | include/physics.h:6-12 | the 64-bit counter does wrap: after 2^64 − 1 comes 0 |
| Entities.NewBody | include/physics.h:21-22 | a new body takes the current counter value as its identifier and advances the counter |
| Entities.SuccessiveBodies | include/physics.h:21-22 | a body built after another has the larger identifier |
| Entities.Tag | include/physics.h:41 | BOX is tag 0, CIRCLE is tag 1, and both index a table of dimension SIZE = 2 |
| Entities.FreshShapesMeet | include/physics.h:47-81 | every shape constructor starts on layer 1 with the kind it names, so two fresh shapes always pass the layer test |
| Entities.Move | include/physics.h:67-89 | a circle is unchanged; a box keeps max − min and is re-centred on the body's position; layer and kind stay |
| Entities.MoveIdempotent | include/physics.h:83-89 | resyncing twice to the same position is resyncing once |
| Entities.NewManifold | include/physics.h:102-103 | the manifold holds body1 as `a` and body2 as `b`, with zero penetration and a zero normal |
| Integration.NoAcceleration | src/physics.cpp:53 | an immovable body with gravity scale 0 does not accelerate, whatever force it has accumulated |
| Integration.IntegrateForces | src/physics.cpp:52-54 | only the velocity changes, by half a step of force·inv_mass plus gravity·gravity_scale |
| Integration.IntegrateVelocity | src/physics.cpp:56-60 | the position advances by velocity·dt, the shape is resynced to the new position, then a half kick; nothing else changes |
| Integration.AdvanceEffect | src/physics.cpp:201-205 | one step of integration adds a full step of acceleration to the velocity, drifts by the mid-step velocity, clears the force, and changes nothing else |
| Narrowphase.CircleCircle | src/physics.cpp:62-87 | no contact exactly when the squared centre distance reaches the squared radius sum, and then nothing is written; coincident centres give normal (1, 0) and penetration min(ra, rb); otherwise the normalised centre delta and ra + rb − d |
| Narrowphase.CircleCircleContact | src/physics.cpp:74-79 | on contact between distinct centres the normal is a unit vector that, scaled by the distance, reaches b's centre, and the penetration is positive for non-negative radii |
| Narrowphase.CircleCircleOverlap | src/physics.cpp:71-72 | for non-negative radii the test reports contact exactly when the centre distance is below the radius sum |
| Narrowphase.BoxBox | src/physics.cpp:89-130 | contact exactly when both axis overlaps are positive; the x axis is chosen only when its overlap is strictly smaller (ties go to y); penetration is that overlap; the normal is a unit axis vector, negative exactly when the centre delta is negative on the chosen axis |
| Narrowphase.BoxBoxMatchesCorners | src/physics.cpp:97-108 | for boxes centred on their bodies the overlap test agrees with comparing the corners |
| Narrowphase.ProbeBoxCircle | src/physics.cpp:137-160 | the circle centre is inside exactly when it lies in the box; outside, the contact point is the clamped centre, which lies in the box and differs from the centre; inside, it is the centre pushed onto the face of the dominant axis |
| Narrowphase.ProbeNearest | src/physics.cpp:145-147 | outside the box, the clamped point is the point of the box nearest the circle centre |
| Narrowphase.BoxCircleAsWritten | src/physics.cpp:132-181 | the test as written divides by zero exactly when the point it measures from is the circle centre itself, which happens only for a centre inside the box |
| Narrowphase.ResolveInside | src/physics.cpp:162-173 | inside the box the source reports contact along the face normal with penetration r plus the depth, and divides by zero when the depth is 0 |
| Narrowphase.ResolveOutside | src/physics.cpp:162-178 | outside the box the source's result is finite: no contact beyond r, otherwise the normalised vector from the point to the centre and penetration r − d |
| Narrowphase.AsWrittenFailsInside | src/physics.cpp:165-178 | the source's arithmetic can fail only for a centre inside the box |
| Narrowphase.AsWrittenOnFace | src/physics.cpp:154-171 | inside a well-formed box the source divides by zero exactly when the centre lies on the face it is pushed to |
| Narrowphase.OnFaceAsWritten | src/physics.cpp:168-171 | a centre at (1, 0) that is its own pushed point makes the source divide by zero |
| Narrowphase.OnFaceProbe | src/physics.cpp:139-158 | a 2×2 box at the origin and a circle centred at (1, 0) produce exactly that probe |
| Narrowphase.BoxCircle | src/physics.cpp:132-181 | the completed test writes only the normal and the penetration |
| Narrowphase.BoxCircleInside | src/physics.cpp:149-173 | inside a well-formed box the test always reports contact, along the pushed face's normal, with penetration r plus the centre's depth below that face |
| Narrowphase.BoxCircleOutside | src/physics.cpp:162-178 | outside the box there is contact exactly when the nearest point is within r (touching counts), along the unit vector from that point to the centre, with penetration r − d |
| Narrowphase.BoxCircleAgrees | src/physics.cpp:132-181 | wherever the source's result is finite, the completed test returns it unchanged |
| Narrowphase.BoxCircleExact | src/physics.cpp:132-181 | for a well-formed box, contact is reported exactly when the closed disc of radius r meets the box |
| Narrowphase.BoxCircleOnFace | src/physics.cpp:168-173 | for the (1, 0) configuration the completed test reports contact along +x with penetration r |
| Narrowphase.CircleBox | src/physics.cpp:183-188 | the test's manifold holds the two bodies swapped; only the normal and penetration are filled in |
| Narrowphase.CircleBoxMirrors | src/physics.cpp:183-188 | circle–box on the pair given circle first equals box–circle on the pair given box first, normal included |
| Narrowphase.Callback | src/physics.cpp:190-195 | the table entry for two kind tags is the test that casts its bodies to exactly those kinds |
| Narrowphase.Collide | src/physics.cpp:212-213 | the selected test keeps both bodies, swaps them exactly for a circle followed by a box, and fills in only the normal and penetration; the box–circle entry is the completed test |
| Narrowphase.CollideBoxCircle | src/physics.cpp:190-213 | for a box followed by a circle the dispatch runs the completed test: the source's contact wherever it is finite, and the face-normal contact with penetration r exactly where the source divides by zero |
| Narrowphase.CollideCircleBox | src/physics.cpp:183-213 | for a circle followed by a box the dispatch runs the completed test on the swapped pair: the source's contact wherever it is finite, and the face-normal contact with penetration r exactly where the source divides by zero |
| Narrowphase.CollideOnFace | src/physics.cpp:154-171 | where the circle centre lies inside a well-formed box, on the face it is pushed to, the source divides by zero while the dispatch reports contact along that face's normal with penetration r |
| Response.Snap | src/physics.cpp:31-34 | an impulse is zeroed exactly when its length is below the threshold (or it is already zero), and otherwise kept |
| Response.ApplyImpulse | src/physics.cpp:40-41 | only the two velocities change, and an immovable body keeps its velocity |
| Response.ResolveCollision | src/physics.cpp:6-42 | a separating pair is left unchanged; otherwise only the two velocities change, and an immovable body keeps its velocity |
| Response.SharedImpulse | src/physics.cpp:40-41 | `a` loses and `b` gains one shared impulse, each times its own inverse mass |
| Response.MomentumConserved | src/physics.cpp:40-41 | between two finite masses, resolution conserves total momentum |
| Response.ImpulseChangesRelativeVelocity | src/physics.cpp:40-41 | an impulse j changes the relative velocity by j times the inverse-mass sum |
| Response.RelativeVelocityAfter | src/physics.cpp:40-41 | resolution changes the relative velocity by the total impulse times the inverse-mass sum |
| Response.ImpulseCancels | src/physics.cpp:15 | the impulse magnitude times the inverse-mass sum turns the normal approach speed into −e times itself |
| Response.TangentialOrthogonal | src/physics.cpp:18 | along a unit normal, the tangential velocity has no normal component |
| Response.TangentOrthogonal | src/physics.cpp:18-19 | neither has the normalised tangent |
| Response.FrictionShape | src/physics.cpp:25-30 | both friction regimes are multiples of the tangent: k·μs when sticking, −j·μd when sliding |
| Response.StickingFriction | src/physics.cpp:24-26 | when \|friction_magnitude\| < j·√(sa² + sb²), the friction impulse is the tangent times friction_magnitude times the static coefficient |
| Response.SlidingFriction | src/physics.cpp:28-29 | otherwise it is the tangent times −j times the dynamic coefficient |
| Response.FrictionOrthogonal | src/physics.cpp:18-32 | along a unit normal, the friction impulse has no normal component |
| Response.NormalImpulseShape | src/physics.cpp:15-34 | the normal impulse is zero or the impulse magnitude along the normal |
| Response.RestitutionLaw | src/physics.cpp:7-41 | when an approaching pair's normal impulse is not snapped, its normal relative speed afterwards is −e times what it was, with e the smaller restitution; friction does not disturb it |
| Response.SnappedNormalSpeed | src/physics.cpp:33-41 | when the normal impulse is snapped to zero, the normal relative speed is unchanged |
| Response.PushApart | src/physics.cpp:48-49 | only the two positions change, and an immovable body stays put |
| Response.PositionalCorrection | src/physics.cpp:44-50 | only the two positions change, and an immovable body stays put |
| Response.CorrectionAlongNormal | src/physics.cpp:47-49 | the correction pushes the pair apart along the normal by the correction depth |
| Response.CorrectionWithinSlop | src/physics.cpp:45-47 | with penetration at most 0.05 nothing moves |
| Response.CorrectionDepthNonNegative | src/physics.cpp:47 | with non-negative inverse masses the depth is non-negative, so a moves against the normal and b along it |
| Response.CorrectionClosesGap | src/physics.cpp:44-50 | the centre offset grows along the normal by 0.6 times the penetration beyond the slop, whatever the masses |
| Response.CentreOfMassKept | src/physics.cpp:47-49 | between two finite masses, the correction keeps the centre of mass |
| Scenes.AddBody | include/physics.h:113-115 | the body is stored under its identifier, replacing any earlier entry; no other entry changes |
| Scenes.RemoveBody | include/physics.h:117-124 | only the body's identifier is erased; erasing an absent identifier changes nothing |
| Scenes.AddThenRemove | include/physics.h:113-124 | removing a body just added to a scene without it restores the scene |
| Scenes.AddRemoveIdempotent | include/physics.h:113-124 | adding twice is adding once; removing twice is removing once |
| Scenes.SortedIds | include/physics.h:130-131 | the map visits each key once, in strictly ascending order |
| Scenes.PairsAreDistinctKeys | src/physics.cpp:207-208 | the nested loop visits exactly the pairs of distinct keys, smaller key first |
| Scenes.PairsAscending | src/physics.cpp:207-208 | it visits them in strictly increasing order, so never twice |
| Scenes.Respond | src/physics.cpp:214-215 | resolution then correction changes only positions and velocities, and none for an immovable body |
| Scenes.Contacted | src/physics.cpp:213-216 | without contact nothing changes; divergence only for a zero inverse-mass sum; otherwise only the two bodies respond |
| Scenes.VisitPair | src/physics.cpp:209-216 | with the completed box–circle test: a pair on disjoint layers is skipped; otherwise only the pair's bodies respond, or the step diverges on two immovable bodies |
| Scenes.Sweep | src/physics.cpp:207-217 | the loop only lets bodies respond, and diverges only at a visited pair of immovable bodies |
| Scenes.Integrate | src/physics.cpp:201-205 | integration keeps the set of keys |
| Scenes.Collisions | src/physics.cpp:207-217 | collision handling only lets bodies respond, and diverges only at two distinct keys, smaller first, whose inverse masses sum to zero |
| Scenes.Step | src/physics.cpp:197-218 | with the completed box–circle test: after integration, the step changes only positions and velocities, and none of an immovable body |
| Scenes.IntegrateKeeps | src/physics.cpp:201-205 | integration keeps a body's identifier, layer and inverse mass |
| Scenes.StepKeepsBodies | src/physics.cpp:197-218 | a completed step keeps the set of keys, each body still under its own identifier |
| Scenes.StaticBodyStays | src/physics.cpp:197-218 | an immovable body with gravity scale 0 that is at rest stays where it is and at rest, whatever hits it, with the completed box–circle test |
| Scenes.CollisionsSkip | src/physics.cpp:209-210 | among bodies on pairwise disjoint layers, collision handling changes nothing |
| Scenes.DisjointLayersOnlyIntegrate | src/physics.cpp:197-218 | when no two bodies share a layer, a step only integrates |
| Scenes.CollisionsComplete | src/physics.cpp:207-217 | with non-negative inverse masses and no two immovable bodies, collision handling with the completed box–circle test never divides by a zero inverse-mass sum |
| Scenes.StepCompletes | src/physics.cpp:197-218 | under the same condition every step with the completed box–circle test completes |

## Left out

- Floating point: rounding, NaN and infinity are not modelled. Scalars are exact reals, and a division by a zero inverse-mass sum in the step becomes the `Diverged` outcome; the box–circle test's division by a zero distance is completed instead, as described below.
- The square root, `abs(Vec2)`, `FRICTION_EPSILON` and `IMPULSE_EPSILON` are parameters. The square root is constrained only by `IsSqrt`. The other three are unconstrained, because the core defines none of them.
- `Body` gains `staticFriction` and `dynamicFriction`. The resolution code reads them, but the header's `Body` does not declare them.
- Shape's `body` back-pointer and the null pointers the constructors leave: a shape is held inline by its body, and `move` takes the body's position as an argument.
- The default `Manifold()` constructor: it holds null bodies, and nothing in the core uses it.
- `Vec2()`, `Vec2(i, j)`, `set(i, j)`, `Point()` and `Point(x, y)` are the datatype constructors and the constants `Zero` and `Origin`. They have no behaviour beyond building the value.
- `Point::point()` and `Circle::data()`: they hand values or pointers to SDL and have no logic of their own.
- The DEBUG_MODE error message in `remove_body`: output only.
- The SDL renderer, textures, window and the demo driver with its real-time loop are not part of this model.
- Response.ResolveCollision and Response.PositionalCorrection require a non-zero inverse-mass sum instead of modelling the division by zero. For resolution, this is only on the path past the separating test.
- Raster.CalculatePoints requires the radius to fit in a 32-bit `int`. It does not model 32-bit overflow of the error term or of centre + offset, which can happen for radii near that bound.
- Response.StickingFriction and Response.SlidingFriction take the friction magnitude, normal impulse and combined coefficients as arguments fixed by their preconditions. They do not restate those expressions in the conclusion.
- Response.RestitutionLaw covers only the unsnapped normal impulse. The snapped case is Response.SnappedNormalSpeed.
- Scenes.StaticBodyStays is stated for an immovable body at rest with gravity scale 0; a body with gravity falls.
- Narrowphase.Collide / Scenes.Step run the completed box–circle test. Where the circle centre lies exactly on the face of the box it is pushed to, the engine divides 0 by 0 (`Narrowphase.CollideOnFace`). Its resolution then leaves NaN in both bodies' velocities and positions, an immovable box included. The model reports a contact along the face normal instead, because NaN is not modelled. `Narrowphase.CollideBoxCircle` (box given first) and `Narrowphase.CollideCircleBox` (circle given first) state that this is the only place the dispatch differs from the source.
- Narrowphase.CircleBox runs the completed box–circle test on the swapped pair. So when the circle is given first and its centre lies on the box's face, it reports the face-normal contact. The engine reaches the same 0/0 through `collision_circle_box` (src/physics.cpp:183-188).
- Scenes.Step: its "none of an immovable body changes" holds of the engine only when no on-face box–circle pair is in contact.
- Scenes.VisitPair inherits the same substitution: an on-face box–circle pair, in either order, responds cleanly here, while the engine's bodies become NaN.
- Scenes.Sweep inherits it too: its "only lets bodies respond" holds of the engine only when the sweep meets no on-face box–circle pair in contact.
- Scenes.Collisions inherits it likewise: its "only lets bodies respond" holds of the engine only without an on-face box–circle pair in contact.
- Scenes.StaticBodyStays holds of the engine only for pairs that are not on-face box–circle pairs. On such a pair the engine turns the immovable box's velocity and position into NaN.
- Scenes.CollisionsComplete does not cover the box–circle division by a zero distance (src/physics.cpp:171). It says only that no inverse-mass sum is zero.
- Scenes.StepCompletes likewise does not cover that division. It says only that no inverse-mass sum is zero.
- Entities.GetId takes `unsigned long` to be 64 bits wide, as on LP64 platforms. Where it is 32 bits (LLP64), identifiers wrap at 2^32 instead.

## Findings

| source | as written | input that shows it | evidently intended | confidence | as-written member | corrected member |
|---|---|---|---|---|---|---|
| src/physics.cpp:154-171 | for a circle centre inside the box, the centre is pushed to the face of the dominant axis. The normal is then divided by the centre's distance to that point, which is 0 when the centre already lies on that face | a box with corners (−1, −1) and (1, 1) centred at the origin, and a circle of radius 0.5 centred at (1, 0). The pushed point is (1, 0) itself, so the normal is (0, 0) / 0 | contact along that face's outward normal, (1, 0) here, with penetration r | not executed; follows from the arithmetic in the cited lines | Narrowphase.BoxCircleAsWritten, Narrowphase.OnFaceAsWritten | Narrowphase.BoxCircle, Narrowphase.BoxCircleOnFace |
