/** Body integration: a half-step velocity kick, a full-step drift that
    resyncs the shape, and a second half kick. */
module Integration {
  import opened Vector
  import opened Entities

  /** Gravity, pointing down the screen (y grows downwards). */
  const GRAVITY_ACCELERATION: Vec2 := Vec2(0.0, 10.0)

  /** The gravity scale the demo bodies use. */
  const GRAVITY_DEFAULT: real := 1.0

  /** Acceleration from the accumulated force and the body's share of
      gravity. */
  function Acceleration(b: Body): Vec2 {
    Add(Scale(b.force, b.invMass), Scale(GRAVITY_ACCELERATION, b.gravityScale))
  }

  /** A static body without gravity does not accelerate, whatever force
      has been accumulated on it. */
  lemma NoAcceleration(b: Body, h: real)
    ensures b.invMass == 0.0 && b.gravityScale == 0.0 ==> Acceleration(b) == Zero
    ensures b.invMass == 0.0 && b.gravityScale == 0.0 ==> Add(b.velocity, Scale(Acceleration(b), h)) == b.velocity
  {
    if b.invMass == 0.0 && b.gravityScale == 0.0 {
      assert Scale(b.force, b.invMass) == Zero;
      assert Scale(GRAVITY_ACCELERATION, b.gravityScale) == Zero;
      assert Scale(Zero, h) == Zero;
    }
  }

  /** Only the motion fields (position, velocity, force, shape geometry) of
      `r` may differ from `b`. */
  predicate SameExceptMotion(r: Body, b: Body) {
    r == b.(pos := r.pos, velocity := r.velocity, force := r.force, shape := r.shape)
  }

  /** `integrate_forces(dt)`: velocity gains half a step of acceleration;
      nothing else changes. */
  function IntegrateForces(b: Body, dt: real): (r: Body)
    ensures r == b.(velocity := r.velocity)
    ensures Sub(r.velocity, b.velocity) == Scale(Acceleration(b), dt / 2.0)
    ensures b.invMass == 0.0 && b.gravityScale == 0.0 ==> r == b
  {
    NoAcceleration(b, dt / 2.0);
    b.(velocity := Add(b.velocity, Scale(Acceleration(b), dt / 2.0)))
  }

  /** `integrate_velocity(dt)`: drift by the current velocity, resync the
      shape to the new position, then the second half kick. */
  function IntegrateVelocity(b: Body, dt: real): (r: Body)
    ensures r.pos == Add(b.pos, Scale(b.velocity, dt))
    ensures r.shape == Move(b.shape, r.pos)
    ensures Sub(r.velocity, b.velocity) == Scale(Acceleration(b), dt / 2.0)
    ensures r == b.(pos := r.pos, velocity := r.velocity, shape := r.shape)
  {
    var moved := b.(pos := Add(b.pos, Scale(b.velocity, dt)));
    IntegrateForces(moved.(shape := Move(moved.shape, moved.pos)), dt)
  }

  /** What one scene step does to each body before collisions: kick, drift,
      kick, then clear the force accumulator. */
  function Advance(b: Body, dt: real): Body {
    IntegrateVelocity(IntegrateForces(b, dt), dt).(force := Zero)
  }

  /** The two half kicks add up to one full kick; the drift uses the
      mid-step velocity; the force is cleared and the shape follows the body.
      A static body without gravity keeps its velocity and drifts by it. */
  lemma AdvanceEffect(b: Body, dt: real)
    ensures Advance(b, dt).velocity == Add(b.velocity, Scale(Acceleration(b), dt))
    ensures Advance(b, dt).pos == Add(b.pos, Scale(Add(b.velocity, Scale(Acceleration(b), dt / 2.0)), dt))
    ensures Advance(b, dt).force == Zero
    ensures Advance(b, dt).shape == Move(b.shape, Advance(b, dt).pos)
    ensures SameExceptMotion(Advance(b, dt), b)
    ensures b.invMass == 0.0 && b.gravityScale == 0.0 ==>
      Advance(b, dt).velocity == b.velocity && Advance(b, dt).pos == Add(b.pos, Scale(b.velocity, dt))
  {
    var k := IntegrateForces(b, dt);
    assert Acceleration(k) == Acceleration(b);
    var a := Acceleration(b);
    var h := dt / 2.0;
    assert a.x * h + a.x * h == a.x * dt;
    assert a.y * h + a.y * h == a.y * dt;
    assert k.velocity.x * dt == b.velocity.x * dt + (a.x * h) * dt;
    assert k.velocity.y * dt == b.velocity.y * dt + (a.y * h) * dt;
  }
}
