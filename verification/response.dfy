/** Collision response on a manifold the narrow phase filled in: an impulse
    along the normal with restitution, a friction impulse along the tangent,
    and a positional correction that pushes the bodies apart. */
module Response {
  import opened Reals
  import opened Vector
  import opened Entities

  /** Numeric primitives the response uses: the square root, the length
      function `abs(Vec2)` and the two snapping thresholds
      `FRICTION_EPSILON` and `IMPULSE_EPSILON`. None of the last three is
      defined by the physics sources, so they are left as parameters. */
  datatype Numerics = Numerics(
    sqrt: real -> real,
    vecAbs: Vec2 -> real,
    frictionEpsilon: real,
    impulseEpsilon: real)

  /** Fraction of the excess penetration corrected per step. */
  const CORRECTION_RATIO: real := 0.6

  /** Penetration tolerated without correction. */
  const SLOP: real := 0.05

  /** The denominator of every impulse and correction. */
  function InvMassSum(m: Manifold): real {
    m.a.invMass + m.b.invMass
  }

  function RelativeVelocity(m: Manifold): Vec2 {
    Sub(m.b.velocity, m.a.velocity)
  }

  /** The bodies already move apart along the normal. */
  predicate Separating(m: Manifold) {
    Dot(RelativeVelocity(m), m.normal) > 0.0
  }

  /** The pair's restitution: the smaller of the two. */
  function Restitution(m: Manifold): real {
    Min(m.a.restitution, m.b.restitution)
  }

  /** Size of the normal impulse. */
  function ImpulseMagnitude(m: Manifold): real
    requires InvMassSum(m) != 0.0
  {
    -(1.0 + Restitution(m)) * Dot(RelativeVelocity(m), m.normal) / InvMassSum(m)
  }

  /** The relative velocity with its normal component removed. */
  function TangentialVelocity(m: Manifold): Vec2 {
    Sub(RelativeVelocity(m), Scale(m.normal, Dot(RelativeVelocity(m), m.normal)))
  }

  /** The normalised tangential velocity; zero when the bodies move only
      along the normal. */
  function Tangent(m: Manifold, sqrt: real -> real): Vec2
    requires IsSqrt(sqrt)
  {
    Normalize(TangentialVelocity(m), sqrt)
  }

  /** Two friction coefficients combined in quadrature. */
  function Combine(sqrt: real -> real, s: real, t: real): real {
    sqrt(Sq(s) + Sq(t))
  }

  /** Size of the impulse that would stop the tangential motion. */
  function FrictionMagnitude(m: Manifold, sqrt: real -> real): real
    requires IsSqrt(sqrt) && InvMassSum(m) != 0.0
  {
    -Dot(RelativeVelocity(m), Tangent(m, sqrt)) / InvMassSum(m)
  }

  /** The contact sticks: the tangential impulse is within the static
      friction cone of the normal impulse. */
  predicate Sticks(m: Manifold, sqrt: real -> real)
    requires IsSqrt(sqrt) && InvMassSum(m) != 0.0
  {
    Abs(FrictionMagnitude(m, sqrt)) <
      ImpulseMagnitude(m) * Combine(sqrt, m.a.staticFriction, m.b.staticFriction)
  }

  /** The friction impulse before snapping: static friction scales the
      stopping impulse, sliding friction opposes the tangent in proportion
      to the normal impulse. */
  function RawFriction(m: Manifold, sqrt: real -> real): Vec2
    requires IsSqrt(sqrt) && InvMassSum(m) != 0.0
  {
    FrictionRegime(Sticks(m, sqrt), Tangent(m, sqrt),
      FrictionMagnitude(m, sqrt), Combine(sqrt, m.a.staticFriction, m.b.staticFriction),
      ImpulseMagnitude(m), Combine(sqrt, m.a.dynamicFriction, m.b.dynamicFriction))
  }

  /** The two friction regimes, for tangent `t`, stopping impulse `k`,
      normal impulse `j` and the combined coefficients. */
  function FrictionRegime(sticks: bool, t: Vec2, k: real, muStatic: real, j: real, muDynamic: real): Vec2 {
    if sticks then Scale(Scale(t, k), muStatic) else Scale(Scale(Neg(t), j), muDynamic)
  }

  /** Impulses whose length is below the threshold become zero. */
  function Snap(v: Vec2, len: Vec2 -> real, epsilon: real): (r: Vec2)
    ensures r == v || r == Zero
    ensures r == Zero <==> len(v) < epsilon || v == Zero
  {
    if len(v) < epsilon then Zero else v
  }

  function FrictionImpulse(m: Manifold, num: Numerics): Vec2
    requires IsSqrt(num.sqrt) && InvMassSum(m) != 0.0
  {
    Snap(RawFriction(m, num.sqrt), num.vecAbs, num.frictionEpsilon)
  }

  function NormalImpulse(m: Manifold, num: Numerics): Vec2
    requires InvMassSum(m) != 0.0
  {
    Snap(Scale(m.normal, ImpulseMagnitude(m)), num.vecAbs, num.impulseEpsilon)
  }

  /** The impulse applied to the pair: `b` gains it, `a` loses it, each in
      proportion to its inverse mass. */
  function TotalImpulse(m: Manifold, num: Numerics): Vec2
    requires IsSqrt(num.sqrt) && InvMassSum(m) != 0.0
  {
    Add(NormalImpulse(m, num), FrictionImpulse(m, num))
  }

  /** Applies impulse `j` to the pair: `a` loses it and `b` gains it, each
      in proportion to its inverse mass; nothing but the two velocities
      changes, and a body of infinite mass keeps its velocity. */
  function ApplyImpulse(m: Manifold, j: Vec2): (r: Manifold)
    ensures r == m.(a := m.a.(velocity := r.a.velocity), b := m.b.(velocity := r.b.velocity))
    ensures m.a.invMass == 0.0 ==> r.a.velocity == m.a.velocity
    ensures m.b.invMass == 0.0 ==> r.b.velocity == m.b.velocity
  {
    m.(a := m.a.(velocity := Sub(m.a.velocity, Scale(j, m.a.invMass))),
       b := m.b.(velocity := Add(m.b.velocity, Scale(j, m.b.invMass))))
  }

  /** `resolve_collision`: a separating pair is left alone; otherwise the
      shared impulse changes the two velocities and nothing else. The source
      divides by the inverse-mass sum only past the separating test, so only
      that path needs it non-zero. */
  function ResolveCollision(m: Manifold, num: Numerics): (r: Manifold)
    requires IsSqrt(num.sqrt)
    requires !Separating(m) ==> InvMassSum(m) != 0.0
    ensures r == m.(a := m.a.(velocity := r.a.velocity), b := m.b.(velocity := r.b.velocity))
    ensures Separating(m) ==> r == m
    ensures m.a.invMass == 0.0 ==> r.a.velocity == m.a.velocity
    ensures m.b.invMass == 0.0 ==> r.b.velocity == m.b.velocity
  {
    if Separating(m) then m else ApplyImpulse(m, TotalImpulse(m, num))
  }

  /** The velocity changes of a resolved pair are opposite multiples of one
      impulse, weighted by the inverse masses. */
  lemma SharedImpulse(m: Manifold, num: Numerics)
    requires IsSqrt(num.sqrt)
    requires !Separating(m) && InvMassSum(m) != 0.0
    ensures Sub(m.a.velocity, ResolveCollision(m, num).a.velocity) == Scale(TotalImpulse(m, num), m.a.invMass)
    ensures Sub(ResolveCollision(m, num).b.velocity, m.b.velocity) == Scale(TotalImpulse(m, num), m.b.invMass)
  {
  }

  /** A body's momentum: velocity over inverse mass. */
  function Momentum(b: Body): Vec2
    requires b.invMass != 0.0
  {
    Scale(b.velocity, 1.0 / b.invMass)
  }

  /** Scaling by `k` and then by its reciprocal gives back the vector. */
  lemma ScaleReciprocal(v: Vec2, k: real)
    requires k != 0.0
    ensures Scale(Scale(v, k), 1.0 / k) == v
  {
    assert v.x * k * (1.0 / k) == v.x;
    assert v.y * k * (1.0 / k) == v.y;
  }

  /** Between two finite masses the resolution conserves total momentum. */
  lemma MomentumConserved(m: Manifold, num: Numerics)
    requires IsSqrt(num.sqrt)
    requires !Separating(m) ==> InvMassSum(m) != 0.0
    requires m.a.invMass != 0.0 && m.b.invMass != 0.0
    ensures Add(Momentum(ResolveCollision(m, num).a), Momentum(ResolveCollision(m, num).b))
      == Add(Momentum(m.a), Momentum(m.b))
  {
    if !Separating(m) {
      var j := TotalImpulse(m, num);
      var r := ResolveCollision(m, num);
      MomentumShift(m.a.velocity, j, m.a.invMass, -1.0);
      MomentumShift(m.b.velocity, j, m.b.invMass, 1.0);
      assert r.a.velocity == Add(m.a.velocity, Scale(Scale(j, m.a.invMass), -1.0));
      assert r.b.velocity == Add(m.b.velocity, Scale(Scale(j, m.b.invMass), 1.0));
    }
  }

  /** Changing a velocity by `sign * j * w` changes its momentum by
      `sign * j`. */
  lemma MomentumShift(v: Vec2, j: Vec2, w: real, sign: real)
    requires w != 0.0
    ensures Scale(Add(v, Scale(Scale(j, w), sign)), 1.0 / w) == Add(Scale(v, 1.0 / w), Scale(j, sign))
  {
    var k := 1.0 / w;
    assert w * k == 1.0;
    assert (v.x + j.x * w * sign) * k == v.x * k + j.x * sign * (w * k);
    assert (v.y + j.y * w * sign) * k == v.y * k + j.y * sign * (w * k);
  }

  /** The tangential velocity has no normal component when the normal is a
      unit vector. */
  lemma TangentialOrthogonal(m: Manifold)
    requires UnitLength(m.normal)
    ensures Dot(TangentialVelocity(m), m.normal) == 0.0
  {
    var rv := RelativeVelocity(m);
    var n := m.normal;
    var k := Dot(rv, n);
    assert Dot(Scale(n, k), n) == k * Dot(n, n);
  }

  /** Neither does its normalisation. */
  lemma TangentOrthogonal(m: Manifold, sqrt: real -> real)
    requires IsSqrt(sqrt) && UnitLength(m.normal)
    ensures Dot(Tangent(m, sqrt), m.normal) == 0.0
  {
    var w := TangentialVelocity(m);
    TangentialOrthogonal(m);
    if w != Zero {
      var len := Magnitude(w, sqrt);
      assert Tangent(m, sqrt) == Vec2(w.x / len, w.y / len);
      DivOrthogonal(w, m.normal, len);
    }
  }

  lemma DivOrthogonal(w: Vec2, n: Vec2, len: real)
    requires len != 0.0 && Dot(w, n) == 0.0
    ensures Dot(Vec2(w.x / len, w.y / len), n) == 0.0
  {
    assert (w.x / len) * n.x + (w.y / len) * n.y == (w.x * n.x + w.y * n.y) / len;
  }

  /** Both friction regimes act along the tangent, so friction never has a
      normal component. */
  lemma FrictionOrthogonal(m: Manifold, num: Numerics)
    requires IsSqrt(num.sqrt) && InvMassSum(m) != 0.0 && UnitLength(m.normal)
    ensures Dot(FrictionImpulse(m, num), m.normal) == 0.0
  {
    var t := Tangent(m, num.sqrt);
    TangentOrthogonal(m, num.sqrt);
    DotScaleZero(t, m.normal, FrictionMagnitude(m, num.sqrt),
      Combine(num.sqrt, m.a.staticFriction, m.b.staticFriction));
    assert Dot(Neg(t), m.normal) == 0.0;
    DotScaleZero(Neg(t), m.normal, ImpulseMagnitude(m),
      Combine(num.sqrt, m.a.dynamicFriction, m.b.dynamicFriction));
  }

  lemma DotScaleZero(t: Vec2, n: Vec2, j: real, mu: real)
    requires Dot(t, n) == 0.0
    ensures Dot(Scale(Scale(t, j), mu), n) == 0.0
  {
    assert (t.x * j) * mu * n.x + (t.y * j) * mu * n.y == (t.x * n.x + t.y * n.y) * (j * mu);
  }

  /** Either friction regime yields a multiple of the tangent: while the
      contact sticks, the stopping impulse times the static coefficient;
      while it slides, minus the normal impulse times the dynamic
      coefficient. */
  lemma FrictionShape(t: Vec2, sticks: bool, k: real, muStatic: real, j: real, muDynamic: real)
    ensures FrictionRegime(sticks, t, k, muStatic, j, muDynamic)
      == Scale(t, if sticks then k * muStatic else -(j * muDynamic))
  {
    if sticks {
      ScaleTwice(t, k, muStatic);
    } else {
      assert Neg(t) == Scale(t, -1.0);
      ScaleTwice(t, -1.0, j);
      ScaleTwice(t, -j, muDynamic);
    }
  }

  /** While the contact sticks, the friction impulse before snapping is the
      tangent times the stopping impulse `k` times the static coefficient
      `mu`. */
  lemma StickingFriction(m: Manifold, sqrt: real -> real, k: real, mu: real)
    requires IsSqrt(sqrt) && InvMassSum(m) != 0.0
    requires Sticks(m, sqrt)
    requires k == FrictionMagnitude(m, sqrt) && mu == Combine(sqrt, m.a.staticFriction, m.b.staticFriction)
    ensures RawFriction(m, sqrt) == Scale(Tangent(m, sqrt), k * mu)
  {
    RegimeShape(RawFriction(m, sqrt), true, Tangent(m, sqrt), k, mu,
      ImpulseMagnitude(m), Combine(sqrt, m.a.dynamicFriction, m.b.dynamicFriction));
  }

  /** While it slides, it is the tangent times minus the normal impulse `j`
      times the dynamic coefficient `mu`. */
  lemma SlidingFriction(m: Manifold, sqrt: real -> real, j: real, mu: real)
    requires IsSqrt(sqrt) && InvMassSum(m) != 0.0
    requires !Sticks(m, sqrt)
    requires j == ImpulseMagnitude(m) && mu == Combine(sqrt, m.a.dynamicFriction, m.b.dynamicFriction)
    ensures RawFriction(m, sqrt) == Scale(Tangent(m, sqrt), -(j * mu))
  {
    SlidingRegime(m, sqrt);
    RegimeShape(RawFriction(m, sqrt), false, Tangent(m, sqrt), FrictionMagnitude(m, sqrt),
      Combine(sqrt, m.a.staticFriction, m.b.staticFriction), j, mu);
  }

  /** A sliding contact takes the second regime. */
  lemma SlidingRegime(m: Manifold, sqrt: real -> real)
    requires IsSqrt(sqrt) && InvMassSum(m) != 0.0
    requires !Sticks(m, sqrt)
    ensures RawFriction(m, sqrt) == FrictionRegime(false, Tangent(m, sqrt), FrictionMagnitude(m, sqrt),
      Combine(sqrt, m.a.staticFriction, m.b.staticFriction),
      ImpulseMagnitude(m), Combine(sqrt, m.a.dynamicFriction, m.b.dynamicFriction))
  {
  }

  /** FrictionShape for a value `v` known to be the regime's result, one
      conclusion per regime. */
  lemma RegimeShape(v: Vec2, sticks: bool, t: Vec2, k: real, muStatic: real, j: real, muDynamic: real)
    requires v == FrictionRegime(sticks, t, k, muStatic, j, muDynamic)
    ensures sticks ==> v == Scale(t, k * muStatic)
    ensures !sticks ==> v == Scale(t, -(j * muDynamic))
  {
    FrictionShape(t, sticks, k, muStatic, j, muDynamic);
  }

  lemma ScaleTwice(v: Vec2, j: real, k: real)
    ensures Scale(Scale(v, j), k) == Scale(v, j * k)
  {
    assert (v.x * j) * k == v.x * (j * k);
    assert (v.y * j) * k == v.y * (j * k);
  }

  /** Applying impulse `j` changes the relative velocity by `j` times the
      inverse-mass sum. */
  lemma ImpulseChangesRelativeVelocity(m: Manifold, j: Vec2)
    ensures RelativeVelocity(ApplyImpulse(m, j)) == Add(RelativeVelocity(m), Scale(j, InvMassSum(m)))
  {
    assert j.x * m.b.invMass + j.x * m.a.invMass == j.x * InvMassSum(m);
    assert j.y * m.b.invMass + j.y * m.a.invMass == j.y * InvMassSum(m);
  }

  /** After resolution the relative velocity gains the impulse times the
      inverse-mass sum. */
  lemma RelativeVelocityAfter(m: Manifold, num: Numerics)
    requires IsSqrt(num.sqrt)
    requires !Separating(m) && InvMassSum(m) != 0.0
    ensures RelativeVelocity(ResolveCollision(m, num))
      == Add(RelativeVelocity(m), Scale(TotalImpulse(m, num), InvMassSum(m)))
  {
    ImpulseChangesRelativeVelocity(m, TotalImpulse(m, num));
  }

  /** The normal impulse cancels the approach speed and adds back the
      restitution's share of it. */
  lemma ImpulseCancels(m: Manifold)
    requires InvMassSum(m) != 0.0
    ensures Dot(RelativeVelocity(m), m.normal) + ImpulseMagnitude(m) * InvMassSum(m)
      == -Restitution(m) * Dot(RelativeVelocity(m), m.normal)
  {
    var s := InvMassSum(m);
    var q := -(1.0 + Restitution(m)) * Dot(RelativeVelocity(m), m.normal);
    assert (q / s) * s == q;
  }

  /** Newton's law of restitution along a unit normal: an approaching pair
      whose normal impulse survives the snapping threshold leaves with its
      normal relative speed reversed and scaled by the restitution. Friction
      does not disturb it, because it acts along the tangent. */
  lemma RestitutionLaw(m: Manifold, num: Numerics)
    requires IsSqrt(num.sqrt)
    requires !Separating(m) && InvMassSum(m) != 0.0 && UnitLength(m.normal)
    requires NormalImpulse(m, num) != Zero
    ensures Dot(RelativeVelocity(ResolveCollision(m, num)), m.normal)
      == -Restitution(m) * Dot(RelativeVelocity(m), m.normal)
  {
    ResolveApplies(m, num);
    FrictionOrthogonal(m, num);
    NormalImpulseShape(m, num);
    ResolvedSpeed(m, ResolveCollision(m, num), NormalImpulse(m, num), FrictionImpulse(m, num));
  }

  /** The normal impulse is either snapped to zero or the impulse magnitude
      along the normal. */
  lemma NormalImpulseShape(m: Manifold, num: Numerics)
    requires InvMassSum(m) != 0.0
    ensures NormalImpulse(m, num) == Zero || NormalImpulse(m, num) == Scale(m.normal, ImpulseMagnitude(m))
  {
  }

  /** The restitution law for any pair obtained by applying a normal
      impulse of the computed magnitude and an orthogonal friction impulse. */
  lemma ResolvedSpeed(m: Manifold, r: Manifold, ni: Vec2, f: Vec2)
    requires InvMassSum(m) != 0.0
    requires r == ApplyImpulse(m, Add(ni, f))
    requires UnitLength(m.normal) && Dot(f, m.normal) == 0.0
    requires ni == Zero || ni == Scale(m.normal, ImpulseMagnitude(m))
    requires ni != Zero
    ensures Dot(RelativeVelocity(r), m.normal)
      == -Restitution(m) * Dot(RelativeVelocity(m), m.normal)
  {
    ImpulseCancels(m);
    ImpulseNormalSpeed(m, ni, f, ImpulseMagnitude(m));
  }

  /** When the normal impulse is snapped to zero, the normal relative speed
      is unchanged. */
  lemma SnappedNormalSpeed(m: Manifold, num: Numerics)
    requires IsSqrt(num.sqrt)
    requires !Separating(m) && InvMassSum(m) != 0.0 && UnitLength(m.normal)
    requires NormalImpulse(m, num) == Zero
    ensures Dot(RelativeVelocity(ResolveCollision(m, num)), m.normal) == Dot(RelativeVelocity(m), m.normal)
  {
    ResolveApplies(m, num);
    FrictionOrthogonal(m, num);
    SnappedSpeed(m, ResolveCollision(m, num), NormalImpulse(m, num), FrictionImpulse(m, num));
  }

  /** An orthogonal impulse alone leaves the normal relative speed as it
      was. */
  lemma SnappedSpeed(m: Manifold, r: Manifold, ni: Vec2, f: Vec2)
    requires r == ApplyImpulse(m, Add(ni, f))
    requires Dot(f, m.normal) == 0.0 && ni == Zero
    ensures Dot(RelativeVelocity(r), m.normal) == Dot(RelativeVelocity(m), m.normal)
  {
    NormalSpeedAfter(RelativeVelocity(m), m.normal, Zero, f, InvMassSum(m));
    ImpulseChangesRelativeVelocity(m, Add(Zero, f));
  }

  /** Past the separating test the resolution applies the sum of the normal
      and friction impulses. */
  lemma ResolveApplies(m: Manifold, num: Numerics)
    requires IsSqrt(num.sqrt) && !Separating(m) && InvMassSum(m) != 0.0
    ensures ResolveCollision(m, num) == ApplyImpulse(m, Add(NormalImpulse(m, num), FrictionImpulse(m, num)))
  {
  }

  /** Applying `j` along a unit normal together with a friction impulse
      orthogonal to it turns the normal relative speed into `-e` times
      itself, when `j` is the magnitude that does so. */
  lemma ImpulseNormalSpeed(m: Manifold, ni: Vec2, f: Vec2, j: real)
    requires UnitLength(m.normal) && Dot(f, m.normal) == 0.0
    requires ni == Scale(m.normal, j)
    requires Dot(RelativeVelocity(m), m.normal) + j * InvMassSum(m)
      == -Restitution(m) * Dot(RelativeVelocity(m), m.normal)
    ensures Dot(RelativeVelocity(ApplyImpulse(m, Add(ni, f))), m.normal)
      == -Restitution(m) * Dot(RelativeVelocity(m), m.normal)
  {
    ImpulseChangesRelativeVelocity(m, Add(ni, f));
    NormalSpeedLaw(RelativeVelocity(m), m.normal, ni, f, InvMassSum(m), j, Restitution(m));
  }

  /** The restitution law for abstract quantities: a relative velocity
      `rv`, a unit normal `n`, a normal impulse that is zero or `j` along
      `n`, a friction impulse orthogonal to `n`, and a `j` that turns the
      normal speed into `-e` times itself. */
  lemma NormalSpeedLaw(rv: Vec2, n: Vec2, ni: Vec2, f: Vec2, s: real, j: real, e: real)
    requires UnitLength(n) && Dot(f, n) == 0.0
    requires ni == Zero || ni == Scale(n, j)
    requires Dot(rv, n) + j * s == -e * Dot(rv, n)
    ensures Dot(Add(rv, Scale(Add(ni, f), s)), n) ==
      if ni == Zero then Dot(rv, n) else -e * Dot(rv, n)
  {
    NormalSpeedAfter(rv, n, ni, f, s);
    if ni != Zero {
      NormalComponent(n, j);
    }
  }

  /** Adding `(ni + f) * s` with `f` orthogonal to `n` changes the component
      along `n` by `s` times that of `ni`. */
  lemma NormalSpeedAfter(rv: Vec2, n: Vec2, ni: Vec2, f: Vec2, s: real)
    requires Dot(f, n) == 0.0
    ensures Dot(Add(rv, Scale(Add(ni, f), s)), n) == Dot(rv, n) + s * Dot(ni, n)
  {
    DotLaws(rv, Scale(Add(ni, f), s), n, 0.0);
    DotLaws(Add(ni, f), n, n, s);
    DotLaws(ni, f, n, s);
  }

  /** A multiple of a unit vector has that multiple as its component. */
  lemma NormalComponent(n: Vec2, j: real)
    requires UnitLength(n)
    ensures Dot(Scale(n, j), n) == j
  {
    DotLaws(n, n, n, j);
  }

  /** How far the correction pushes the pair apart along the normal, per
      unit of inverse mass. */
  function CorrectionDepth(m: Manifold): real
    requires InvMassSum(m) != 0.0
  {
    Max(m.penetration - SLOP, 0.0) / InvMassSum(m) * CORRECTION_RATIO
  }

  /** The correction vector, computed as the source does: the normal times
      the excess penetration, over the inverse-mass sum, times the ratio. */
  function Correction(m: Manifold): Vec2
    requires InvMassSum(m) != 0.0
  {
    Scale(Div(Scale(m.normal, Max(m.penetration - SLOP, 0.0)), InvMassSum(m)), CORRECTION_RATIO)
  }

  /** Moves `a` back and `b` forward by `c` times their inverse masses;
      nothing but the two positions changes, and a body of infinite mass
      stays put. */
  function PushApart(m: Manifold, c: Vec2): (r: Manifold)
    ensures r == m.(a := m.a.(pos := r.a.pos), b := m.b.(pos := r.b.pos))
    ensures m.a.invMass == 0.0 ==> r.a.pos == m.a.pos
    ensures m.b.invMass == 0.0 ==> r.b.pos == m.b.pos
  {
    m.(a := m.a.(pos := Sub(m.a.pos, Scale(c, m.a.invMass))),
       b := m.b.(pos := Add(m.b.pos, Scale(c, m.b.invMass))))
  }

  /** `positional_correction`: pushes the pair apart along the normal. */
  function PositionalCorrection(m: Manifold): (r: Manifold)
    requires InvMassSum(m) != 0.0
    ensures r == m.(a := m.a.(pos := r.a.pos), b := m.b.(pos := r.b.pos))
    ensures m.a.invMass == 0.0 ==> r.a.pos == m.a.pos
    ensures m.b.invMass == 0.0 ==> r.b.pos == m.b.pos
  {
    PushApart(m, Correction(m))
  }

  /** The correction vector is the normal scaled by the correction depth. */
  lemma CorrectionIsDepth(m: Manifold)
    requires InvMassSum(m) != 0.0
    ensures Correction(m) == Scale(m.normal, CorrectionDepth(m))
  {
    ScaleDivScale(m.normal, Max(m.penetration - SLOP, 0.0), InvMassSum(m), CORRECTION_RATIO);
  }

  lemma ScaleDivScale(n: Vec2, e: real, s: real, k: real)
    requires s != 0.0
    ensures Scale(Div(Scale(n, e), s), k) == Scale(n, e / s * k)
  {
    assert (n.x * e / s) * k == n.x * (e / s * k);
    assert (n.y * e / s) * k == n.y * (e / s * k);
  }

  /** Pushing along `n` by `d` moves `a` by `-d` and `b` by `+d` times their
      inverse masses. */
  lemma PushAlong(m: Manifold, n: Vec2, d: real)
    ensures Sub(PushApart(m, Scale(n, d)).a.pos, m.a.pos) == Scale(n, -(d * m.a.invMass))
    ensures Sub(PushApart(m, Scale(n, d)).b.pos, m.b.pos) == Scale(n, d * m.b.invMass)
  {
    ScaleTwice(n, d, m.a.invMass);
    ScaleTwice(n, d, m.b.invMass);
  }

  /** The correction is a push along the normal by the correction depth. */
  lemma CorrectionAlongNormal(m: Manifold)
    requires InvMassSum(m) != 0.0
    ensures PositionalCorrection(m) == PushApart(m, Scale(m.normal, CorrectionDepth(m)))
  {
    CorrectionIsDepth(m);
  }

  /** Within the slop nothing moves. */
  lemma CorrectionWithinSlop(m: Manifold)
    requires InvMassSum(m) != 0.0 && m.penetration <= SLOP
    ensures PositionalCorrection(m) == m
  {
    CorrectionAlongNormal(m);
    assert CorrectionDepth(m) == 0.0;
    PushNothing(m, m.normal);
  }

  /** A push of depth zero moves nothing. */
  lemma PushNothing(m: Manifold, n: Vec2)
    ensures PushApart(m, Scale(n, 0.0)) == m
  {
  }

  /** With non-negative inverse masses the depth is non-negative, so the
      bodies are pushed in opposite directions along the normal. */
  lemma CorrectionDepthNonNegative(m: Manifold)
    requires 0.0 <= m.a.invMass && 0.0 <= m.b.invMass && InvMassSum(m) != 0.0
    ensures 0.0 <= CorrectionDepth(m)
  {
    var e := Max(m.penetration - SLOP, 0.0);
    assert 0.0 <= e / InvMassSum(m);
  }

  /** The offset between the centres grows along the normal by the
      corrected share of the excess penetration, whatever the masses. */
  lemma CorrectionClosesGap(m: Manifold)
    requires InvMassSum(m) != 0.0
    ensures Sub(Delta(PositionalCorrection(m)), Delta(m))
      == Scale(m.normal, CORRECTION_RATIO * Max(m.penetration - SLOP, 0.0))
  {
    CorrectionAlongNormal(m);
    DepthTimesSum(m);
    PushGap(m, m.normal, CorrectionDepth(m), CORRECTION_RATIO * Max(m.penetration - SLOP, 0.0));
  }

  /** Pushing along `n` by `d` widens the centre offset by `n` times `d`
      times the inverse-mass sum. */
  lemma PushGap(m: Manifold, n: Vec2, d: real, g: real)
    requires d * InvMassSum(m) == g
    ensures Sub(Delta(PushApart(m, Scale(n, d))), Delta(m)) == Scale(n, g)
  {
    PushWidens(m, Scale(n, d));
    ScaleTwice(n, d, InvMassSum(m));
  }

  /** Pushing apart by `c` widens the centre offset by `c` times the
      inverse-mass sum. */
  lemma PushWidens(m: Manifold, c: Vec2)
    ensures Sub(Delta(PushApart(m, c)), Delta(m)) == Scale(c, InvMassSum(m))
  {
    assert c.x * m.b.invMass + c.x * m.a.invMass == c.x * InvMassSum(m);
    assert c.y * m.b.invMass + c.y * m.a.invMass == c.y * InvMassSum(m);
  }

  lemma DepthTimesSum(m: Manifold)
    requires InvMassSum(m) != 0.0
    ensures CorrectionDepth(m) * InvMassSum(m) == CORRECTION_RATIO * Max(m.penetration - SLOP, 0.0)
  {
    var e := Max(m.penetration - SLOP, 0.0);
    var s := InvMassSum(m);
    assert (e / s) * s == e;
  }

  /** Between two finite masses the correction keeps the centre of mass. */
  lemma CentreOfMassKept(m: Manifold)
    requires InvMassSum(m) != 0.0 && m.a.invMass != 0.0 && m.b.invMass != 0.0
    ensures Add(Scale(PositionalCorrection(m).a.pos, 1.0 / m.a.invMass),
                Scale(PositionalCorrection(m).b.pos, 1.0 / m.b.invMass))
      == Add(Scale(m.a.pos, 1.0 / m.a.invMass), Scale(m.b.pos, 1.0 / m.b.invMass))
  {
    PushKeepsCentre(m, Correction(m));
  }

  /** Any push between two finite masses keeps their centre of mass. */
  lemma PushKeepsCentre(m: Manifold, c: Vec2)
    requires m.a.invMass != 0.0 && m.b.invMass != 0.0
    ensures Add(Scale(PushApart(m, c).a.pos, 1.0 / m.a.invMass),
                Scale(PushApart(m, c).b.pos, 1.0 / m.b.invMass))
      == Add(Scale(m.a.pos, 1.0 / m.a.invMass), Scale(m.b.pos, 1.0 / m.b.invMass))
  {
    var r := PushApart(m, c);
    assert r.a.pos == Add(m.a.pos, Scale(Scale(c, m.a.invMass), -1.0));
    assert r.b.pos == Add(m.b.pos, Scale(Scale(c, m.b.invMass), 1.0));
    MomentumShift(m.a.pos, c, m.a.invMass, -1.0);
    MomentumShift(m.b.pos, c, m.b.invMass, 1.0);
  }
}
