/** The narrow-phase overlap tests, one per ordered pair of shape kinds, and
    the 2x2 table that selects among them. Each test reads the manifold's
    two bodies and, on contact, fills in the normal and penetration. */
module Narrowphase {
  import opened Reals
  import opened Vector
  import opened Entities

  /** What a test reports: whether the pair overlaps, and the manifold as
      the test leaves it. */
  datatype Contact = Contact(hit: bool, m: Manifold)

  predicate IsBox(b: Body) {
    b.shape.geom.BoundingBox?
  }

  predicate IsCircle(b: Body) {
    b.shape.geom.BoundingCircle?
  }

  function Radius(b: Body): real
    requires IsCircle(b)
  {
    b.shape.geom.rad
  }

  function Extents(b: Body): Vec2
    requires IsBox(b)
  {
    HalfExtents(b.shape.geom)
  }

  /** The box's corners are in order, so its half-extents are not negative. */
  predicate WellFormed(b: Body)
    requires IsBox(b)
  {
    b.shape.geom.min.x <= b.shape.geom.max.x && b.shape.geom.min.y <= b.shape.geom.max.y
  }

  /** The box is centred on its body, as `move()` leaves it. */
  predicate Synced(b: Body)
    requires IsBox(b)
  {
    Centre(b.shape.geom) == b.pos
  }

  /** `q`, relative to a box centre, lies in the box of half-extents `e`. */
  predicate InBox(q: Vec2, e: Vec2) {
    -e.x <= q.x <= e.x && -e.y <= q.y <= e.y
  }

  function DistSq(p: Vec2, q: Vec2): real {
    Dot(Sub(p, q), Sub(p, q))
  }

  // ---------------------------------------------------------------- circles

  function RadiusSum(m: Manifold): real
    requires IsCircle(m.a) && IsCircle(m.b)
  {
    Radius(m.a) + Radius(m.b)
  }

  /** `collision_circle_circle`. Apart exactly when the squared centre
      distance reaches the squared radius sum. Coincident centres get the
      fixed normal (1, 0) and the smaller radius as penetration; otherwise
      the normal is the normalised centre delta and the penetration is the
      radius sum minus the distance (CircleCircleContact gives the geometry
      of that normal). */
  function CircleCircle(m: Manifold, sqrt: real -> real): (r: Contact)
    requires IsSqrt(sqrt)
    requires IsCircle(m.a) && IsCircle(m.b)
    ensures r.m.a == m.a && r.m.b == m.b
    ensures !r.hit <==> Sq(RadiusSum(m)) <= Dot(Delta(m), Delta(m))
    ensures !r.hit ==> r.m == m
    ensures r.hit && Delta(m) == Zero ==>
      r.m.normal == Vec2(1.0, 0.0) && r.m.penetration == Min(Radius(m.a), Radius(m.b))
    ensures r.hit && Delta(m) != Zero ==>
      r.m.normal == Normalize(Delta(m), sqrt)
      && r.m.penetration == RadiusSum(m) - Magnitude(Delta(m), sqrt)
  {
    var n := Delta(m);
    var rs := RadiusSum(m);
    if Dot(n, n) >= Sq(rs) then Contact(false, m)
    else
      var d := Magnitude(n, sqrt);
      if d != 0.0 then
        Contact(true, m.(penetration := rs - d, normal := Div(n, d)))
      else
        Contact(true, m.(penetration := Min(Radius(m.a), Radius(m.b)), normal := Vec2(1.0, 0.0)))
  }

  /** On contact between distinct centres the normal is a unit vector that
      points from a to b and reaches b's centre when scaled by the distance;
      with non-negative radii the penetration is positive. */
  lemma CircleCircleContact(m: Manifold, sqrt: real -> real)
    requires IsSqrt(sqrt)
    requires IsCircle(m.a) && IsCircle(m.b)
    requires CircleCircle(m, sqrt).hit && Delta(m) != Zero
    ensures UnitLength(CircleCircle(m, sqrt).m.normal)
    ensures Scale(CircleCircle(m, sqrt).m.normal, Magnitude(Delta(m), sqrt)) == Delta(m)
    ensures 0.0 <= RadiusSum(m) ==> 0.0 < CircleCircle(m, sqrt).m.penetration
  {
    NormalizeUnit(Delta(m), sqrt);
    MagnitudeSquared(Delta(m), sqrt);
    RootBelow(Magnitude(Delta(m), sqrt), RadiusSum(m));
  }

  /** For non-negative radii the test is exact: contact exactly when the
      centres are closer than the radius sum, so touching discs do not
      collide. */
  lemma CircleCircleOverlap(m: Manifold, sqrt: real -> real)
    requires IsSqrt(sqrt)
    requires IsCircle(m.a) && IsCircle(m.b) && 0.0 <= Radius(m.a) && 0.0 <= Radius(m.b)
    ensures CircleCircle(m, sqrt).hit <==> Magnitude(Delta(m), sqrt) < RadiusSum(m)
  {
    MagnitudeSquared(Delta(m), sqrt);
    SqMonotone(Magnitude(Delta(m), sqrt), RadiusSum(m));
  }

  /** A non-negative number whose square is below that of a non-negative
      bound is below the bound. */
  lemma RootBelow(d: real, bound: real)
    requires 0.0 <= d && Sq(d) < Sq(bound)
    ensures 0.0 <= bound ==> d < bound
  {
    if 0.0 <= bound {
      SqMonotone(d, bound);
    }
  }

  // ------------------------------------------------------------------ boxes

  function XOverlap(m: Manifold): real
    requires IsBox(m.a) && IsBox(m.b)
  {
    Extents(m.a).x + Extents(m.b).x - Abs(Delta(m).x)
  }

  function YOverlap(m: Manifold): real
    requires IsBox(m.a) && IsBox(m.b)
  {
    Extents(m.a).y + Extents(m.b).y - Abs(Delta(m).y)
  }

  /** `collision_box_box`. Overlap needs a positive overlap on both axes;
      the axis of smaller overlap is chosen (a tie goes to y); the normal is
      the unit vector along it, negative exactly when the centre delta is;
      the penetration is that axis's overlap. */
  function BoxBox(m: Manifold): (r: Contact)
    requires IsBox(m.a) && IsBox(m.b)
    ensures r.m.a == m.a && r.m.b == m.b
    ensures r.hit <==> 0.0 < XOverlap(m) && 0.0 < YOverlap(m)
    ensures !r.hit ==> r.m == m
    ensures r.hit ==> r.m.penetration == Min(XOverlap(m), YOverlap(m)) && 0.0 < r.m.penetration
    ensures r.hit ==> r.m.normal in {Vec2(1.0, 0.0), Vec2(-1.0, 0.0), Vec2(0.0, 1.0), Vec2(0.0, -1.0)}
    ensures r.hit ==> (r.m.normal.y == 0.0 <==> XOverlap(m) < YOverlap(m))
    ensures r.hit ==> (r.m.normal.x == -1.0 <==> XOverlap(m) < YOverlap(m) && Delta(m).x < 0.0)
    ensures r.hit ==> (r.m.normal.y == -1.0 <==> YOverlap(m) <= XOverlap(m) && Delta(m).y < 0.0)
  {
    var n := Delta(m);
    var xOverlap := XOverlap(m);
    if 0.0 < xOverlap then
      var yOverlap := YOverlap(m);
      if 0.0 < yOverlap then
        if xOverlap < yOverlap then
          Contact(true, m.(normal := Vec2(if n.x < 0.0 then -1.0 else 1.0, 0.0), penetration := xOverlap))
        else
          Contact(true, m.(normal := Vec2(0.0, if n.y < 0.0 then -1.0 else 1.0), penetration := yOverlap))
      else Contact(false, m)
    else Contact(false, m)
  }

  /** For boxes centred on their bodies, the test agrees with comparing the
      corners: the open boxes share a point exactly when each one's minimum
      lies below the other's maximum on both axes. */
  lemma BoxBoxMatchesCorners(m: Manifold)
    requires IsBox(m.a) && IsBox(m.b) && Synced(m.a) && Synced(m.b)
    ensures BoxBox(m).hit <==>
      && m.a.shape.geom.min.x < m.b.shape.geom.max.x && m.b.shape.geom.min.x < m.a.shape.geom.max.x
      && m.a.shape.geom.min.y < m.b.shape.geom.max.y && m.b.shape.geom.min.y < m.a.shape.geom.max.y
  {
  }

  // ------------------------------------------------------------ box, circle

  /** The intermediate geometry of the box-circle test, relative to the box
      centre: the circle centre `n`, the point of the box used as the contact
      point, and whether the circle centre was inside the box. */
  datatype Probe = Probe(n: Vec2, closest: Vec2, inside: bool)

  /** The vector of length `t` along the axis an inside centre is pushed
      along: the x axis when |n.x| > |n.y|, otherwise the y axis, signed
      like `n` (a zero component counts as negative). */
  function AlongEdge(n: Vec2, t: real): Vec2 {
    if Abs(n.x) > Abs(n.y) then Vec2(if n.x > 0.0 then t else -t, 0.0)
    else Vec2(0.0, if n.y > 0.0 then t else -t)
  }

  /** The outward normal of the face an inside centre is pushed to. */
  function EdgeNormal(n: Vec2): Vec2 {
    AlongEdge(n, 1.0)
  }

  /** How far an inside centre lies from that face. */
  function EdgeDistance(n: Vec2, e: Vec2): real {
    if Abs(n.x) > Abs(n.y) then e.x - Abs(n.x) else e.y - Abs(n.y)
  }

  /** Clamping picks the point of an interval nearest to `x`. */
  lemma ClampNearest(lo: real, hi: real, x: real, q: real)
    requires lo <= q <= hi
    ensures Sq(x - Clamp(lo, hi, x)) <= Sq(x - q)
  {
    var c := Clamp(lo, hi, x);
    if x < lo {
      SqMonotone(c - x, q - x);
      SqNegate(x - c);
      SqNegate(x - q);
    } else if hi < x {
      SqMonotone(x - c, x - q);
    } else {
      SqNonNegative(x - q);
    }
  }

  /** The closest-point computation, relative to the box centre. Outside
      the box it clamps the circle centre into the box (the nearest point,
      by ProbeNearest); inside, it pushes the centre onto the face of the
      dominant axis. */
  function ProbeBoxCircle(m: Manifold): (p: Probe)
    requires IsBox(m.a) && IsCircle(m.b)
    ensures p.n == Delta(m)
    ensures WellFormed(m.a) ==> (p.inside <==> InBox(p.n, Extents(m.a)))
    ensures !p.inside ==> p.closest != p.n
    ensures !p.inside && WellFormed(m.a) ==> InBox(p.closest, Extents(m.a))
    ensures p.inside ==> Sub(p.closest, p.n) == AlongEdge(p.n, EdgeDistance(p.n, Extents(m.a)))
  {
    var n := Delta(m);
    var e := Extents(m.a);
    var clamped := Vec2(Clamp(-e.x, e.x, n.x), Clamp(-e.y, e.y, n.y));
    if Equals(clamped, n) then
      if Abs(n.x) > Abs(n.y) then
        Probe(n, Vec2(if clamped.x > 0.0 then e.x else -e.x, clamped.y), true)
      else
        Probe(n, Vec2(clamped.x, if clamped.y > 0.0 then e.y else -e.y), true)
    else
      Probe(n, clamped, false)
  }

  /** Outside a well-formed box, the probe's point is the point of the box
      nearest the circle centre. */
  lemma ProbeNearest(m: Manifold, q: Vec2)
    requires IsBox(m.a) && IsCircle(m.b) && WellFormed(m.a)
    requires !ProbeBoxCircle(m).inside && InBox(q, Extents(m.a))
    ensures DistSq(Delta(m), ProbeBoxCircle(m).closest) <= DistSq(Delta(m), q)
  {
    var n := Delta(m);
    var e := Extents(m.a);
    var c := ProbeBoxCircle(m).closest;
    assert c == Vec2(Clamp(-e.x, e.x, n.x), Clamp(-e.y, e.y, n.y));
    ClampNearest(-e.x, e.x, n.x, q.x);
    ClampNearest(-e.y, e.y, n.y, q.y);
    DotSelf(Sub(n, c));
    DotSelf(Sub(n, q));
  }

  /** The test's result where the source's arithmetic stays finite, or
      `NonFinite` where it divides by a zero distance. */
  datatype Computed = Finite(contact: Contact) | NonFinite

  /** The second half of `collision_box_circle`, from a probe. The early
      return (squared distance above r^2) applies only outside the box, so
      the two cases are resolved separately. */
  function ResolveProbe(m: Manifold, p: Probe, sqrt: real -> real): Computed
    requires IsSqrt(sqrt)
    requires IsCircle(m.b)
  {
    if p.inside then ResolveFromInside(m, p, sqrt) else ResolveFromOutside(m, p, sqrt)
  }

  /** Inside: always in contact, along the negated vector to the centre,
      with penetration r plus the distance; the division is by that
      distance even when it is zero. */
  function ResolveFromInside(m: Manifold, p: Probe, sqrt: real -> real): Computed
    requires IsSqrt(sqrt)
    requires IsCircle(m.b)
  {
    var normal := Sub(p.n, p.closest);
    var len := Magnitude(normal, sqrt);
    if len == 0.0 then NonFinite
    else Finite(Contact(true, m.(normal := Div(Neg(normal), len), penetration := Radius(m.b) + len)))
  }

  /** Outside: apart when the squared distance exceeds r^2, otherwise in
      contact along the vector to the centre with penetration r minus the
      distance. */
  function ResolveFromOutside(m: Manifold, p: Probe, sqrt: real -> real): Computed
    requires IsSqrt(sqrt)
    requires IsCircle(m.b)
  {
    var rad := Radius(m.b);
    var normal := Sub(p.n, p.closest);
    if Dot(normal, normal) > Sq(rad) then Finite(Contact(false, m))
    else
      var len := Magnitude(normal, sqrt);
      if len == 0.0 then NonFinite
      else Finite(Contact(true, m.(normal := Div(normal, len), penetration := rad - len)))
  }

  /** `collision_box_circle` as written: the probe, then its resolution.
      It divides by zero exactly when the point it measures from is the
      circle centre itself, which happens only for a centre inside the box
      (AsWrittenOnFace: one lying on the face it is pushed to). */
  function BoxCircleAsWritten(m: Manifold, sqrt: real -> real): (r: Computed)
    requires IsSqrt(sqrt)
    requires IsBox(m.a) && IsCircle(m.b)
    ensures r.NonFinite? <==> ProbeBoxCircle(m).closest == Delta(m)
    ensures r.NonFinite? ==> ProbeBoxCircle(m).inside
  {
    ResolveProbe(m, ProbeBoxCircle(m), sqrt)
  }

  /** For a probe inside the box whose point lies at distance `t` along the
      pushed axis, the source's normal is the face normal and its
      penetration r + t, unless `t` is zero, where it divides by zero. */
  lemma ResolveInside(m: Manifold, p: Probe, t: real, sqrt: real -> real)
    requires IsSqrt(sqrt) && IsCircle(m.b)
    requires p.inside && 0.0 <= t && Sub(p.closest, p.n) == AlongEdge(p.n, t)
    ensures ResolveFromInside(m, p, sqrt) ==
      if t == 0.0 then NonFinite
      else Finite(Contact(true, m.(normal := EdgeNormal(p.n), penetration := Radius(m.b) + t)))
  {
    OnAxis(p, t);
    AxisLength(Sub(p.n, p.closest), t, sqrt);
    if t != 0.0 {
      AlongEdgeUnit(p.n, t);
    }
  }

  /** For a probe point apart from the centre, the source's outside
      resolution is finite: apart beyond r, otherwise in contact along the
      normalised vector from the point to the centre, with penetration r
      minus their distance. */
  lemma ResolveOutside(m: Manifold, p: Probe, sqrt: real -> real)
    requires IsSqrt(sqrt) && IsCircle(m.b)
    requires p.closest != p.n
    ensures ResolveFromOutside(m, p, sqrt) ==
      Finite(
        if DistSq(p.n, p.closest) <= Sq(Radius(m.b)) then
          Contact(true, m.(normal := Normalize(Sub(p.n, p.closest), sqrt),
                           penetration := Radius(m.b) - Magnitude(Sub(p.n, p.closest), sqrt)))
        else Contact(false, m))
  {
    assert Sub(p.n, p.closest) != Zero;
  }

  /** The vector from an inside probe's point back to the centre lies on
      one axis, with length `t`. */
  lemma OnAxis(p: Probe, t: real)
    requires 0.0 <= t && Sub(p.closest, p.n) == AlongEdge(p.n, t)
    ensures Neg(Sub(p.n, p.closest)) == AlongEdge(p.n, t)
    ensures (Sub(p.n, p.closest).y == 0.0 && Abs(Sub(p.n, p.closest).x) == t)
      || (Sub(p.n, p.closest).x == 0.0 && Abs(Sub(p.n, p.closest).y) == t)
  {
  }

  /** A vector along one axis has its non-zero component's square as its
      squared length. */
  lemma AxisDot(a: Vec2, t: real)
    requires (a.y == 0.0 && Abs(a.x) == t) || (a.x == 0.0 && Abs(a.y) == t)
    ensures Dot(a, a) == Sq(t)
  {
    SqNegate(t);
    if a.y == 0.0 {
      assert Dot(a, a) == Sq(a.x);
    } else {
      assert Dot(a, a) == Sq(a.y);
    }
  }

  /** Two non-negative numbers with the same square are equal. */
  lemma SameRoot(s: real, t: real, d: real)
    requires 0.0 <= s && 0.0 <= t && Sq(s) == d && Sq(t) == d
    ensures s == t
  {
    SqMonotone(s, t);
  }

  /** A vector along one axis has the length of its non-zero component. */
  lemma AxisLength(a: Vec2, t: real, sqrt: real -> real)
    requires IsSqrt(sqrt) && 0.0 <= t
    requires (a.y == 0.0 && Abs(a.x) == t) || (a.x == 0.0 && Abs(a.y) == t)
    ensures Magnitude(a, sqrt) == t
  {
    MagnitudeSquared(a, sqrt);
    AxisDot(a, t);
    SameRoot(Magnitude(a, sqrt), t, Dot(a, a));
  }

  /** Dividing the edge vector of length `t` by `t` gives the face normal. */
  lemma AlongEdgeUnit(n: Vec2, t: real)
    requires t != 0.0
    ensures Div(AlongEdge(n, t), t) == EdgeNormal(n)
  {
    assert t / t == 1.0;
    assert -t / t == -1.0;
    assert 0.0 / t == 0.0;
  }

  /** `collision_box_circle` with the zero-distance case completed: when the
      circle centre lies exactly on the face it is pushed to, the contact
      takes that face's normal and penetration r. Everywhere else it is the
      source's result (BoxCircleAgrees). The test writes only the normal and
      the penetration. */
  function BoxCircle(m: Manifold, sqrt: real -> real): (r: Contact)
    requires IsSqrt(sqrt)
    requires IsBox(m.a) && IsCircle(m.b)
    ensures r.m == m.(normal := r.m.normal, penetration := r.m.penetration)
  {
    match BoxCircleAsWritten(m, sqrt)
    case Finite(c) => c
    case NonFinite =>
      Contact(true, m.(normal := EdgeNormal(Delta(m)), penetration := Radius(m.b)))
  }

  /** The source's arithmetic breaks down only inside the box. */
  lemma AsWrittenFailsInside(m: Manifold, sqrt: real -> real)
    requires IsSqrt(sqrt)
    requires IsBox(m.a) && IsCircle(m.b)
    requires !ProbeBoxCircle(m).inside
    ensures BoxCircleAsWritten(m, sqrt).Finite?
  {
    ResolveOutside(m, ProbeBoxCircle(m), sqrt);
  }

  /** Inside a well-formed box, the source divides by zero exactly when the
      circle centre lies on the face it is pushed to. */
  lemma AsWrittenOnFace(m: Manifold, sqrt: real -> real)
    requires IsSqrt(sqrt)
    requires IsBox(m.a) && IsCircle(m.b) && WellFormed(m.a)
    requires ProbeBoxCircle(m).inside
    ensures BoxCircleAsWritten(m, sqrt).NonFinite? <==> EdgeDistance(Delta(m), Extents(m.a)) == 0.0
  {
    ResolveInside(m, ProbeBoxCircle(m), EdgeDistance(Delta(m), Extents(m.a)), sqrt);
  }

  /** Inside a well-formed box the test always reports contact, along the
      normal of the face the centre was pushed to, with penetration r plus
      the centre's depth below that face. */
  lemma BoxCircleInside(m: Manifold, sqrt: real -> real)
    requires IsSqrt(sqrt)
    requires IsBox(m.a) && IsCircle(m.b) && WellFormed(m.a)
    requires ProbeBoxCircle(m).inside
    ensures BoxCircle(m, sqrt) == Contact(true, m.(normal := EdgeNormal(Delta(m)),
      penetration := Radius(m.b) + EdgeDistance(Delta(m), Extents(m.a))))
  {
    ResolveInside(m, ProbeBoxCircle(m), EdgeDistance(Delta(m), Extents(m.a)), sqrt);
  }

  /** Outside the box the test reports contact exactly when the nearest
      point of the box is within r (touching included), along the unit
      vector from that point to the circle centre (NormalizeUnit), with
      penetration r minus their distance. */
  lemma BoxCircleOutside(m: Manifold, sqrt: real -> real)
    requires IsSqrt(sqrt)
    requires IsBox(m.a) && IsCircle(m.b)
    requires !ProbeBoxCircle(m).inside
    ensures BoxCircle(m, sqrt) ==
      var nv := Sub(Delta(m), ProbeBoxCircle(m).closest);
      if DistSq(Delta(m), ProbeBoxCircle(m).closest) <= Sq(Radius(m.b)) then
        Contact(true, m.(normal := Normalize(nv, sqrt), penetration := Radius(m.b) - Magnitude(nv, sqrt)))
      else Contact(false, m)
  {
    ResolveOutside(m, ProbeBoxCircle(m), sqrt);
  }

  /** The corrected test changes nothing where the source's result is
      finite. */
  lemma BoxCircleAgrees(m: Manifold, sqrt: real -> real)
    requires IsSqrt(sqrt)
    requires IsBox(m.a) && IsCircle(m.b)
    requires BoxCircleAsWritten(m, sqrt).Finite?
    ensures BoxCircle(m, sqrt) == BoxCircleAsWritten(m, sqrt).contact
  {
  }

  /** The test is exact for a well-formed box: contact is reported exactly
      when the closed disc of radius r meets the box. */
  lemma BoxCircleExact(m: Manifold, sqrt: real -> real)
    requires IsSqrt(sqrt)
    requires IsBox(m.a) && IsCircle(m.b) && WellFormed(m.a)
    ensures BoxCircle(m, sqrt).hit <==>
      exists q :: InBox(q, Extents(m.a)) && DistSq(Delta(m), q) <= Sq(Radius(m.b))
  {
    var p := ProbeBoxCircle(m);
    var e := Extents(m.a);
    var rad := Radius(m.b);
    if p.inside {
      BoxCircleInside(m, sqrt);
      assert Sub(p.n, p.n) == Zero;
      SqNonNegative(rad);
      assert InBox(p.n, e) && DistSq(Delta(m), p.n) <= Sq(rad);
    } else {
      BoxCircleOutside(m, sqrt);
      if BoxCircle(m, sqrt).hit {
        assert InBox(p.closest, e) && DistSq(Delta(m), p.closest) <= Sq(rad);
      } else {
        forall q | InBox(q, e)
          ensures Sq(rad) < DistSq(Delta(m), q)
        {
          ProbeNearest(m, q);
        }
      }
    }
  }

  /** Every manifold whose probe puts the circle centre at (1, 0), on the
      x face of the box, makes the source divide by zero. OnFaceProbe shows
      that a 2x2 box at the origin and a circle centred at (1, 0) is such a
      manifold. */
  lemma OnFaceAsWritten(m: Manifold, sqrt: real -> real)
    requires IsSqrt(sqrt)
    requires IsBox(m.a) && IsCircle(m.b)
    requires ProbeBoxCircle(m) == Probe(Vec2(1.0, 0.0), Vec2(1.0, 0.0), true)
    ensures BoxCircleAsWritten(m, sqrt) == NonFinite
  {
    OnFaceResolves(m, sqrt);
  }

  /** On such a manifold the completed test reports contact along +x with
      penetration r. */
  lemma BoxCircleOnFace(m: Manifold, sqrt: real -> real)
    requires IsSqrt(sqrt)
    requires IsBox(m.a) && IsCircle(m.b)
    requires ProbeBoxCircle(m) == Probe(Vec2(1.0, 0.0), Vec2(1.0, 0.0), true)
    ensures BoxCircle(m, sqrt) == Contact(true, m.(normal := Vec2(1.0, 0.0), penetration := Radius(m.b)))
  {
    OnFaceAsWritten(m, sqrt);
    FaceNormalX();
    FallbackAlong(m, sqrt, ProbeBoxCircle(m).n);
  }

  /** The x face's outward normal is +x. */
  lemma FaceNormalX()
    ensures EdgeNormal(Vec2(1.0, 0.0)) == Vec2(1.0, 0.0)
  {
  }

  /** BoxCircleFallback with the circle centre named `n`, so that callers
      need not unfold the probe. */
  lemma FallbackAlong(m: Manifold, sqrt: real -> real, n: Vec2)
    requires IsSqrt(sqrt)
    requires IsBox(m.a) && IsCircle(m.b)
    requires BoxCircleAsWritten(m, sqrt) == NonFinite && Delta(m) == n
    ensures BoxCircle(m, sqrt) == Contact(true, m.(normal := EdgeNormal(n), penetration := Radius(m.b)))
  {
    BoxCircleFallback(m, sqrt);
  }

  /** A probe whose point is the circle centre (1, 0), inside the box,
      leaves a zero distance to divide by. */
  lemma OnFaceResolves(m: Manifold, sqrt: real -> real)
    requires IsSqrt(sqrt) && IsCircle(m.b)
    ensures ResolveProbe(m, Probe(Vec2(1.0, 0.0), Vec2(1.0, 0.0), true), sqrt) == NonFinite
  {
    var p := Probe(Vec2(1.0, 0.0), Vec2(1.0, 0.0), true);
    assert AlongEdge(p.n, 0.0) == Zero;
    ResolveInside(m, p, 0.0, sqrt);
  }

  /** Where the source's arithmetic breaks down, the completed test takes
      the face normal and penetration r. */
  lemma BoxCircleFallback(m: Manifold, sqrt: real -> real)
    requires IsSqrt(sqrt)
    requires IsBox(m.a) && IsCircle(m.b)
    requires BoxCircleAsWritten(m, sqrt) == NonFinite
    ensures BoxCircle(m, sqrt) == Contact(true, m.(normal := EdgeNormal(Delta(m)), penetration := Radius(m.b)))
  {
  }

  /** The probe for that configuration: the centre (1, 0) is inside, and
      pushing it to the x face leaves it where it is. */
  lemma OnFaceProbe(box: Body, circle: Body)
    requires box.shape.geom == BoundingBox(Vec2(-1.0, -1.0), Vec2(1.0, 1.0)) && box.pos == Zero
    requires circle.shape.geom == BoundingCircle(0.5) && circle.pos == Vec2(1.0, 0.0)
    ensures ProbeBoxCircle(NewManifold(box, circle)) == Probe(Vec2(1.0, 0.0), Vec2(1.0, 0.0), true)
  {
    var m := NewManifold(box, circle);
    var n := Vec2(1.0, 0.0);
    assert Extents(m.a) == Vec2(1.0, 1.0);
    assert Delta(m) == n;
    assert WellFormed(m.a) && InBox(n, Extents(m.a));
    assert EdgeDistance(n, Extents(m.a)) == 0.0;
    assert AlongEdge(n, 0.0) == Zero;
  }

  /** `collision_circle_box`: swaps the manifold's bodies, then runs the
      box-circle test, so the caller gets the box as `a` and the normal
      pointing from the box to the circle. */
  function CircleBox(m: Manifold, sqrt: real -> real): (r: Contact)
    requires IsSqrt(sqrt)
    requires IsCircle(m.a) && IsBox(m.b)
    ensures r.m == m.(a := m.b, b := m.a, normal := r.m.normal, penetration := r.m.penetration)
  {
    BoxCircle(m.(a := m.b, b := m.a), sqrt)
  }

  /** Running the circle-box test on a pair given circle first returns
      exactly what the box-circle test returns on the pair given box first:
      the same bodies in the same order, the same normal and the same
      penetration. */
  lemma CircleBoxMirrors(m: Manifold, sqrt: real -> real)
    requires IsSqrt(sqrt)
    requires IsBox(m.a) && IsCircle(m.b)
    ensures CircleBox(m.(a := m.b, b := m.a), sqrt) == BoxCircle(m, sqrt)
  {
    assert m.(a := m.b, b := m.a).(a := m.a, b := m.b) == m;
  }

  // --------------------------------------------------------------- dispatch

  /** The four entries of the collision table. */
  datatype Test = BoxBoxTest | BoxCircleTest | CircleBoxTest | CircleCircleTest

  /** `collision_callback`, indexed by the two shapes' kind tags. */
  const CollisionCallback: seq<seq<Test>> :=
    [[BoxBoxTest, BoxCircleTest], [CircleBoxTest, CircleCircleTest]]

  /** The shape kinds a test casts its first and second body to. */
  function FirstKind(t: Test): ShapeType {
    match t
    case BoxBoxTest => BOX
    case BoxCircleTest => BOX
    case CircleBoxTest => CIRCLE
    case CircleCircleTest => CIRCLE
  }

  function SecondKind(t: Test): ShapeType {
    match t
    case BoxBoxTest => BOX
    case BoxCircleTest => CIRCLE
    case CircleBoxTest => BOX
    case CircleCircleTest => CIRCLE
  }

  /** The table entry for two kinds is the test that casts to exactly those
      kinds, so its downcasts are always valid. */
  function Callback(ta: ShapeType, tb: ShapeType): (t: Test)
    ensures FirstKind(t) == ta && SecondKind(t) == tb
  {
    CollisionCallback[Tag(ta)][Tag(tb)]
  }

  /** The table swaps the pair exactly for a circle followed by a box. */
  predicate Swaps(a: Body, b: Body) {
    IsCircle(a) && IsBox(b)
  }

  /** Runs the test the table selects for the pair. The result holds the
      same two bodies, swapped exactly when the first is a circle and the
      second a box; only the normal and the penetration are filled in. */
  function Collide(m: Manifold, sqrt: real -> real): (r: Contact)
    requires IsSqrt(sqrt)
    ensures Swaps(m.a, m.b) ==> r.m == m.(a := m.b, b := m.a, normal := r.m.normal, penetration := r.m.penetration)
    ensures !Swaps(m.a, m.b) ==> r.m == m.(normal := r.m.normal, penetration := r.m.penetration)
  {
    match Callback(Type(m.a.shape), Type(m.b.shape))
    case BoxBoxTest => BoxBox(m)
    case BoxCircleTest => BoxCircle(m, sqrt)
    case CircleBoxTest => CircleBox(m, sqrt)
    case CircleCircleTest => CircleCircle(m, sqrt)
  }

  /** For a box followed by a circle, the dispatch runs the completed test:
      it returns the source's contact wherever the source's arithmetic stays
      finite, and the contact along the pushed face exactly where the
      source divides by zero. */
  lemma CollideBoxCircle(m: Manifold, sqrt: real -> real)
    requires IsSqrt(sqrt)
    requires IsBox(m.a) && IsCircle(m.b)
    ensures Collide(m, sqrt) == BoxCircle(m, sqrt)
    ensures BoxCircleAsWritten(m, sqrt).Finite? ==> Collide(m, sqrt) == BoxCircleAsWritten(m, sqrt).contact
    ensures BoxCircleAsWritten(m, sqrt).NonFinite? ==>
      Collide(m, sqrt) == Contact(true, m.(normal := EdgeNormal(Delta(m)), penetration := Radius(m.b)))
  {
    assert Callback(Type(m.a.shape), Type(m.b.shape)) == BoxCircleTest;
  }

  /** Where the circle centre lies on the face of a well-formed box that
      it is pushed to (OnFaceProbe: a 2x2 box at the origin and a circle
      centred at (1, 0)), the source divides by zero, while the dispatch
      reports contact along that face's normal with penetration r. */
  lemma CollideOnFace(m: Manifold, sqrt: real -> real)
    requires IsSqrt(sqrt)
    requires IsBox(m.a) && IsCircle(m.b) && WellFormed(m.a)
    requires ProbeBoxCircle(m).inside && EdgeDistance(Delta(m), Extents(m.a)) == 0.0
    ensures BoxCircleAsWritten(m, sqrt) == NonFinite
    ensures Collide(m, sqrt) == Contact(true, m.(normal := EdgeNormal(Delta(m)), penetration := Radius(m.b)))
  {
    AsWrittenOnFace(m, sqrt);
    CollideBoxCircle(m, sqrt);
  }

  /** For a circle followed by a box, the dispatch runs the completed test
      on the swapped pair: the source's contact wherever the source stays
      finite on that pair, and the contact along the pushed face exactly
      where it divides by zero. */
  lemma CollideCircleBox(m: Manifold, sqrt: real -> real)
    requires IsSqrt(sqrt)
    requires IsCircle(m.a) && IsBox(m.b)
    ensures Collide(m, sqrt) == BoxCircle(m.(a := m.b, b := m.a), sqrt)
    ensures BoxCircleAsWritten(m.(a := m.b, b := m.a), sqrt).Finite? ==>
      Collide(m, sqrt) == BoxCircleAsWritten(m.(a := m.b, b := m.a), sqrt).contact
    ensures BoxCircleAsWritten(m.(a := m.b, b := m.a), sqrt).NonFinite? ==>
      Collide(m, sqrt) == Contact(true, m.(a := m.b, b := m.a, normal := EdgeNormal(Delta(m.(a := m.b, b := m.a))), penetration := Radius(m.a)))
  {
    assert Callback(Type(m.a.shape), Type(m.b.shape)) == CircleBoxTest;
    var w := m.(a := m.b, b := m.a);
    assert w.(a := w.b, b := w.a) == m;
    CollideBoxCircle(w, sqrt);
  }
}
