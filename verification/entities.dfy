/** The physics data model: identifiers, shapes, bodies and manifolds. A body
    holds its shape inline, so the body/shape back-pointers of the source
    become plain field access and the unchecked downcasts become
    preconditions on the shape variant. */
module Entities {
  import opened Vector

  /** Identifiers are `unsigned long`, taken to be a 64-bit counter (as on
      LP64 platforms). */
  const ID_MODULUS: nat := 0x1_0000_0000_0000_0000

  type Id = i: nat | i < ID_MODULUS

  /** The process-wide identifier counter, made an explicit value. */
  datatype IdGen = IdGen(next: Id)

  /** `get_ID`: hands out the counter and post-increments it, wrapping as
      an unsigned 64-bit integer does. */
  function GetId(g: IdGen): (r: (Id, IdGen))
    ensures r.0 == g.next
    ensures r.1.next == if g.next == ID_MODULUS - 1 then 0 else g.next + 1
  {
    (g.next, IdGen((g.next + 1) % ID_MODULUS))
  }

  /** The identifiers handed out by `n` successive calls, and the generator
      afterwards. */
  function Issue(g: IdGen, n: nat): (r: (seq<Id>, IdGen))
    ensures |r.0| == n
    decreases n
  {
    if n == 0 then ([], g)
    else
      var (id, g1) := GetId(g);
      var (rest, g2) := Issue(g1, n - 1);
      ([id] + rest, g2)
  }

  /** Until the counter wraps, successive identifiers are consecutive, so
      they strictly increase, no two are equal, and every later call returns
      a value above all of them. */
  lemma {:induction false} IssueIncreasing(g: IdGen, n: nat)
    requires g.next + n < ID_MODULUS
    ensures forall k :: 0 <= k < n ==> Issue(g, n).0[k] == g.next + k
    ensures Issue(g, n).1.next == g.next + n
    ensures forall i, j :: 0 <= i < j < n ==> Issue(g, n).0[i] < Issue(g, n).0[j]
    decreases n
  {
    if n > 0 {
      var (id, g1) := GetId(g);
      IssueIncreasing(g1, n - 1);
    }
  }

  /** The counter does wrap: after 2^64 - 1 the next identifier is 0 again. */
  lemma IdWrapsAround()
    ensures GetId(IdGen(ID_MODULUS - 1)).1.next == 0
  {
  }

  /** Shape kind tags; their integer values index the dispatch table. */
  datatype ShapeType = BOX | CIRCLE

  /** Number of shape kinds: the dimension of the dispatch table. */
  const SIZE: nat := 2

  function Tag(t: ShapeType): (i: nat)
    ensures i < SIZE
    ensures i == 0 <==> t == BOX
  {
    match t
    case BOX => 0
    case CIRCLE => 1
  }

  /** The variant part of a shape. A circle's centre is its body's
      position, so it carries only the radius. */
  datatype Geometry =
    | BoundingBox(min: Vec2, max: Vec2)
    | BoundingCircle(rad: real)

  /** A shape: its collision layer mask (`unsigned`, 32 bits) and its
      geometry. */
  datatype Shape = Shape(layer: bv32, geom: Geometry)

  function Type(s: Shape): ShapeType {
    if s.geom.BoundingBox? then BOX else CIRCLE
  }

  /** The layer test that gates a pair: the masks share a bit. */
  predicate LayersMeet(s: Shape, t: Shape) {
    s.layer & t.layer != 0
  }

  /** `Bounding_Circle()`: radius 0, default layer. */
  function DefaultCircle(): Shape {
    Shape(1, BoundingCircle(0.0))
  }

  /** `Bounding_Circle(radius)`. */
  function NewCircle(radius: real): Shape {
    Shape(1, BoundingCircle(radius))
  }

  /** `Bounding_Box()`: both corners are default (zero) vectors. */
  function DefaultBox(): Shape {
    Shape(1, BoundingBox(Zero, Zero))
  }

  /** `Bounding_Box(top_left, bottom_right)`. */
  function NewBox(topLeft: Vec2, bottomRight: Vec2): Shape {
    Shape(1, BoundingBox(topLeft, bottomRight))
  }

  /** Every constructor starts on layer 1 with the kind it names, so any two
      freshly constructed shapes pass the layer test. */
  lemma FreshShapesMeet(radius: real, topLeft: Vec2, bottomRight: Vec2, s: Shape, t: Shape)
    requires s in {DefaultCircle(), NewCircle(radius), DefaultBox(), NewBox(topLeft, bottomRight)}
    requires t in {DefaultCircle(), NewCircle(radius), DefaultBox(), NewBox(topLeft, bottomRight)}
    ensures LayersMeet(s, t)
    ensures Type(NewCircle(radius)) == CIRCLE && Type(DefaultCircle()) == CIRCLE
    ensures Type(NewBox(topLeft, bottomRight)) == BOX && Type(DefaultBox()) == BOX
  {
  }

  /** Half of the box's width and height, as the source derives them from
      the corners. */
  function HalfExtents(g: Geometry): Vec2
    requires g.BoundingBox?
  {
    Vec2((g.max.x - g.min.x) / 2.0, (g.max.y - g.min.y) / 2.0)
  }

  /** The midpoint of the box's corners. */
  function Centre(g: Geometry): Vec2
    requires g.BoundingBox?
  {
    Vec2((g.min.x + g.max.x) / 2.0, (g.min.y + g.max.y) / 2.0)
  }

  /** `move()`: a box is re-centred on the body's position keeping its
      extents; a circle has nothing to update. */
  function Move(s: Shape, pos: Vec2): (r: Shape)
    ensures r.layer == s.layer && Type(r) == Type(s)
    ensures s.geom.BoundingCircle? ==> r == s
    ensures s.geom.BoundingBox? ==>
      Sub(r.geom.max, r.geom.min) == Sub(s.geom.max, s.geom.min) && Centre(r.geom) == pos
  {
    match s.geom
    case BoundingCircle(_) => s
    case BoundingBox(min, max) =>
      var ex := (max.x - min.x) / 2.0;
      var ey := (max.y - min.y) / 2.0;
      s.(geom := BoundingBox(Vec2(pos.x - ex, pos.y - ey), Vec2(pos.x + ex, pos.y + ey)))
  }

  /** Moving twice to the same position is the same as moving once. */
  lemma MoveIdempotent(s: Shape, pos: Vec2)
    ensures Move(Move(s, pos), pos) == Move(s, pos)
  {
  }

  /** A simulated body. `invMass == 0` encodes an immovable body. */
  datatype Body = Body(
    id: Id,
    shape: Shape,
    invMass: real,
    restitution: real,
    staticFriction: real,
    dynamicFriction: real,
    pos: Vec2,
    velocity: Vec2,
    force: Vec2,
    gravityScale: real)

  /** The body constructor takes the next identifier; every other field is
      filled in by the composing code, here taken from `init`. */
  function NewBody(g: IdGen, init: Body): (r: (Body, IdGen))
    ensures r.0 == init.(id := g.next)
    ensures r.1 == GetId(g).1
  {
    var (id, g') := GetId(g);
    (init.(id := id), g')
  }

  /** Two bodies built one after the other get increasing identifiers. */
  lemma SuccessiveBodies(g: IdGen, first: Body, second: Body)
    requires g.next + 2 < ID_MODULUS
    ensures NewBody(g, first).0.id < NewBody(NewBody(g, first).1, second).0.id
  {
  }

  /** The per-pair contact record. */
  datatype Manifold = Manifold(a: Body, b: Body, penetration: real, normal: Vec2)

  /** `Manifold(body1, body2)`: no penetration and a zero normal yet. */
  function NewManifold(a: Body, b: Body): (m: Manifold)
    ensures m.a == a && m.b == b
    ensures m.penetration == 0.0 && m.normal == Zero
  {
    Manifold(a, b, 0.0, Zero)
  }

  /** The vector from the first body's centre to the second's. */
  function Delta(m: Manifold): Vec2 {
    Sub(m.b.pos, m.a.pos)
  }
}
