/** The integer midpoint-circle rasteriser that fills a circle texture's
    outline: one octant is walked from (radius, 0) towards the diagonal and
    every offset is mirrored eight ways around the centre. */
module Raster {
  import opened Vector

  /** A rasterised outline: the points produced by the last CalculatePoints. */
  datatype Circle = Circle(points: seq<Point>)

  /** Largest value of a 32-bit signed `int`; the unsigned radius is narrowed
      to it when the walk starts. */
  const INT_MAX: int := 0x7FFF_FFFF

  /** `size()`: how many points are stored, narrowed to the 32-bit
      `unsigned` it is returned as. */
  function Size(c: Circle): (n: nat)
    ensures n < 0x1_0000_0000
    ensures |c.points| < 0x1_0000_0000 ==> n == |c.points|
  {
    |c.points| % 0x1_0000_0000
  }

  /** The first-octant offsets the loop visits from offset (x, y) with
      decision value `err`, in visiting order. */
  function Octant(x: int, y: int, err: int): seq<(int, int)>
    decreases x - y
  {
    if x < y then []
    else if err < 0 then [(x, y)] + Octant(x, y + 1, err + (y + 1) * 2 + 1)
    else [(x, y)] + Octant(x - 1, y + 1, err + ((y + 1) - (x - 1) + 1) * 2)
  }

  /** The eight points one loop iteration appends for offset `o`, in the
      order the source pushes them. */
  function Eight(c: Point, o: (int, int)): seq<Point> {
    [ Point(o.0 + c.x, o.1 + c.y), Point(o.1 + c.x, o.0 + c.y),
      Point(-o.0 + c.x, o.1 + c.y), Point(-o.1 + c.x, o.0 + c.y),
      Point(-o.0 + c.x, -o.1 + c.y), Point(-o.1 + c.x, -o.0 + c.y),
      Point(o.0 + c.x, -o.1 + c.y), Point(o.1 + c.x, -o.0 + c.y) ]
  }

  /** All points appended for the offsets `offs`, eight per offset. */
  function Ring(c: Point, offs: seq<(int, int)>): (r: seq<Point>)
    ensures |r| == 8 * |offs|
    decreases |offs|
  {
    if offs == [] then [] else Eight(c, offs[0]) + Ring(c, offs[1..])
  }

  lemma RingCons(c: Point, o: (int, int), rest: seq<(int, int)>)
    ensures Ring(c, [o] + rest) == Eight(c, o) + Ring(c, rest)
  {
    assert ([o] + rest)[1..] == rest;
  }

  /** One iteration's eight points are closed under the reflections. */
  lemma EightSymmetric(c: Point, o: (int, int))
    ensures Symmetric(c, Eight(c, o))
  {
    var e := Eight(c, o);
    forall j | 0 <= j < 8
      ensures MirrorX(c, e[j]) in e && MirrorY(c, e[j]) in e && Transpose(c, e[j]) in e
    {
      if j == 0 {
        assert MirrorX(c, e[j]) == e[6] && MirrorY(c, e[j]) == e[2] && Transpose(c, e[j]) == e[1];
      } else if j == 1 {
        assert MirrorX(c, e[j]) == e[7] && MirrorY(c, e[j]) == e[3] && Transpose(c, e[j]) == e[0];
      } else if j == 2 {
        assert MirrorX(c, e[j]) == e[4] && MirrorY(c, e[j]) == e[0] && Transpose(c, e[j]) == e[7];
      } else if j == 3 {
        assert MirrorX(c, e[j]) == e[5] && MirrorY(c, e[j]) == e[1] && Transpose(c, e[j]) == e[6];
      } else if j == 4 {
        assert MirrorX(c, e[j]) == e[2] && MirrorY(c, e[j]) == e[6] && Transpose(c, e[j]) == e[5];
      } else if j == 5 {
        assert MirrorX(c, e[j]) == e[3] && MirrorY(c, e[j]) == e[7] && Transpose(c, e[j]) == e[4];
      } else if j == 6 {
        assert MirrorX(c, e[j]) == e[0] && MirrorY(c, e[j]) == e[4] && Transpose(c, e[j]) == e[3];
      } else {
        assert MirrorX(c, e[j]) == e[1] && MirrorY(c, e[j]) == e[5] && Transpose(c, e[j]) == e[2];
      }
    }
  }

  /** Reflection across the horizontal line through the centre. */
  function MirrorX(c: Point, p: Point): Point {
    Point(p.x, 2 * c.y - p.y)
  }

  /** Reflection across the vertical line through the centre. */
  function MirrorY(c: Point, p: Point): Point {
    Point(2 * c.x - p.x, p.y)
  }

  /** Reflection across the diagonal through the centre. */
  function Transpose(c: Point, p: Point): Point {
    Point(c.x + (p.y - c.y), c.y + (p.x - c.x))
  }

  /** The point set is closed under the three reflections about `c`, hence
      under the whole eight-element symmetry group of the square. */
  ghost predicate Symmetric(c: Point, pts: seq<Point>) {
    forall p :: p in pts ==> MirrorX(c, p) in pts && MirrorY(c, p) in pts && Transpose(c, p) in pts
  }

  /** The point lies in the square of half-side `r` around `c`. */
  predicate InSquare(c: Point, r: int, p: Point) {
    c.x - r <= p.x <= c.x + r && c.y - r <= p.y <= c.y + r
  }

  /** One step of the walk: the current offset, then the rest of the walk
      from the updated state. */
  lemma OctantStep(x: int, y: int, err: int)
    requires x >= y
    ensures Octant(x, y, err) == [(x, y)] +
      (if err < 0 then Octant(x, y + 1, err + (y + 1) * 2 + 1)
       else Octant(x - 1, y + 1, err + ((y + 1) - (x - 1) + 1) * 2))
  {
  }

  /** The k-th offset of the walk has y raised by k. */
  lemma {:induction false} OctantRows(x: int, y: int, err: int)
    ensures forall k :: 0 <= k < |Octant(x, y, err)| ==> Octant(x, y, err)[k].1 == y + k
    decreases x - y
  {
    if x >= y {
      if err < 0 {
        OctantRows(x, y + 1, err + (y + 1) * 2 + 1);
      } else {
        OctantRows(x - 1, y + 1, err + ((y + 1) - (x - 1) + 1) * 2);
      }
    }
  }

  /** The x offset never rises and drops by at most one per step. */
  lemma {:induction false} OctantSteps(x: int, y: int, err: int)
    ensures forall k :: 0 < k < |Octant(x, y, err)| ==>
      Octant(x, y, err)[k - 1].0 - 1 <= Octant(x, y, err)[k].0 <= Octant(x, y, err)[k - 1].0
    decreases x - y
  {
    if x >= y {
      var nx, ny, nerr := if err < 0 then x else x - 1, y + 1,
        if err < 0 then err + (y + 1) * 2 + 1 else err + ((y + 1) - (x - 1) + 1) * 2;
      var rest := Octant(nx, ny, nerr);
      OctantStep(x, y, err);
      assert Octant(x, y, err) == [(x, y)] + rest;
      OctantSteps(nx, ny, nerr);
      forall k | 0 < k < |Octant(x, y, err)|
        ensures Octant(x, y, err)[k - 1].0 - 1 <= Octant(x, y, err)[k].0 <= Octant(x, y, err)[k - 1].0
      {
        if k == 1 {
          OctantStep(nx, ny, nerr);
          assert Octant(x, y, err)[1] == (nx, ny);
        } else {
          assert Octant(x, y, err)[k] == rest[k - 1] && Octant(x, y, err)[k - 1] == rest[k - 2];
        }
      }
    }
  }

  /** Every offset lies in the first octant, below the starting x bound. */
  lemma {:induction false} OctantBounds(x: int, y: int, err: int, bound: int)
    requires 0 <= y && x <= bound
    ensures forall o :: o in Octant(x, y, err) ==> 0 <= o.1 <= o.0 <= bound
    decreases x - y
  {
    if x >= y {
      if err < 0 {
        OctantBounds(x, y + 1, err + (y + 1) * 2 + 1, bound);
      } else {
        OctantBounds(x - 1, y + 1, err + ((y + 1) - (x - 1) + 1) * 2, bound);
      }
    }
  }

  /** Each group of eight is closed under the reflections, so the ring is. */
  lemma {:induction false} RingSymmetric(c: Point, offs: seq<(int, int)>)
    ensures Symmetric(c, Ring(c, offs))
    decreases |offs|
  {
    if offs != [] {
      var e := Eight(c, offs[0]);
      var rest := Ring(c, offs[1..]);
      RingSymmetric(c, offs[1..]);
      EightSymmetric(c, offs[0]);
      assert Ring(c, offs) == e + rest;
      forall p | p in e + rest
        ensures MirrorX(c, p) in e + rest && MirrorY(c, p) in e + rest && Transpose(c, p) in e + rest
      {
        if p in e {
          assert MirrorX(c, p) in e && MirrorY(c, p) in e && Transpose(c, p) in e;
        } else {
          assert p in rest;
          assert MirrorX(c, p) in rest && MirrorY(c, p) in rest && Transpose(c, p) in rest;
        }
      }
    }
  }

  /** Offsets in the first octant below `r` put every point in the square. */
  lemma {:induction false} RingInSquare(c: Point, r: int, offs: seq<(int, int)>)
    requires forall o :: o in offs ==> 0 <= o.1 <= o.0 <= r
    ensures forall p :: p in Ring(c, offs) ==> InSquare(c, r, p)
    decreases |offs|
  {
    if offs != [] {
      RingInSquare(c, r, offs[1..]);
      assert Ring(c, offs) == Eight(c, offs[0]) + Ring(c, offs[1..]);
      assert offs[0] in offs;
    }
  }

  /** The outline `calculate_points` produces for a radius: every offset of
      the octant walk started at (radius, 0), mirrored eight ways. */
  function Outline(centre: Point, radius: int): seq<Point> {
    Ring(centre, Octant(radius, 0, 1 - radius))
  }

  /** The outline starts at the rightmost point, holds eight points per
      step of the walk, lies in the square of half-side `radius`, and is
      symmetric about the centre. */
  lemma OutlineShape(centre: Point, radius: int)
    requires 0 <= radius
    ensures |Outline(centre, radius)| == 8 * |Octant(radius, 0, 1 - radius)| >= 8
    ensures Outline(centre, radius)[0] == Point(centre.x + radius, centre.y)
    ensures forall p :: p in Outline(centre, radius) ==> InSquare(centre, radius, p)
    ensures Symmetric(centre, Outline(centre, radius))
  {
    OctantBounds(radius, 0, 1 - radius, radius);
    RingSymmetric(centre, Octant(radius, 0, 1 - radius));
    RingInSquare(centre, radius, Octant(radius, 0, 1 - radius));
  }

  /** The walk from (radius, 0) takes at most radius + 1 steps, since y
      rises by one per step and never passes x. */
  lemma OctantLength(radius: int)
    requires 0 <= radius
    ensures |Octant(radius, 0, 1 - radius)| <= radius + 1
  {
    var o := Octant(radius, 0, 1 - radius);
    OctantRows(radius, 0, 1 - radius);
    OctantBounds(radius, 0, 1 - radius, radius);
    if |o| > 0 {
      assert o[|o| - 1] in o;
    }
  }

  /** For a radius below 2^28 the outline's size is not narrowed: it is
      exactly eight points per step of the walk. */
  lemma SizeOfOutline(centre: Point, radius: int)
    requires 0 <= radius < 0x1000_0000
    ensures Size(Circle(Outline(centre, radius))) == 8 * |Octant(radius, 0, 1 - radius)|
  {
    OctantLength(radius);
    OutlineShape(centre, radius);
  }

  /** A zero radius degenerates to the centre, eight times. */
  lemma OutlineOfZero(centre: Point)
    ensures Outline(centre, 0) == seq(8, _ => centre)
  {
    assert Octant(0, 0, 1) == [(0, 0)];
  }

  /** `calculate_points`: clears the stored points, then walks the octant
      appending eight mirrored points per step. */
  method CalculatePoints(circle: Circle, centre: Point, radius: int) returns (r: Circle)
    requires 0 <= radius <= INT_MAX
    ensures r.points == Outline(centre, radius)
    ensures Size(r) == 8 * |Octant(radius, 0, 1 - radius)| % 0x1_0000_0000
  {
    var px, py := radius, 0;
    var radiusError := 1 - px;
    var points: seq<Point> := [];
    while px >= py
      invariant 0 <= py && px <= radius
      invariant points + Ring(centre, Octant(px, py, radiusError)) == Outline(centre, radius)
      decreases px - py
    {
      ghost var visited := (px, py);
      ghost var before := Octant(px, py, radiusError);
      OctantStep(px, py, radiusError);
      ghost var done := points;
      points := points + Eight(centre, (px, py));
      py := py + 1;
      if radiusError < 0 {
        radiusError := radiusError + (py * 2) + 1;
      } else {
        px := px - 1;
        radiusError := radiusError + ((py - px + 1) * 2);
      }
      ghost var after := Octant(px, py, radiusError);
      assert before == [visited] + after;
      RingCons(centre, visited, after);
      assert points + Ring(centre, after) == done + Ring(centre, before);
    }
    r := Circle(points);
  }
}
