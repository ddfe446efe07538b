/** The scene: the bodies keyed by identifier, and the step that integrates
    every body and then tests and resolves each unordered pair once, in the
    order the map iterates its keys. */
module Scenes {
  import opened Vector
  import opened Entities
  import opened Integration
  import opened Narrowphase
  import opened Response

  /** `Scene`: the map from identifier to body. */
  datatype Scene = Scene(bodies: map<Id, Body>)

  /** Every body is stored under its own identifier. */
  predicate Keyed(bodies: map<Id, Body>) {
    forall k :: k in bodies ==> bodies[k].id == k
  }

  /** `add_body`: stores the body under its identifier, replacing any body
      already stored there. */
  function AddBody(s: Scene, b: Body): (r: Scene)
    ensures b.id in r.bodies && r.bodies[b.id] == b
    ensures r.bodies.Keys == s.bodies.Keys + {b.id}
    ensures forall k :: k in s.bodies && k != b.id ==> r.bodies[k] == s.bodies[k]
    ensures Keyed(s.bodies) ==> Keyed(r.bodies)
  {
    Scene(s.bodies[b.id := b])
  }

  /** `remove_body`: erases whatever is stored under the body's identifier;
      erasing a non-member does nothing. */
  function RemoveBody(s: Scene, b: Body): (r: Scene)
    ensures r.bodies.Keys == s.bodies.Keys - {b.id}
    ensures forall k :: k in r.bodies ==> r.bodies[k] == s.bodies[k]
    ensures b.id !in s.bodies ==> r == s
    ensures Keyed(s.bodies) ==> Keyed(r.bodies)
  {
    Scene(s.bodies - {b.id})
  }

  /** Removing a body just added to a scene without it restores the scene. */
  lemma AddThenRemove(s: Scene, b: Body)
    requires b.id !in s.bodies
    ensures RemoveBody(AddBody(s, b), b) == s
  {
    assert RemoveBody(AddBody(s, b), b).bodies == s.bodies;
  }

  /** Adding the same body twice is adding it once; removing twice is
      removing once. */
  lemma AddRemoveIdempotent(s: Scene, b: Body)
    ensures AddBody(AddBody(s, b), b) == AddBody(s, b)
    ensures RemoveBody(RemoveBody(s, b), b) == RemoveBody(s, b)
  {
    assert AddBody(AddBody(s, b), b).bodies == AddBody(s, b).bodies;
    assert RemoveBody(RemoveBody(s, b), b).bodies == RemoveBody(s, b).bodies;
  }

  // ------------------------------------------------------- iteration order

  /** Strictly ascending: the order in which the map visits its keys. */
  predicate Ascending(ids: seq<Id>) {
    forall i, j :: 0 <= i < j < |ids| ==> ids[i] < ids[j]
  }

  lemma {:induction false} LeastOf(ids: set<Id>) returns (k: Id)
    requires ids != {}
    ensures k in ids && forall x :: x in ids ==> k <= x
    decreases |ids|
  {
    var y :| y in ids;
    if ids == {y} {
      k := y;
    } else {
      var least := LeastOf(ids - {y});
      k := if y < least then y else least;
      assert forall x :: x in ids ==> x == y || x in ids - {y};
    }
  }

  lemma HasLeast(ids: set<Id>)
    requires ids != {}
    ensures exists k :: k in ids && forall x :: x in ids ==> k <= x
  {
    var k := LeastOf(ids);
  }

  /** The smallest identifier of a non-empty set. */
  function Least(ids: set<Id>): (k: Id)
    requires ids != {}
    ensures k in ids && forall x :: x in ids ==> k <= x
  {
    HasLeast(ids);
    var k :| k in ids && forall x :: x in ids ==> k <= x;
    k
  }

  /** The keys in the order the map iterates them. */
  function SortedIds(ids: set<Id>): (r: seq<Id>)
    ensures |r| == |ids|
    ensures forall k :: k in r <==> k in ids
    ensures Ascending(r)
    decreases |ids|
  {
    if ids == {} then []
    else
      var k := Least(ids);
      var rest := SortedIds(ids - {k});
      AscendingCons(k, rest);
      [k] + rest
  }

  lemma AscendingCons(k: Id, rest: seq<Id>)
    requires Ascending(rest) && forall x :: x in rest ==> k < x
    ensures Ascending([k] + rest)
  {
    forall i, j | 0 <= i < j < |[k] + rest|
      ensures ([k] + rest)[i] < ([k] + rest)[j]
    {
      assert ([k] + rest)[j] == rest[j - 1];
      if 0 < i {
        assert ([k] + rest)[i] == rest[i - 1];
      } else {
        assert rest[j - 1] in rest;
      }
    }
  }

  /** The inner loop for outer key `x`: `x` paired with every later key. */
  function Fan(x: Id, rest: seq<Id>): (r: seq<(Id, Id)>)
    ensures |r| == |rest|
    ensures forall k :: 0 <= k < |rest| ==> r[k] == (x, rest[k])
  {
    if rest == [] then [] else [(x, rest[0])] + Fan(x, rest[1..])
  }

  /** The pairs the nested loop of `step` visits, in visiting order: each
      key with every key after it. */
  function Pairs(ids: seq<Id>): seq<(Id, Id)>
    decreases |ids|
  {
    if ids == [] then [] else Fan(ids[0], ids[1..]) + Pairs(ids[1..])
  }

  /** Lexicographic order on pairs. */
  predicate Before(p: (Id, Id), q: (Id, Id)) {
    p.0 < q.0 || (p.0 == q.0 && p.1 < q.1)
  }

  /** Over ascending keys the loop visits exactly the pairs of distinct
      keys, each with the smaller key first. */
  lemma {:induction false} PairsAreDistinctKeys(ids: seq<Id>)
    requires Ascending(ids)
    ensures forall p :: p in Pairs(ids) <==> p.0 in ids && p.1 in ids && p.0 < p.1
    decreases |ids|
  {
    if ids != [] {
      var rest := ids[1..];
      PairsAreDistinctKeys(rest);
      forall p: (Id, Id) | p.0 in ids && p.1 in ids && p.0 < p.1
        ensures p in Pairs(ids)
      {
        if p.0 == ids[0] {
          var k :| 0 <= k < |ids| && ids[k] == p.1;
          assert Fan(ids[0], rest)[k - 1] == p;
        } else {
          assert p.0 in rest && p.1 in rest;
        }
      }
    }
  }

  /** The loop visits the pairs in strictly increasing lexicographic order,
      so it visits no pair twice. */
  lemma {:induction false} PairsAscending(ids: seq<Id>)
    requires Ascending(ids)
    ensures forall i, j :: 0 <= i < j < |Pairs(ids)| ==> Before(Pairs(ids)[i], Pairs(ids)[j])
    decreases |ids|
  {
    if ids != [] {
      var rest := ids[1..];
      var fan := Fan(ids[0], rest);
      PairsAscending(rest);
      PairsAreDistinctKeys(rest);
      var ps := Pairs(ids);
      assert ps == fan + Pairs(rest);
      forall i, j | 0 <= i < j < |ps|
        ensures Before(ps[i], ps[j])
      {
        if j < |fan| {
          assert ps[i] == (ids[0], ids[i + 1]) && ps[j] == (ids[0], ids[j + 1]);
        } else if i < |fan| {
          assert ps[i].0 == ids[0];
          assert ps[j] in Pairs(rest);
        } else {
          IndexAfter(fan, Pairs(rest), i);
          IndexAfter(fan, Pairs(rest), j);
        }
      }
    }
  }

  /** Indexing the second part of a concatenation. */
  lemma IndexAfter<T>(a: seq<T>, b: seq<T>, k: int)
    requires |a| <= k < |a| + |b|
    ensures (a + b)[k] == b[k - |a|]
  {
  }

  // ------------------------------------------------------------ the step

  /** What may happen to one body during collision handling: only its
      position and velocity change, and a body of infinite mass keeps both. */
  predicate Responds(before: Body, after: Body) {
    after == before.(pos := after.pos, velocity := after.velocity)
    && (before.invMass == 0.0 ==> after.pos == before.pos && after.velocity == before.velocity)
  }

  /** `Responds` for every body, over the same keys. */
  predicate Evolves(before: map<Id, Body>, after: map<Id, Body>) {
    after.Keys == before.Keys && forall k :: k in before ==> Responds(before[k], after[k])
  }

  lemma EvolvesTransitive(x: map<Id, Body>, y: map<Id, Body>, z: map<Id, Body>)
    requires Evolves(x, y) && Evolves(y, z)
    ensures Evolves(x, z)
  {
    forall k | k in x
      ensures Responds(x[k], z[k])
    {
      assert Responds(x[k], y[k]) && Responds(y[k], z[k]);
    }
  }

  /** Collision handling that evolves the bodies keeps them keyed. */
  lemma EvolvesKeyed(x: map<Id, Body>, y: map<Id, Body>)
    requires Evolves(x, y) && Keyed(x)
    ensures Keyed(y)
  {
    forall k | k in y
      ensures y[k].id == k
    {
      assert Responds(x[k], y[k]);
    }
  }

  /** The response to a contact: `resolve_collision`, then
      `positional_correction`. */
  function Respond(m: Manifold, num: Numerics): (r: Manifold)
    requires IsSqrt(num.sqrt) && InvMassSum(m) != 0.0
    ensures Responds(m.a, r.a) && Responds(m.b, r.b)
  {
    Corrected(m, ResolveCollision(m, num))
  }

  /** The correction applied to a resolved manifold `v` of `m`. */
  function Corrected(m: Manifold, v: Manifold): (r: Manifold)
    requires InvMassSum(m) != 0.0
    requires v == m.(a := m.a.(velocity := v.a.velocity), b := m.b.(velocity := v.b.velocity))
    requires m.a.invMass == 0.0 ==> v.a.velocity == m.a.velocity
    requires m.b.invMass == 0.0 ==> v.b.velocity == m.b.velocity
    ensures Responds(m.a, r.a) && Responds(m.b, r.b)
  {
    PositionalCorrection(v)
  }

  /** Stores the pair back under its keys: the manifold's first body is the
      one under `i` unless the table swapped the pair. */
  function WriteBack(bodies: map<Id, Body>, i: Id, j: Id, swapped: bool, r: Manifold): map<Id, Body> {
    if swapped then bodies[j := r.a][i := r.b] else bodies[i := r.a][j := r.b]
  }

  /** The manifold holds the bodies under `i` and `j`, in table order. */
  predicate Holds(bodies: map<Id, Body>, i: Id, j: Id, swapped: bool, m: Manifold)
    requires i in bodies && j in bodies
  {
    if swapped then m.a == bodies[j] && m.b == bodies[i] else m.a == bodies[i] && m.b == bodies[j]
  }

  /** Writing back a response to the bodies under `i` and `j` evolves the
      bodies and touches no other key. */
  lemma WriteBackEvolves(bodies: map<Id, Body>, i: Id, j: Id, swapped: bool, m: Manifold, r: Manifold)
    requires i in bodies && j in bodies && i != j
    requires Holds(bodies, i, j, swapped, m)
    requires Responds(m.a, r.a) && Responds(m.b, r.b)
    ensures Evolves(bodies, WriteBack(bodies, i, j, swapped, r))
    ensures forall k :: k in bodies && k != i && k != j ==> WriteBack(bodies, i, j, swapped, r)[k] == bodies[k]
  {
    var w := WriteBack(bodies, i, j, swapped, r);
    forall k | k in bodies
      ensures Responds(bodies[k], w[k])
    {
      if k != i && k != j {
        assert w[k] == bodies[k];
      }
    }
  }

  /** How one pair can end: the bodies after it, or the identifiers of a
      colliding pair whose inverse masses sum to zero, where the source
      divides by zero and the simulation no longer has finite values. */
  datatype Outcome = Stepped(bodies: map<Id, Body>) | Diverged(first: Id, second: Id)

  /** What follows the test for the pair under `i` and `j`, given the
      test's result `c`. */
  function Contacted(bodies: map<Id, Body>, i: Id, j: Id, swapped: bool, c: Contact, num: Numerics): (r: Outcome)
    requires IsSqrt(num.sqrt) && i in bodies && j in bodies && i != j
    requires Holds(bodies, i, j, swapped, c.m)
    ensures !c.hit ==> r == Stepped(bodies)
    ensures r.Diverged? ==> r == Diverged(i, j) && bodies[i].invMass + bodies[j].invMass == 0.0
    ensures r.Stepped? ==> Evolves(bodies, r.bodies)
    ensures r.Stepped? ==> forall k :: k in bodies && k != i && k != j ==> r.bodies[k] == bodies[k]
  {
    if !c.hit then Stepped(bodies)
    else if InvMassSum(c.m) == 0.0 then Diverged(i, j)
    else
      var r := Respond(c.m, num);
      WriteBackEvolves(bodies, i, j, swapped, c.m, r);
      Stepped(WriteBack(bodies, i, j, swapped, r))
  }

  /** One iteration of the inner loop: pairs on disjoint layers are
      skipped; otherwise the table's test runs on a fresh manifold and a
      contact is resolved and corrected. The box-circle entry is the
      completed test, which differs from the source only where the source
      divides by a zero distance (Narrowphase.CollideBoxCircle). */
  function VisitPair(bodies: map<Id, Body>, i: Id, j: Id, num: Numerics): (r: Outcome)
    requires IsSqrt(num.sqrt) && i in bodies && j in bodies && i != j
    ensures !LayersMeet(bodies[i].shape, bodies[j].shape) ==> r == Stepped(bodies)
    ensures r.Diverged? ==> r == Diverged(i, j) && bodies[i].invMass + bodies[j].invMass == 0.0
    ensures r.Stepped? ==> Evolves(bodies, r.bodies)
    ensures r.Stepped? ==> forall k :: k in bodies && k != i && k != j ==> r.bodies[k] == bodies[k]
  {
    if !LayersMeet(bodies[i].shape, bodies[j].shape) then Stepped(bodies)
    else
      var swapped := Swaps(bodies[i], bodies[j]);
      var c := Collide(NewManifold(bodies[i], bodies[j]), num.sqrt);
      assert Holds(bodies, i, j, swapped, c.m);
      Contacted(bodies, i, j, swapped, c, num)
  }

  /** Every pair is two distinct keys of the map. */
  predicate PairsOf(pairs: seq<(Id, Id)>, bodies: map<Id, Body>) {
    forall p :: p in pairs ==> p.0 in bodies && p.1 in bodies && p.0 != p.1
  }

  /** The nested loop over `pairs`, stopping at the first pair that
      diverges. */
  function Sweep(bodies: map<Id, Body>, pairs: seq<(Id, Id)>, num: Numerics): (r: Outcome)
    requires IsSqrt(num.sqrt) && PairsOf(pairs, bodies)
    ensures r.Stepped? ==> Evolves(bodies, r.bodies)
    ensures r.Diverged? ==>
      (r.first, r.second) in pairs && bodies[r.first].invMass + bodies[r.second].invMass == 0.0
    decreases |pairs|
  {
    if pairs == [] then Stepped(bodies)
    else
      match VisitPair(bodies, pairs[0].0, pairs[0].1, num)
      case Diverged(i, j) => Diverged(i, j)
      case Stepped(next) =>
        var r := Sweep(next, pairs[1..], num);
        if r.Stepped? then EvolvesTransitive(bodies, next, r.bodies); r
        else
          assert Responds(bodies[r.first], next[r.first]) && Responds(bodies[r.second], next[r.second]);
          r
  }

  /** The first loop of `step`: every body is advanced by `dt`. */
  function Integrate(bodies: map<Id, Body>, dt: real): (r: map<Id, Body>)
    ensures r.Keys == bodies.Keys
  {
    map k | k in bodies :: Advance(bodies[k], dt)
  }

  /** The second loop of `step`: every pair of keys, in map order. */
  function Collisions(bodies: map<Id, Body>, num: Numerics): (r: Outcome)
    requires IsSqrt(num.sqrt)
    ensures r.Stepped? ==> Evolves(bodies, r.bodies)
    ensures r.Diverged? ==>
      r.first in bodies && r.second in bodies && r.first < r.second
      && bodies[r.first].invMass + bodies[r.second].invMass == 0.0
  {
    var ids := SortedIds(bodies.Keys);
    PairsAreDistinctKeys(ids);
    Sweep(bodies, Pairs(ids), num)
  }

  /** `Scene::step(dt)`: integrate every body, then visit every pair of
      keys in map order. */
  function Step(s: Scene, dt: real, num: Numerics): (r: Outcome)
    requires IsSqrt(num.sqrt)
    ensures r.Stepped? ==> Evolves(Integrate(s.bodies, dt), r.bodies)
  {
    Collisions(Integrate(s.bodies, dt), num)
  }

  // ------------------------------------------------------ step properties

  /** Integration changes only the motion of a body, so its identifier,
      layer and inverse mass stay. */
  lemma IntegrateKeeps(bodies: map<Id, Body>, dt: real, k: Id)
    requires k in bodies
    ensures Integrate(bodies, dt)[k].id == bodies[k].id
    ensures Integrate(bodies, dt)[k].shape.layer == bodies[k].shape.layer
    ensures Integrate(bodies, dt)[k].invMass == bodies[k].invMass
  {
    AdvanceEffect(bodies[k], dt);
  }

  /** An outcome that evolves keyed bodies is keyed over the same keys. */
  lemma OutcomeKeyed(before: map<Id, Body>, r: Outcome)
    requires Keyed(before) && (r.Stepped? ==> Evolves(before, r.bodies))
    ensures r.Stepped? ==> r.bodies.Keys == before.Keys && Keyed(r.bodies)
  {
    if r.Stepped? {
      EvolvesKeyed(before, r.bodies);
    }
  }

  /** Integration keeps the bodies keyed. */
  lemma IntegrateKeyed(bodies: map<Id, Body>, dt: real)
    requires Keyed(bodies)
    ensures Keyed(Integrate(bodies, dt))
  {
    forall k | k in Integrate(bodies, dt)
      ensures Integrate(bodies, dt)[k].id == k
    {
      IntegrateKeeps(bodies, dt, k);
    }
  }

  /** A step keeps the set of bodies and their identifiers: after
      integration, collision handling changes only positions and
      velocities. */
  lemma StepKeepsBodies(s: Scene, dt: real, num: Numerics)
    requires IsSqrt(num.sqrt) && Keyed(s.bodies)
    ensures Step(s, dt, num).Stepped? ==>
      Step(s, dt, num).bodies.Keys == s.bodies.Keys && Keyed(Step(s, dt, num).bodies)
  {
    IntegrateKeyed(s.bodies, dt);
    OutcomeKeyed(Integrate(s.bodies, dt), Collisions(Integrate(s.bodies, dt), num));
  }

  /** Collision handling leaves a body of infinite mass in place. */
  lemma OutcomeStatic(before: map<Id, Body>, r: Outcome, k: Id)
    requires r.Stepped? ==> Evolves(before, r.bodies)
    requires k in before && before[k].invMass == 0.0
    ensures r.Stepped? ==> r.bodies[k].pos == before[k].pos && r.bodies[k].velocity == before[k].velocity
  {
    if r.Stepped? {
      assert Responds(before[k], r.bodies[k]);
    }
  }

  /** Advancing a body of infinite mass without gravity and at rest leaves
      it where it is. */
  lemma IntegrateStatic(bodies: map<Id, Body>, dt: real, k: Id)
    requires k in bodies
    requires bodies[k].invMass == 0.0 && bodies[k].gravityScale == 0.0 && bodies[k].velocity == Zero
    ensures Integrate(bodies, dt)[k].pos == bodies[k].pos && Integrate(bodies, dt)[k].velocity == Zero
    ensures Integrate(bodies, dt)[k].invMass == 0.0
  {
    AdvanceEffect(bodies[k], dt);
    assert Scale(Zero, dt) == Zero;
  }

  /** The body under `k` is at `pos`, at rest and immovable. */
  predicate StillAt(bodies: map<Id, Body>, k: Id, pos: Vec2) {
    k in bodies && bodies[k].pos == pos && bodies[k].velocity == Zero && bodies[k].invMass == 0.0
  }

  /** The body under `k`, if the step completed, is at `pos` and at rest. */
  predicate RestsAt(r: Outcome, k: Id, pos: Vec2) {
    r.Stepped? ==> k in r.bodies && r.bodies[k].pos == pos && r.bodies[k].velocity == Zero
  }

  /** A body of infinite mass without gravity and at rest stays where it is
      and at rest, whatever it collides with. */
  lemma StaticBodyStays(s: Scene, dt: real, num: Numerics, k: Id)
    requires IsSqrt(num.sqrt) && k in s.bodies
    requires s.bodies[k].invMass == 0.0 && s.bodies[k].gravityScale == 0.0 && s.bodies[k].velocity == Zero
    ensures RestsAt(Step(s, dt, num), k, s.bodies[k].pos)
  {
    IntegrateStill(s.bodies, dt, k);
    CollisionsRest(Integrate(s.bodies, dt), num, k, s.bodies[k].pos);
  }

  /** Integration leaves a static body without gravity and at rest still. */
  lemma IntegrateStill(bodies: map<Id, Body>, dt: real, k: Id)
    requires k in bodies
    requires bodies[k].invMass == 0.0 && bodies[k].gravityScale == 0.0 && bodies[k].velocity == Zero
    ensures StillAt(Integrate(bodies, dt), k, bodies[k].pos)
  {
    IntegrateStatic(bodies, dt, k);
  }

  /** Collision handling leaves a still body still. */
  lemma CollisionsRest(bodies: map<Id, Body>, num: Numerics, k: Id, pos: Vec2)
    requires IsSqrt(num.sqrt) && StillAt(bodies, k, pos)
    ensures RestsAt(Collisions(bodies, num), k, pos)
  {
    OutcomeStatic(bodies, Collisions(bodies, num), k);
  }

  /** A pair on disjoint layers is skipped, so when no visited pair shares a
      layer the sweep changes nothing. */
  lemma {:induction false} SweepSkips(bodies: map<Id, Body>, pairs: seq<(Id, Id)>, num: Numerics)
    requires IsSqrt(num.sqrt) && PairsOf(pairs, bodies)
    requires forall p :: p in pairs ==> !LayersMeet(bodies[p.0].shape, bodies[p.1].shape)
    ensures Sweep(bodies, pairs, num) == Stepped(bodies)
    decreases |pairs|
  {
    if pairs != [] {
      assert pairs[0] in pairs;
      assert forall p :: p in pairs[1..] ==> p in pairs;
      SweepSkips(bodies, pairs[1..], num);
    }
  }

  /** No two bodies share a layer. */
  predicate LayersDisjoint(bodies: map<Id, Body>) {
    forall i, j :: i in bodies && j in bodies && i != j ==> !LayersMeet(bodies[i].shape, bodies[j].shape)
  }

  /** Among bodies on pairwise disjoint layers collision handling does
      nothing. */
  lemma CollisionsSkip(bodies: map<Id, Body>, num: Numerics)
    requires IsSqrt(num.sqrt) && LayersDisjoint(bodies)
    ensures Collisions(bodies, num) == Stepped(bodies)
  {
    var ids := SortedIds(bodies.Keys);
    PairsAreDistinctKeys(ids);
    SweepSkips(bodies, Pairs(ids), num);
  }

  /** Integration keeps the layers. */
  lemma IntegrateLayers(bodies: map<Id, Body>, dt: real)
    requires LayersDisjoint(bodies)
    ensures LayersDisjoint(Integrate(bodies, dt))
  {
    forall i, j | i in bodies && j in bodies && i != j
      ensures !LayersMeet(Integrate(bodies, dt)[i].shape, Integrate(bodies, dt)[j].shape)
    {
      IntegrateKeeps(bodies, dt, i);
      IntegrateKeeps(bodies, dt, j);
    }
  }

  /** When no two bodies share a layer, a step only integrates. */
  lemma DisjointLayersOnlyIntegrate(s: Scene, dt: real, num: Numerics)
    requires IsSqrt(num.sqrt) && LayersDisjoint(s.bodies)
    ensures Step(s, dt, num) == Stepped(Integrate(s.bodies, dt))
  {
    IntegrateLayers(s.bodies, dt);
    CollisionsSkip(Integrate(s.bodies, dt), num);
  }

  /** Inverse masses are non-negative and no two bodies are both
      immovable. */
  predicate NoImmovablePair(bodies: map<Id, Body>) {
    (forall k :: k in bodies ==> 0.0 <= bodies[k].invMass)
    && forall i, j :: i in bodies && j in bodies && i != j ==>
      bodies[i].invMass != 0.0 || bodies[j].invMass != 0.0
  }

  /** Integration keeps the inverse masses. */
  lemma IntegrateMasses(bodies: map<Id, Body>, dt: real)
    requires NoImmovablePair(bodies)
    ensures NoImmovablePair(Integrate(bodies, dt))
  {
    forall k | k in bodies
      ensures Integrate(bodies, dt)[k].invMass == bodies[k].invMass
    {
      IntegrateKeeps(bodies, dt, k);
    }
  }

  /** Collision handling diverges only on two immovable bodies, so without
      such a pair it completes. */
  lemma CollisionsComplete(bodies: map<Id, Body>, num: Numerics)
    requires IsSqrt(num.sqrt) && NoImmovablePair(bodies)
    ensures Collisions(bodies, num).Stepped?
  {
    var r := Collisions(bodies, num);
    if r.Diverged? {
      assert false;
    }
  }

  /** With non-negative inverse masses and at most one immovable body in any
      pair, every step completes. */
  lemma StepCompletes(s: Scene, dt: real, num: Numerics)
    requires IsSqrt(num.sqrt) && NoImmovablePair(s.bodies)
    ensures Step(s, dt, num).Stepped?
  {
    IntegrateMasses(s.bodies, dt);
    CollisionsComplete(Integrate(s.bodies, dt), num);
  }
}
