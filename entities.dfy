/**
 * Star systems, route stops and the distance between systems (structs/entities.go).
 */
module Entities {
  import opened Wrappers

  /** Grid coordinates of a bucket of the spatial index. */
  type Cell = (int, int, int)

  /**
   * A star system. Everything but the bucket back-reference is fixed once the
   * system exists; `bucket` is written when the system is added to a graph.
   */
  class SpaceSystem {
    const id: int
    const name: string
    const x: real
    const y: real
    const z: real
    const containsScoopableStar: bool
    const containsRefuelStation: bool
    var bucket: Option<Cell>

    constructor (id: int, name: string, x: real, y: real, z: real, scoopable: bool, refuel: bool)
      ensures this.id == id && this.name == name
      ensures this.x == x && this.y == y && this.z == z
      ensures containsScoopableStar == scoopable && containsRefuelStation == refuel
      ensures bucket == None
    {
      this.id := id;
      this.name := name;
      this.x, this.y, this.z := x, y, z;
      containsScoopableStar := scoopable;
      containsRefuelStation := refuel;
      bucket := None;
    }
  }

  /** One stop of a route; `system` is null when it was built from a failed lookup. */
  datatype SpaceStop = SpaceStop(system: SpaceSystem?, distanceFromPrev: real, requestedStop: bool)

  /** The loaded data set. */
  datatype SpaceDB = SpaceDB(stations: seq<SpaceSystem>, systems: seq<SpaceSystem>)

  /** A fresh stop for `src`: zero distance from the previous stop, not requested. */
  function AsStop(src: SpaceSystem?): (r: SpaceStop)
    ensures r.system == src && r.distanceFromPrev == 0.0 && !r.requestedStop
  {
    SpaceStop(src, 0.0, false)
  }

  /**
   * Calls `each` on every system of the data set, in order, threading the
   * state the callback works on.
   */
  function ForEachSystem<A>(db: SpaceDB, each: (A, SpaceSystem) -> A, acc: A): A
  {
    FoldSystems(db.systems, each, acc)
  }

  function FoldSystems<A>(systems: seq<SpaceSystem>, each: (A, SpaceSystem) -> A, acc: A): A
    decreases |systems|
  {
    if systems == [] then acc else FoldSystems(systems[1..], each, each(acc, systems[0]))
  }

  /** Folding over a concatenation folds over the first part, then over the second. */
  lemma {:induction false} FoldSystemsAppend<A>(s: seq<SpaceSystem>, t: seq<SpaceSystem>, each: (A, SpaceSystem) -> A, acc: A)
    ensures FoldSystems(s + t, each, acc) == FoldSystems(t, each, FoldSystems(s, each, acc))
    decreases |s|
  {
    if s == [] {
      assert s + t == t;
    } else {
      assert (s + t)[1..] == s[1..] + t;
      FoldSystemsAppend(s[1..], t, each, each(acc, s[0]));
    }
  }

  /** A callback that records its calls sees every system exactly once, in order. */
  lemma {:induction false} ForEachSystemVisitsInOrder(db: SpaceDB, trace: seq<SpaceSystem>)
    ensures ForEachSystem(db, (t: seq<SpaceSystem>, s: SpaceSystem) => t + [s], trace) == trace + db.systems
  {
    RecordingFold(db.systems, trace);
  }

  lemma {:induction false} RecordingFold(systems: seq<SpaceSystem>, trace: seq<SpaceSystem>)
    ensures FoldSystems(systems, (t: seq<SpaceSystem>, s: SpaceSystem) => t + [s], trace) == trace + systems
    decreases |systems|
  {
    if systems != [] {
      RecordingFold(systems[1..], trace + [systems[0]]);
      assert trace + [systems[0]] + systems[1..] == trace + systems;
    }
  }

  // ---------------------------------------------------------------------------
  // Distance. `DistanceTo` is the square root of the squared Euclidean distance
  // between two positions; Dafny has no square root, so the square root of
  // distances is a parameter of the model and `Euclidean` states what it must be.

  /** A position in space. */
  type Point = (real, real, real)

  /** A distance function on positions. */
  type Metric = (Point, Point) -> real

  function Pos(s: SpaceSystem): Point
  {
    (s.x, s.y, s.z)
  }

  /** Squared straight-line distance between two positions. */
  function SqDist(p: Point, q: Point): real
  {
    (q.0 - p.0) * (q.0 - p.0) + (q.1 - p.1) * (q.1 - p.1) + (q.2 - p.2) * (q.2 - p.2)
  }

  /**
   * `dist` is the non-negative square root of the squared distance (the root
   * of zero being zero).
   */
  ghost predicate Euclidean(dist: Metric)
  {
    forall p: Point, q: Point :: Rooted(dist, p, q)
  }

  /** `dist(p, q)` is the non-negative square root of the squared distance. */
  ghost predicate Rooted(dist: Metric, p: Point, q: Point)
  {
    && 0.0 <= dist(p, q) && dist(p, q) * dist(p, q) == SqDist(p, q)
    && (p == q ==> dist(p, q) == 0.0)
  }

  /** The distance from `a` to `b` (`a.DistanceTo(b)`). */
  function DistanceTo(dist: Metric, a: SpaceSystem, b: SpaceSystem): real
  {
    dist(Pos(a), Pos(b))
  }

  /** Distances are non-negative, and two systems are at distance zero exactly when they share a position. */
  lemma DistanceToSelf(dist: Metric, a: SpaceSystem, b: SpaceSystem)
    requires Euclidean(dist)
    ensures 0.0 <= DistanceTo(dist, a, b)
    ensures DistanceTo(dist, a, b) == 0.0 <==> Pos(a) == Pos(b)
  {
    assert Rooted(dist, Pos(a), Pos(b));
    if DistanceTo(dist, a, b) == 0.0 {
      var dx, dy, dz := b.x - a.x, b.y - a.y, b.z - a.z;
      var sx, sy, sz := dx * dx, dy * dy, dz * dz;
      assert sx + sy + sz == SqDist(Pos(a), Pos(b)) == 0.0;
      SquareNonNeg(dx);
      SquareNonNeg(dy);
      SquareNonNeg(dz);
      assert sx == 0.0 && sy == 0.0 && sz == 0.0;
      SquareZero(dx);
      SquareZero(dy);
      SquareZero(dz);
    }
  }

  /** Distance does not depend on the direction. */
  lemma DistanceSymmetric(dist: Metric, a: SpaceSystem, b: SpaceSystem)
    requires Euclidean(dist)
    ensures DistanceTo(dist, a, b) == DistanceTo(dist, b, a)
  {
    var r, s := DistanceTo(dist, a, b), DistanceTo(dist, b, a);
    assert Rooted(dist, Pos(a), Pos(b)) && Rooted(dist, Pos(b), Pos(a));
    assert r * r == s * s;
    if r < s {
      MulStrict(r, s);
    } else if s < r {
      MulStrict(s, r);
    }
  }

  /** Comparing distances is comparing squared distances. */
  lemma DistanceLess(dist: Metric, a: SpaceSystem, b: SpaceSystem, c: SpaceSystem, e: SpaceSystem)
    requires Euclidean(dist)
    ensures DistanceTo(dist, a, b) < DistanceTo(dist, c, e) <==> SqDist(Pos(a), Pos(b)) < SqDist(Pos(c), Pos(e))
  {
    var r, s := DistanceTo(dist, a, b), DistanceTo(dist, c, e);
    assert Rooted(dist, Pos(a), Pos(b)) && Rooted(dist, Pos(c), Pos(e));
    if r < s {
      MulStrict(r, s);
    } else {
      MulMono(s, r);
    }
  }

  /** A distance is below a non-negative bound exactly when its square is below the bound's square. */
  lemma DistanceBelow(dist: Metric, a: SpaceSystem, b: SpaceSystem, bound: real)
    requires Euclidean(dist) && 0.0 <= bound
    ensures DistanceTo(dist, a, b) < bound <==> SqDist(Pos(a), Pos(b)) < bound * bound
  {
    var r := DistanceTo(dist, a, b);
    assert Rooted(dist, Pos(a), Pos(b));
    if r < bound {
      MulStrict(r, bound);
    } else {
      MulMono(bound, r);
    }
  }

  lemma SquareZero(d: real)
    requires d * d == 0.0
    ensures d == 0.0
  {
    if d > 0.0 {
      MulStrict(0.0, d);
    } else if d < 0.0 {
      MulStrict(0.0, -d);
    }
  }

  lemma SquareNonNeg(d: real)
    ensures 0.0 <= d * d
  {
    if d < 0.0 {
      MulNonNeg(-d, -d);
    } else {
      MulNonNeg(d, d);
    }
  }

  lemma MulPositive(a: real, b: real)
    requires 0.0 < a && 0.0 < b
    ensures 0.0 < a * b
  {
  }

  lemma MulNonNeg(a: real, b: real)
    requires 0.0 <= a && 0.0 <= b
    ensures 0.0 <= a * b
  {
  }

  lemma MulStrict(r: real, s: real)
    requires 0.0 <= r < s
    ensures r * r < s * s
  {
    var d := s - r;
    MulNonNeg(r, d);
    MulPositive(d, d);
    var a, b := r * d, d * d;
    assert s * s == (r + d) * (r + d);
    assert (r + d) * (r + d) == r * r + a + a + b;
  }

  lemma MulMono(r: real, s: real)
    requires 0.0 <= r <= s
    ensures r * r <= s * s
  {
    if r < s {
      MulStrict(r, s);
    }
  }
}
