/**
 * The recursive route search of the older graph (`FindRoute` and
 * `_findRoute` in src/structs/search.go): a depth-first search over the
 * systems within one jump of each other, bounded by the hop limit, keeping
 * the shortest route any neighbour returns.
 */
module Recursive {
  import opened Wrappers
  import opened Entities
  import opened Graph
  import opened Routes
  import opened Search

  /** The result of `_findRoute`: a route or nil, or one of the run-time panics it can meet. */
  datatype RouteOutcome = Returned(route: Option<SystemRoute>) | NilDereference | RouteOutOfRange

  /** The route of the base case: the goal reached at `from`, no distance travelled. */
  function Arrived(from: SpaceSystem, to: SpaceSystem): (route: SystemRoute)
    ensures route.stops == [from] && route.distance == 0.0 && route.destination == to
  {
    SystemRoute(from, to, [from], 0.0, 0)
  }

  /** A route that is a base case: a single stop at a system carrying the goal's id. */
  ghost predicate OneStop(route: SystemRoute, to: SpaceSystem)
  {
    && route.origin != null && route.origin.id == to.id
    && route == Arrived(route.origin, to)
  }

  /**
   * The selection step of the loop of `_findRoute`: the first route is kept
   * whatever it is; later ones replace it when strictly shorter. `None` is a
   * nil dereference: a nil route after a route has been kept.
   */
  function Keep(best: Option<SystemRoute>, route: Option<SystemRoute>): (r: Option<Option<SystemRoute>>)
    ensures r.None? <==> best.Some? && route.None?
    ensures r.Some? ==> r.value == best || r.value == route
    ensures r.Some? && best.Some? ==> r.value.Some? && r.value.value.distance <= best.value.distance
  {
    if best.None? then Some(route)
    else if route.None? then None
    else if route.value.distance < best.value.distance then Some(route)
    else Some(best)
  }

  /** A nil route met after a route was kept is dereferenced. */
  lemma NilAfterRoute(best: SystemRoute)
    ensures Keep(Some(best), None) == None
  {
  }

  /**
   * `_findRoute`: the base route when `from` carries the goal's id, nil at
   * the hop limit, otherwise the route kept over the recursive searches from
   * each system within one jump of `from` in its own bucket. The base route
   * is returned as it is, so every route found is a single stop with no
   * distance.
   */
  method FindRouteFrom(g: SpaceGraph, dist: Metric, from: SpaceSystem, to: SpaceSystem, maxJump: real, maxHops: int, depth: int)
    returns (r: RouteOutcome)
    requires g.Valid() && Euclidean(dist) && 0 <= depth <= maxHops
    ensures from.id == to.id ==> r == Returned(Some(Arrived(from, to)))
    ensures from.id != to.id && depth == maxHops ==> r == Returned(None)
    ensures r.Returned? && r.route.Some? ==> OneStop(r.route.value, to)
    decreases maxHops - depth
  {
    if from.id == to.id {
      return Returned(Some(Arrived(from, to)));
    } else if depth == maxHops {
      return Returned(None);
    }
    var ok, options := Neighbours(g, dist, OwnBucket, from, maxJump);
    if !ok {
      return RouteOutOfRange;
    }
    var best: Option<SystemRoute> := None;
    for i := 0 to |options|
      invariant best.Some? ==> OneStop(best.value, to)
    {
      var route := FindRouteFrom(g, dist, options[i], to, maxJump, maxHops, depth + 1);
      if !route.Returned? {
        return route;
      }
      var kept := Keep(best, route.route);
      if kept.None? {
        return NilDereference;
      }
      best := kept.value;
    }
    return Returned(best);
  }

  /** `FindRoute`: the recursive search from depth zero. */
  method FindRoute(g: SpaceGraph, dist: Metric, from: SpaceSystem, to: SpaceSystem, maxJump: real, maxHops: int)
    returns (r: RouteOutcome)
    requires g.Valid() && Euclidean(dist) && 0 <= maxHops
    ensures from.id == to.id ==> r == Returned(Some(Arrived(from, to)))
    ensures from.id != to.id && maxHops == 0 ==> r == Returned(None)
    ensures r.Returned? && r.route.Some? ==> OneStop(r.route.value, to)
  {
    r := FindRouteFrom(g, dist, from, to, maxJump, maxHops, 0);
  }

  // ---------------------------------------------------------------------------
  // The recursive search as evidently intended: each level puts `from` in
  // front of the route its best neighbour returned and adds that jump, and a
  // neighbour without a route is passed over.

  /** The selection step with nil routes passed over: the shorter of the two, the earlier on a tie. */
  function Better(best: Option<SystemRoute>, route: Option<SystemRoute>): (r: Option<SystemRoute>)
    ensures r == best || r == route
    ensures best.Some? ==> r.Some? && r.value.distance <= best.value.distance
    ensures route.Some? ==> r.Some? && r.value.distance <= route.value.distance
    ensures route.Some? && best.Some? && route.value.distance < best.value.distance ==> r == route
  {
    if route.None? then best
    else if best.None? || route.value.distance < best.value.distance then route
    else best
  }

  /** `route` goes from `from` to a system with the goal's id in jumps shorter than `maxJump`, measured by `PathLength`. */
  ghost predicate ChainTo(route: SystemRoute, from: SpaceSystem, to: SpaceSystem, dist: Metric, maxJump: real, hops: int)
  {
    var ss := route.stops;
    && route.origin == from && route.destination == to
    && ss != [] && ss[0] == from && ss[|ss| - 1].id == to.id
    && |ss| <= hops + 1
    && (forall k | 0 < k < |ss| :: DistanceTo(dist, ss[k - 1], ss[k]) < maxJump)
    && route.distance == PathLength(dist, ss)
  }

  /** Putting a system in front of a path adds the jump from the path's first system back to it. */
  lemma {:induction false} PathLengthCons(dist: Metric, s: SpaceSystem, ss: seq<SpaceSystem>)
    requires ss != []
    ensures PathLength(dist, [s] + ss) == DistanceTo(dist, ss[0], s) + PathLength(dist, ss)
    decreases |ss|
  {
    var n := |ss|;
    if n > 1 {
      var init := ss[..n - 1];
      assert ([s] + ss)[..n] == [s] + init;
      PathLengthCons(dist, s, init);
    } else {
      assert ([s] + ss)[..1] == [s];
    }
  }

  /** A route from `from`: `from` in front of `sub`, one jump more. */
  function Extend(dist: Metric, from: SpaceSystem, sub: SystemRoute): (route: SystemRoute)
    requires sub.stops != []
    ensures route.stops == [from] + sub.stops && route.origin == from && route.destination == sub.destination
  {
    SystemRoute(from, sub.destination, [from] + sub.stops, DistanceTo(dist, sub.stops[0], from) + sub.distance, sub.checks)
  }

  /** A chain from a neighbour of `from`, with `from` put in front, is a chain from `from` one hop longer. */
  lemma ExtendChains(dist: Metric, from: SpaceSystem, next: SpaceSystem, to: SpaceSystem, sub: SystemRoute, maxJump: real, hops: int)
    requires Euclidean(dist) && DistanceTo(dist, from, next) < maxJump
    requires ChainTo(sub, next, to, dist, maxJump, hops - 1)
    ensures ChainTo(Extend(dist, from, sub), from, to, dist, maxJump, hops)
  {
    PathLengthCons(dist, from, sub.stops);
    DistanceSymmetric(dist, next, from);
    var ss := [from] + sub.stops;
    forall k | 0 < k < |ss|
      ensures DistanceTo(dist, ss[k - 1], ss[k]) < maxJump
    {
      if k > 1 {
        assert ss[k - 1] == sub.stops[k - 2] && ss[k] == sub.stops[k - 1];
      }
    }
  }

  /**
   * The recursive search as evidently intended: every route it returns is a
   * chain of jumps shorter than `maxJump` from `from` to a system with the
   * goal's id, with no more jumps than the hops left, and its distance is
   * the length of that chain. It never dereferences nil.
   */
  method FindRouteCorrected(g: SpaceGraph, dist: Metric, from: SpaceSystem, to: SpaceSystem, maxJump: real, maxHops: int, depth: int)
    returns (ok: bool, route: Option<SystemRoute>)
    requires g.Valid() && Euclidean(dist) && 0 <= depth <= maxHops
    ensures from.id == to.id ==> ok && route == Some(Arrived(from, to))
    ensures from.id != to.id && depth == maxHops ==> ok && route == None
    ensures ok && route.Some? ==> ChainTo(route.value, from, to, dist, maxJump, maxHops - depth)
    decreases maxHops - depth
  {
    if from.id == to.id {
      return true, Some(Arrived(from, to));
    } else if depth == maxHops {
      return true, None;
    }
    var options;
    ok, options := Neighbours(g, dist, OwnBucket, from, maxJump);
    if !ok {
      return false, None;
    }
    route := None;
    for i := 0 to |options|
      invariant route.Some? ==> ChainTo(route.value, from, to, dist, maxJump, maxHops - depth)
    {
      var found, sub := FindRouteCorrected(g, dist, options[i], to, maxJump, maxHops, depth + 1);
      if !found {
        return false, None;
      }
      var extended: Option<SystemRoute> := None;
      if sub.Some? {
        ExtendChains(dist, from, options[i], to, sub.value, maxJump, maxHops - depth);
        extended := Some(Extend(dist, from, sub.value));
      }
      route := Better(route, extended);
    }
  }
}
