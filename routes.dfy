/**
 * Routes: the result of a path search and the way the route planner joins
 * the legs of a journey (`SpaceRoute` and `Merge` in structs/search.go, and
 * the older system-list route of src/structs/search.go).
 */
module Routes {
  import opened Wrappers
  import opened Entities

  /** The summed `distanceFromPrev` of a stop list (accumulated front to back). */
  function Total(stops: seq<SpaceStop>): real
  {
    if stops == [] then 0.0 else Total(stops[..|stops| - 1]) + stops[|stops| - 1].distanceFromPrev
  }

  /** The stops of `a` followed by those of `b` after its first, which is the last of `a`. */
  function Joined(a: seq<SpaceStop>, b: seq<SpaceStop>): seq<SpaceStop>
    requires b != []
  {
    a + b[1..]
  }

  /** Adding a stop at the end adds its `distanceFromPrev`. */
  lemma TotalSnoc(stops: seq<SpaceStop>, s: SpaceStop)
    ensures Total(stops + [s]) == Total(stops) + s.distanceFromPrev
  {
    assert (stops + [s])[..|stops|] == stops;
  }

  /** The total of a concatenation is the sum of the totals. */
  lemma {:induction false} TotalAppend(a: seq<SpaceStop>, b: seq<SpaceStop>)
    ensures Total(a + b) == Total(a) + Total(b)
    decreases |b|
  {
    if b != [] {
      var c, s := b[..|b| - 1], b[|b| - 1];
      assert b == c + [s];
      assert a + b == (a + c) + [s];
      TotalAppend(a, c);
      TotalSnoc(a + c, s);
      TotalSnoc(c, s);
    } else {
      assert a + b == a;
    }
  }

  /**
   * Joining two legs adds their totals, less the `distanceFromPrev` of the
   * second leg's first stop, which is dropped.
   */
  lemma TotalJoined(a: seq<SpaceStop>, b: seq<SpaceStop>)
    requires b != []
    ensures Total(Joined(a, b)) == Total(a) + Total(b) - b[0].distanceFromPrev
  {
    TotalAppend(a, b[1..]);
    assert b == [b[0]] + b[1..];
    TotalAppend([b[0]], b[1..]);
    assert [b[0]] == [] + [b[0]];
    TotalSnoc([], b[0]);
  }

  /** Joining legs one after the other does not depend on the grouping. */
  lemma JoinedAssoc(a: seq<SpaceStop>, b: seq<SpaceStop>, c: seq<SpaceStop>)
    requires b != [] && c != []
    ensures Joined(b, c) != [] && Joined(Joined(a, b), c) == Joined(a, Joined(b, c))
  {
    assert Joined(b, c)[1..] == b[1..] + c[1..];
  }

  /** A route of the newer search (`SpaceRoute` in structs/search.go). */
  class SpaceRoute {
    var origin: Option<SpaceStop>
    var destination: Option<SpaceStop>
    var stops: seq<SpaceStop>
    var distance: real
    /** The number of frontier entries the search expanded. */
    var checks: int

    constructor (origin: Option<SpaceStop>, destination: Option<SpaceStop>, stops: seq<SpaceStop>, distance: real, checks: int)
      ensures this.origin == origin && this.destination == destination && this.stops == stops
      ensures this.distance == distance && this.checks == checks
    {
      this.origin := origin;
      this.destination := destination;
      this.stops := stops;
      this.distance := distance;
      this.checks := checks;
    }

    /**
     * `Merge`: extends this route by `next`, whose first stop is taken to be
     * this route's last; the destination becomes `next`'s and the distances
     * and counts add up. `next` may be this route itself.
     */
    method Merge(next: SpaceRoute)
      requires next.stops != []
      modifies this
      ensures stops == Joined(old(stops), old(next.stops))
      ensures destination == old(next.destination) && origin == old(origin)
      ensures distance == old(distance) + old(next.distance)
      ensures checks == old(checks) + old(next.checks)
    {
      stops := stops + next.stops[1..];
      destination := next.destination;
      distance := distance + next.distance;
      checks := checks + next.checks;
    }
  }

  /** A route of the older search (`SpaceRoute` in src/structs/search.go): systems, not stops. */
  datatype SystemRoute = SystemRoute(origin: SpaceSystem?, destination: SpaceSystem?, stops: seq<SpaceSystem>, distance: real, checks: int)
}
