/**
 * The route-list reducer of the web client (web/src/reducers/index.js): a
 * small state machine over three actions. Adding a stop asks for a new
 * route through the requested stops and the target; a received route
 * replaces the stop list, with each run of unrequested stops folded into one
 * collapsed leg; removing a stop asks for a route through the remaining
 * requested stops. Requests are returned as values instead of being sent.
 */
module Reducer {
  import opened Wrappers

  /** A stop as the server sends it, its system named by id. */
  datatype Stop = Stop(systemId: int, requestedStop: bool, distanceFromPrev: real)

  /**
   * An entry of the stop list: a stop, or a collapsed leg standing for a run
   * of entries. A collapsed leg's total distance is `None` when one of its
   * entries had no distance of its own (the sum is then not a number).
   */
  datatype Entry =
    | Single(stop: Stop)
    | Collapsed(totalStops: int, totalDistance: Option<real>, stops: seq<Entry>)

  /** The `RequestedStop` flag as the reducer reads it: a collapsed leg has none, which reads as false. */
  predicate Requested(e: Entry)
  {
    e.Single? && e.stop.requestedStop
  }

  /** The route list's state; `ui.updatingRoute` and `ui.autocompleting` are flattened into it. */
  datatype RouteState = RouteState(
    origin: Option<int>,
    destination: Option<int>,
    distance: real,
    stops: seq<Entry>,
    updatingRoute: bool,
    autocompleting: bool)

  const Initial := RouteState(None, None, 0.0, [], false, false)

  /** A route as received; absent fields are `None` (`Stops` of a route with no stop list is null). */
  datatype RouteReply = RouteReply(stops: Option<seq<Stop>>, origin: Option<Stop>, destination: Option<Stop>, distance: real)

  /** The route request an action makes: from the first id, through the others. */
  datatype RouteRequest = RouteRequest(from: int, visit: seq<int>)

  datatype Action =
    | AddRequest(target: int)
    | UpdateSuccess(route: Option<RouteReply>)
    | RemoveRequest(target: int)
    | Other

  /** The new state and the request made, or an exception thrown by the reducer. */
  datatype Reduced = Reduced(next: RouteState, request: Option<RouteRequest>) | Thrown

  // ---------------------------------------------------------------------------
  // Adding and removing

  /** The requested stops of a list, in order. */
  function RequestedOnly(stops: seq<Entry>): (r: seq<Entry>)
    ensures forall e | e in r :: Requested(e)
    ensures |r| <= |stops|
  {
    if stops == [] then []
    else (if Requested(stops[0]) then [stops[0]] else []) + RequestedOnly(stops[1..])
  }

  /** The requested stops keep their order: the requested stops of a concatenation are those of each part. */
  lemma {:induction false} RequestedOnlyAppend(a: seq<Entry>, b: seq<Entry>)
    ensures RequestedOnly(a + b) == RequestedOnly(a) + RequestedOnly(b)
    decreases |a|
  {
    if a == [] {
      assert a + b == b;
    } else {
      assert (a + b)[1..] == a[1..] + b;
      RequestedOnlyAppend(a[1..], b);
    }
  }

  /** An entry is kept exactly when it is requested. */
  lemma {:induction false} RequestedOnlyMembers(stops: seq<Entry>, e: Entry)
    ensures e in RequestedOnly(stops) <==> e in stops && Requested(e)
    decreases |stops|
  {
    if stops != [] {
      RequestedOnlyMembers(stops[1..], e);
      assert stops == [stops[0]] + stops[1..];
    }
  }

  /** The system ids of a list of requested stops. */
  function Ids(stops: seq<Entry>): (r: seq<int>)
    requires forall e | e in stops :: e.Single?
    ensures |r| == |stops| && forall k | 0 <= k < |stops| :: r[k] == stops[k].stop.systemId
  {
    if stops == [] then [] else [stops[0].stop.systemId] + Ids(stops[1..])
  }

  /** The stops to visit when adding `target`: the requested ones' ids, then `target` unless already there. */
  function AddVisit(stops: seq<Entry>, target: int): (visit: seq<int>)
  {
    var ids := Ids(RequestedOnly(stops));
    if target in ids then ids else ids + [target]
  }

  /** Adding never duplicates an id: `target` is visited, once if it was not before, and the rest is unchanged. */
  lemma AddVisitOnce(stops: seq<Entry>, target: int)
    ensures var ids := Ids(RequestedOnly(stops));
      var visit := AddVisit(stops, target);
      && target in visit && visit[..|ids|] == ids
      && multiset(visit)[target] == if target in ids then multiset(ids)[target] else 1
  {
    var ids := Ids(RequestedOnly(stops));
    if target !in ids {
      assert AddVisit(stops, target)[..|ids|] == ids;
      assert multiset(ids)[target] == 0;
    }
  }

  /** The stops of a list whose system is not `target`, in order. */
  function OtherSystems(stops: seq<Entry>, target: int): (r: seq<Entry>)
    ensures forall e | e in r :: e.Single?
  {
    if stops == [] then []
    else (if stops[0].Single? && stops[0].stop.systemId != target then [stops[0]] else []) + OtherSystems(stops[1..], target)
  }

  lemma {:induction false} OtherSystemsMembers(stops: seq<Entry>, target: int, e: Entry)
    ensures e in OtherSystems(stops, target) <==> e in stops && e.Single? && e.stop.systemId != target
    decreases |stops|
  {
    if stops != [] {
      OtherSystemsMembers(stops[1..], target, e);
      assert stops == [stops[0]] + stops[1..];
    }
  }

  /** The stops kept when removing `target`: the requested ones whose system is not `target`. */
  function RemoveKept(stops: seq<Entry>, target: int): (r: seq<Entry>)
    ensures forall e | e in r :: e.Single?
  {
    OtherSystems(RequestedOnly(stops), target)
  }

  /** Removing keeps exactly the requested stops of other systems; both filters keep order. */
  lemma RemoveKeptMembers(stops: seq<Entry>, target: int, e: Entry)
    ensures e in RemoveKept(stops, target) <==> e in stops && Requested(e) && e.stop.systemId != target
  {
    RequestedOnlyMembers(stops, e);
    OtherSystemsMembers(RequestedOnly(stops), target, e);
  }

  /** `ROUTE_ADD_REQUEST`: the state is kept but for the updating flag; the request goes through the visit list. */
  function Add(state: RouteState, target: int): (r: Reduced)
    ensures r.Reduced? && r.next == state.(updatingRoute := true)
    ensures r.request.Some? && [r.request.value.from] + r.request.value.visit == AddVisit(state.stops, target)
  {
    var visit := AddVisit(state.stops, target);
    Reduced(state.(updatingRoute := true), Some(RouteRequest(visit[0], visit[1..])))
  }

  /**
   * `ROUTE_REMOVE_REQUEST`: the requested stops of other systems remain; the
   * request reads the first of them, which throws when none is left.
   */
  function Remove(state: RouteState, target: int): (r: Reduced)
    ensures RemoveKept(state.stops, target) == [] <==> r.Thrown?
    ensures r.Reduced? ==> r.next == state.(stops := RemoveKept(state.stops, target), updatingRoute := true)
    ensures r.Reduced? ==> var kept := RemoveKept(state.stops, target);
      r.request == Some(RouteRequest(kept[0].stop.systemId, Ids(kept[1..])))
  {
    var kept := RemoveKept(state.stops, target);
    if kept == [] then Thrown
    else
      Reduced(state.(stops := kept, updatingRoute := true), Some(RouteRequest(kept[0].stop.systemId, Ids(kept[1..]))))
  }

  // ---------------------------------------------------------------------------
  // Collapsing a received route

  /** The distance an entry reports: a collapsed leg has none. */
  function DistanceOf(e: Entry): Option<real>
  {
    if e.Single? then Some(e.stop.distanceFromPrev) else None
  }

  /** The summed distances of a run, front to back from zero; `None` as soon as one is missing. */
  function SumDistances(run: seq<Entry>): Option<real>
  {
    if run == [] then Some(0.0)
    else
      var init := SumDistances(run[..|run| - 1]);
      var last := DistanceOf(run[|run| - 1]);
      if init.Some? && last.Some? then Some(init.value + last.value) else None
  }

  /** The collapsed leg standing for a run. */
  function LegOf(run: seq<Entry>): Entry
  {
    Collapsed(|run|, SumDistances(run), run)
  }

  /**
   * The collapsed list, front to back: `run` holds the unrequested entries
   * seen since the last requested one; each requested entry is preceded by
   * the collapsed leg of the run before it, if any; a run left at the end is
   * dropped.
   */
  function Collapsing(run: seq<Entry>, rest: seq<Entry>): seq<Entry>
    decreases |rest|
  {
    if rest == [] then []
    else if !Requested(rest[0]) then Collapsing(run + [rest[0]], rest[1..])
    else (if run != [] then [LegOf(run)] else []) + [rest[0]] + Collapsing([], rest[1..])
  }

  /** The collapsing loop of `ROUTE_UPDATE_SUCCESS`. */
  method Collapse(stops: seq<Entry>) returns (complete: seq<Entry>)
    ensures complete == Collapsing([], stops)
  {
    var collapsed: seq<Entry> := [];
    complete := [];
    for i := 0 to |stops|
      invariant complete + Collapsing(collapsed, stops[i..]) == Collapsing([], stops)
    {
      assert stops[i..][1..] == stops[i + 1..];
      if !Requested(stops[i]) {
        collapsed := collapsed + [stops[i]];
      } else {
        if |collapsed| > 0 {
          complete := complete + [LegOf(collapsed)];
          collapsed := [];
        }
        complete := complete + [stops[i]];
      }
    }
  }

  /** Some entry of the list is requested. */
  predicate AnyRequested(s: seq<Entry>)
  {
    s != [] && (Requested(s[0]) || AnyRequested(s[1..]))
  }

  /** The list up to and including its last requested entry. */
  function UpToLastRequested(s: seq<Entry>): seq<Entry>
  {
    if !AnyRequested(s) then [] else [s[0]] + UpToLastRequested(s[1..])
  }

  /** The entries a collapsed list stands for: each collapsed leg expanded to its run. */
  function Expand(out: seq<Entry>): seq<Entry>
  {
    if out == [] then []
    else (if out[0].Collapsed? then out[0].stops else [out[0]]) + Expand(out[1..])
  }

  lemma {:induction false} ExpandAppend(a: seq<Entry>, b: seq<Entry>)
    ensures Expand(a + b) == Expand(a) + Expand(b)
    decreases |a|
  {
    if a == [] {
      assert a + b == b;
    } else {
      assert (a + b)[1..] == a[1..] + b;
      ExpandAppend(a[1..], b);
    }
  }

  /**
   * Collapsing loses nothing but the trailing run: expanding the collapsed
   * legs gives back the pending run and the list up to its last requested
   * entry, or nothing when no entry is requested.
   */
  lemma {:induction false} ExpandCollapsing(run: seq<Entry>, rest: seq<Entry>)
    requires forall e | e in run :: !Requested(e)
    ensures Expand(Collapsing(run, rest)) == if AnyRequested(rest) then run + UpToLastRequested(rest) else []
    decreases |rest|
  {
    if rest != [] {
      if !Requested(rest[0]) {
        ExpandCollapsing(run + [rest[0]], rest[1..]);
        assert Collapsing(run, rest) == Collapsing(run + [rest[0]], rest[1..]);
        ExpandSkip(run, rest, Expand(Collapsing(run, rest)));
      } else {
        ExpandCollapsing([], rest[1..]);
        ExpandFlush(run, rest);
      }
    }
  }

  /**
   * The step of `ExpandCollapsing` for an unrequested entry, which joins the
   * run: what the longer run and the tail expand to is what the run and the
   * whole list expand to.
   */
  lemma ExpandSkip(run: seq<Entry>, rest: seq<Entry>, expanded: seq<Entry>)
    requires rest != [] && !Requested(rest[0])
    requires expanded == if AnyRequested(rest[1..]) then (run + [rest[0]]) + UpToLastRequested(rest[1..]) else []
    ensures expanded == if AnyRequested(rest) then run + UpToLastRequested(rest) else []
  {
    UpToUnrequested(rest);
    if AnyRequested(rest[1..]) {
      assert (run + [rest[0]]) + UpToLastRequested(rest[1..]) == run + ([rest[0]] + UpToLastRequested(rest[1..]));
    }
  }

  /** A list starting with an unrequested entry has a requested entry exactly when its tail has, and keeps its first entry then. */
  lemma UpToUnrequested(rest: seq<Entry>)
    requires rest != [] && !Requested(rest[0])
    ensures AnyRequested(rest) == AnyRequested(rest[1..])
    ensures AnyRequested(rest) ==> UpToLastRequested(rest) == [rest[0]] + UpToLastRequested(rest[1..])
  {
  }

  /** The collapsed leg of a run, then a stop, expand to the run and the stop. */
  lemma ExpandLead(run: seq<Entry>, head: Entry)
    requires head.Single?
    ensures Expand((if run != [] then [LegOf(run)] else []) + [head]) == run + [head]
  {
    assert Expand([head]) == [head];
    if run != [] {
      ExpandAppend([LegOf(run)], [head]);
      assert Expand([LegOf(run)]) == run;
    }
  }

  /** The step of `ExpandCollapsing` for a requested entry, which ends the run. */
  lemma ExpandFlush(run: seq<Entry>, rest: seq<Entry>)
    requires rest != [] && Requested(rest[0])
    requires var tail := rest[1..];
      Expand(Collapsing([], tail)) == if AnyRequested(tail) then [] + UpToLastRequested(tail) else []
    ensures Expand(Collapsing(run, rest)) == run + UpToLastRequested(rest)
  {
    var head, tail := rest[0], rest[1..];
    var lead := (if run != [] then [LegOf(run)] else []) + [head];
    var after := Collapsing([], tail);
    assert Collapsing(run, rest) == lead + after;
    ExpandAppend(lead, after);
    ExpandLead(run, head);
    UpToRequested(rest);
    assert Expand(after) == UpToLastRequested(tail);
    assert Expand(lead + after) == (run + [head]) + UpToLastRequested(tail);
  }

  /** A list starting with a requested entry keeps that entry and the rest up to its last requested entry. */
  lemma UpToRequested(rest: seq<Entry>)
    requires rest != [] && Requested(rest[0])
    ensures UpToLastRequested(rest) == [rest[0]] + UpToLastRequested(rest[1..])
    ensures !AnyRequested(rest[1..]) ==> UpToLastRequested(rest[1..]) == []
  {
  }

  /** The shape of a collapsed list: requested stops, and collapsed legs of non-empty unrequested runs, each followed by a requested stop. */
  ghost predicate WellCollapsed(out: seq<Entry>)
  {
    forall k | 0 <= k < |out| ::
      || Requested(out[k])
      || (&& out[k].Collapsed? && out[k] == LegOf(out[k].stops) && out[k].stops != []
          && (forall e | e in out[k].stops :: !Requested(e))
          && k + 1 < |out| && Requested(out[k + 1]))
  }

  lemma WellCollapsedPrepend(lead: seq<Entry>, tail: seq<Entry>)
    requires WellCollapsed(lead) && WellCollapsed(tail)
    requires lead != [] && Requested(lead[|lead| - 1])
    ensures WellCollapsed(lead + tail)
  {
    var out := lead + tail;
    forall k | 0 <= k < |out| && !Requested(out[k])
      ensures && out[k].Collapsed? && out[k] == LegOf(out[k].stops) && out[k].stops != []
              && (forall e | e in out[k].stops :: !Requested(e))
              && k + 1 < |out| && Requested(out[k + 1])
    {
      if k < |lead| {
        assert out[k] == lead[k] && out[k + 1] == lead[k + 1];
      } else {
        assert out[k] == tail[k - |lead|];
        assert k + 1 - |lead| < |tail| && out[k + 1] == tail[k + 1 - |lead|];
      }
    }
  }

  /** Every collapsed list has that shape: no two collapsed legs are adjacent and none ends the list. */
  lemma {:induction false} CollapsingShape(run: seq<Entry>, rest: seq<Entry>)
    requires forall e | e in run :: !Requested(e)
    ensures WellCollapsed(Collapsing(run, rest))
    decreases |rest|
  {
    if rest != [] {
      var head, tail := rest[0], rest[1..];
      if !Requested(head) {
        CollapsingShape(run + [head], tail);
      } else {
        CollapsingShape([], tail);
        var lead := (if run != [] then [LegOf(run)] else []) + [head];
        assert WellCollapsed(lead) by {
          forall k | 0 <= k < |lead| && !Requested(lead[k])
            ensures lead[k] == LegOf(run) && k + 1 < |lead| && Requested(lead[k + 1])
          {
          }
        }
        WellCollapsedPrepend(lead, Collapsing([], tail));
      }
    }
  }

  /** The requested stops survive collapsing, all of them and in order. */
  lemma {:induction false} CollapsingKeepsRequested(run: seq<Entry>, rest: seq<Entry>)
    ensures RequestedOnly(Collapsing(run, rest)) == RequestedOnly(rest)
    decreases |rest|
  {
    if rest != [] {
      var head, tail := rest[0], rest[1..];
      if !Requested(head) {
        CollapsingKeepsRequested(run + [head], tail);
      } else {
        CollapsingKeepsRequested([], tail);
        var lead := (if run != [] then [LegOf(run)] else []) + [head];
        RequestedOnlyAppend(lead, Collapsing([], tail));
        if run != [] {
          RequestedOnlyAppend([LegOf(run)], [head]);
        }
        assert RequestedOnly([head]) == [head];
      }
    }
  }

  /** `Math.floor(d * 100) / 100`: the distance cut down to hundredths. */
  function Hundredths(d: real): (r: real)
    ensures r <= d < r + 0.01
  {
    (d * 100.0).Floor as real / 100.0
  }

  /** The stop list a received route supplies: its stops, else its origin, else its destination, else the current list. */
  function Source(route: RouteReply, current: seq<Entry>): (r: seq<Entry>)
    ensures route.stops.Some? ==> |r| == |route.stops.value| && forall k | 0 <= k < |r| :: r[k] == Single(route.stops.value[k])
    ensures route.stops.None? && route.origin.Some? ==> r == [Single(route.origin.value)]
    ensures route.stops.None? && route.origin.None? && route.destination.Some? ==> r == [Single(route.destination.value)]
    ensures route.stops.None? && route.origin.None? && route.destination.None? ==> r == current
  {
    if route.stops.Some? then
      var ss := route.stops.value;
      seq(|ss|, k requires 0 <= k < |ss| => Single(ss[k]))
    else if route.origin.Some? then [Single(route.origin.value)]
    else if route.destination.Some? then [Single(route.destination.value)]
    else current
  }

  /**
   * `ROUTE_UPDATE_SUCCESS`: the collapsed source list replaces the stops;
   * the origin and destination systems are taken only when the route has
   * them, the distance only when it is not zero; no request is made. A
   * missing route throws.
   */
  method Update(state: RouteState, route: Option<RouteReply>) returns (r: Reduced)
    ensures route.None? <==> r.Thrown?
    ensures route.Some? ==> Updated(state, route.value, r)
  {
    if route.None? {
      return Thrown;
    }
    var reply := route.value;
    var next := state;
    next := next.(stops := Source(reply, state.stops));
    var complete := Collapse(next.stops);
    next := next.(stops := complete);
    if reply.origin.Some? {
      next := next.(origin := Some(reply.origin.value.systemId));
    }
    if reply.destination.Some? {
      next := next.(destination := Some(reply.destination.value.systemId));
    }
    if reply.distance != 0.0 {
      next := next.(distance := Hundredths(reply.distance));
    }
    next := next.(updatingRoute := false);
    return Reduced(next, None);
  }

  /**
   * The state after a route reply: the reply's stops (or the old ones)
   * collapsed, its ends and rounded distance where it has them, no request,
   * and the update finished.
   */
  ghost predicate Updated(state: RouteState, reply: RouteReply, r: Reduced)
  {
    && r.Reduced? && r.request.None?
    && var next := r.next;
    && next.stops == Collapsing([], Source(reply, state.stops))
    && next.origin == (if reply.origin.Some? then Some(reply.origin.value.systemId) else state.origin)
    && next.destination == (if reply.destination.Some? then Some(reply.destination.value.systemId) else state.destination)
    && next.distance == (if reply.distance != 0.0 then Hundredths(reply.distance) else state.distance)
    && !next.updatingRoute && next.autocompleting == state.autocompleting
  }

  /** The reducer: one action applied to the state; any other action leaves it as it is. */
  method Reduce(state: RouteState, action: Action) returns (r: Reduced)
    ensures action.AddRequest? ==> r == Add(state, action.target)
    ensures action.RemoveRequest? ==> r == Remove(state, action.target)
    ensures action.UpdateSuccess? && action.route.Some? ==> Updated(state, action.route.value, r)
    ensures action.UpdateSuccess? && action.route.None? ==> r.Thrown?
    ensures action.Other? ==> r == Reduced(state, None)
  {
    match action
    case AddRequest(target) => r := Add(state, target);
    case UpdateSuccess(route) => r := Update(state, route);
    case RemoveRequest(target) => r := Remove(state, target);
    case Other => r := Reduced(state, None);
  }
}
