/**
 * The single-leg path search (`FindPath` in structs/search.go and in the older
 * src/structs/search.go): a best-first search whose frontier is ordered by the
 * straight-line distance to the goal only, with `visited`, `queued`, parent
 * (`path`) and `costFromOrigin` maps, a hop limit on frontier entries, and a
 * route rebuilt by walking the parents back from the goal.
 */
module Search {
  import opened Wrappers
  import opened Entities
  import opened Grid
  import opened Graph
  import opened Priority
  import opened Routes

  /** Which systems a search step examines: the nearby buckets (newer search) or the own bucket (older search). */
  datatype Scan = Nearby | OwnBucket

  /** The maps of a search (`visited`, `queued`, `path`, `costFromOrigin`). */
  datatype Search = Search(
    visited: set<SpaceSystem>,
    queued: set<SpaceSystem>,
    path: map<SpaceSystem, SpaceSystem>,
    cost: map<SpaceSystem, real>)

  /** How a search loop ends: the goal's id was expanded, the frontier ran dry, or a grid index was out of range. */
  datatype Explored =
    | Reached(path: map<SpaceSystem, SpaceSystem>, cost: map<SpaceSystem, real>, checks: int)
    | Exhausted
    | OutOfRange

  /** The result of `FindPath`: a route, nil, or a run-time panic on an out-of-range grid index. */
  datatype PathOutcome = Found(route: SpaceRoute) | NoRoute | PathOutOfRange

  /** The result of the older `FindPath`. */
  datatype SystemPathOutcome = SystemFound(route: SystemRoute) | SystemNoRoute | SystemOutOfRange

  /** A lookup in `costFromOrigin`, with Go's zero default for a missing key. */
  function CostOf(cost: map<SpaceSystem, real>, s: SpaceSystem): real
  {
    if s in cost then cost[s] else 0.0
  }

  /** The scan of `s` indexes only cells inside the grid. */
  predicate Scannable(g: SpaceGraph, scan: Scan, s: SpaceSystem, maxJump: real)
    requires 1 <= g.Count()
  {
    match scan
    case Nearby => ProbesInGrid(Pos(s), maxJump, g.Count())
    case OwnBucket => InGrid(g.FindBucket(s), g.Count())
  }

  /** `x` has a parent, expanded before `x`, within one jump of it. */
  ghost predicate Linked(path: map<SpaceSystem, SpaceSystem>, rank: map<SpaceSystem, nat>, dist: Metric, maxJump: real, x: SpaceSystem)
  {
    && x in path && path[x] in rank && DistanceTo(dist, path[x], x) < maxJump
    && (x in rank ==> rank[path[x]] < rank[x])
  }

  /** The expanded `x` is `from` or has a parent, and its rank is below the number expanded. */
  ghost predicate Ranked(path: map<SpaceSystem, SpaceSystem>, rank: map<SpaceSystem, nat>, from: SpaceSystem, x: SpaceSystem)
  {
    x in rank && (x == from || x in path) && rank[x] < |rank|
  }

  /**
   * The parent map is acyclic and rooted at `from`: every parent was expanded
   * before its child (`rank` is the expansion order), is within one jump of
   * it, and every expanded system other than `from` has a parent.
   */
  ghost predicate ParentChain(path: map<SpaceSystem, SpaceSystem>, rank: map<SpaceSystem, nat>, from: SpaceSystem, dist: Metric, maxJump: real)
  {
    && from !in path
    && (forall x {:trigger Linked(path, rank, dist, maxJump, x)} | x in path :: Linked(path, rank, dist, maxJump, x))
    && (forall x {:trigger Ranked(path, rank, from, x)} | x in rank :: Ranked(path, rank, from, x))
  }

  /** `costFromOrigin` of `x` is its parent's plus the jump between them. */
  ghost predicate Costed(path: map<SpaceSystem, SpaceSystem>, cost: map<SpaceSystem, real>, dist: Metric, x: SpaceSystem)
  {
    x in path && x in cost && path[x] in cost && cost[x] == cost[path[x]] + DistanceTo(dist, path[x], x)
  }

  /** `costFromOrigin` of every system with a parent is its parent's plus the jump between them; `from` costs 0. */
  ghost predicate CostsAlongPath(path: map<SpaceSystem, SpaceSystem>, cost: map<SpaceSystem, real>, from: SpaceSystem, dist: Metric)
  {
    && from in cost && cost[from] == 0.0
    && forall x {:trigger Costed(path, cost, dist, x)} | x in path :: Costed(path, cost, dist, x)
  }

  /** `x` is `from` or has a parent. */
  ghost predicate Anchored(path: map<SpaceSystem, SpaceSystem>, from: SpaceSystem, x: SpaceSystem)
  {
    x == from || x in path
  }

  /** The invariant of the search loop; `universe` is every system the search can meet. */
  ghost predicate SearchInv(st: Search, rank: map<SpaceSystem, nat>, from: SpaceSystem,
                            dist: Metric, maxJump: real, universe: set<SpaceSystem>)
  {
    && rank.Keys == st.visited
    && ParentChain(st.path, rank, from, dist, maxJump)
    && CostsAlongPath(st.path, st.cost, from, dist)
    && st.visited <= st.queued <= universe && from in st.queued
    && st.path.Keys <= st.queued
    && (forall x {:trigger Anchored(st.path, from, x)} | x in st.queued :: Anchored(st.path, from, x))
    && (from !in st.visited ==> st.visited == {} && st.path == map[])
  }

  /** The search invariant, with the frontier's entries queued and pending. */
  ghost predicate Frontier(st: Search, rank: map<SpaceSystem, nat>, from: SpaceSystem,
                           dist: Metric, maxJump: real, universe: set<SpaceSystem>, elements: seq<SearchStop>)
  {
    SearchInv(st, rank, from, dist, maxJump, universe) && Entries(st.queued, elements) && Pending(st.visited, elements)
  }

  /** Every frontier entry is of a queued system, with a non-negative hop count. */
  ghost predicate Entries(queued: set<SpaceSystem>, elements: seq<SearchStop>)
  {
    forall e | e in elements :: e.location in queued && 0 <= e.hops
  }

  /**
   * The frontier never holds an expanded system, holds each entry once and
   * never two entries of one system: a system is pushed only when it was not
   * queued before, and queued systems stay queued.
   */
  ghost predicate Pending(visited: set<SpaceSystem>, elements: seq<SearchStop>)
  {
    var m := multiset(elements);
    && (forall e | e in m :: m[e] == 1 && e.location !in visited)
    && (forall e, f | e in m && f in m && e.location == f.location :: e == f)
  }

  /** Popping an entry leaves a frontier with no entry of its system, which was not expanded before. */
  lemma PopPending(visited: set<SpaceSystem>, before: seq<SearchStop>, after: seq<SearchStop>, c: SearchStop)
    requires Pending(visited, before) && multiset(after) + multiset{c} == multiset(before)
    ensures c.location !in visited && Pending(visited + {c.location}, after) && Pending(visited, after)
  {
    var m, m' := multiset(before), multiset(after);
    assert c in m;
    forall e | e in m'
      ensures m'[e] == 1 && e.location !in visited + {c.location}
    {
      assert e in m && m'[e] <= m[e] && m[c] == m'[c] + 1;
    }
  }

  /** Pushing an entry of a system neither queued nor expanded keeps the frontier pending. */
  lemma PushPending(visited: set<SpaceSystem>, queued: set<SpaceSystem>, before: seq<SearchStop>, after: seq<SearchStop>, s: SearchStop)
    requires Pending(visited, before) && Entries(queued, before) && s.location !in queued && s.location !in visited
    requires multiset(after) == multiset(before) + multiset{s}
    ensures Pending(visited, after)
  {
    var m, m' := multiset(before), multiset(after);
    forall e, f | e in m' && f in m' && e.location == f.location
      ensures e == f
    {
      if e != s && f != s {
        assert e in m && f in m;
      }
    }
  }

  /** Expanding a queued system (marking it visited, ranked after all others) keeps the invariant. */
  lemma VisitKeeps(st: Search, rank: map<SpaceSystem, nat>, from: SpaceSystem,
                   dist: Metric, maxJump: real, universe: set<SpaceSystem>, c: SpaceSystem)
    requires SearchInv(st, rank, from, dist, maxJump, universe) && c in st.queued
    ensures var rank' := if c in rank then rank else rank[c := |rank|];
      SearchInv(st.(visited := st.visited + {c}), rank', from, dist, maxJump, universe)
  {
    var path := st.path;
    if c !in rank {
      var rank' := rank[c := |rank|];
      assert Anchored(path, from, c);
      forall x | x in path
        ensures Linked(path, rank', dist, maxJump, x)
      {
        assert Linked(path, rank, dist, maxJump, x);
        assert Ranked(path, rank, from, path[x]);
        if x in rank {
          assert Ranked(path, rank, from, x);
        }
      }
      forall x | x in rank'
        ensures Ranked(path, rank', from, x)
      {
        if x != c {
          assert Ranked(path, rank, from, x);
        }
      }
      if from !in st.visited {
        assert c == from;
      }
    }
  }

  /**
   * Giving the unvisited `near` the parent `current` and the cost `score`
   * (queuing it if it was not queued) keeps the invariant.
   */
  lemma UpdateKeeps(st: Search, rank: map<SpaceSystem, nat>, from: SpaceSystem,
                    dist: Metric, maxJump: real, universe: set<SpaceSystem>, current: SpaceSystem, near: SpaceSystem, score: real)
    requires SearchInv(st, rank, from, dist, maxJump, universe)
    requires current in st.visited
    requires near in universe && near !in st.visited && DistanceTo(dist, current, near) < maxJump
    requires score == CostOf(st.cost, current) + DistanceTo(dist, current, near)
    ensures SearchInv(st.(queued := st.queued + {near}, path := st.path[near := current], cost := st.cost[near := score]),
                      rank, from, dist, maxJump, universe)
  {
    var c := current;
    var path, path' := st.path, st.path[near := c];
    var cost' := st.cost[near := score];
    assert Ranked(path, rank, from, c);
    assert near != from;
    assert c in st.cost by {
      if c != from {
        assert Costed(path, st.cost, dist, c);
      }
    }
    forall x | x in path'
      ensures Linked(path', rank, dist, maxJump, x)
    {
      if x != near {
        assert Linked(path, rank, dist, maxJump, x);
      }
    }
    forall x | x in rank
      ensures Ranked(path', rank, from, x)
    {
      assert Ranked(path, rank, from, x);
    }
    forall x | x in path'
      ensures Costed(path', cost', dist, x)
    {
      if x != near {
        assert Costed(path, st.cost, dist, x);
        assert Linked(path, rank, dist, maxJump, x);
      }
    }
    forall x | x in st.queued + {near}
      ensures Anchored(path', from, x)
    {
      if x != near {
        assert Anchored(path, from, x);
      }
    }
  }

  /** Removing systems from a finite set's complement: a strictly larger subset leaves fewer outside it. */
  lemma FewerLeft(universe: set<SpaceSystem>, a: set<SpaceSystem>, b: set<SpaceSystem>)
    requires a < b <= universe
    ensures |universe - b| < |universe - a|
  {
    var x :| x in b && x !in a;
    var left, fewer := universe - a, universe - b;
    assert fewer <= left - {x};
    assert |left - {x}| == |left| - 1;
    var rest := (left - {x}) - fewer;
    assert left - {x} == fewer + rest && fewer * rest == {};
  }

  /**
   * The systems a search step examines from `origin`: `ok` is false exactly
   * when the scan would index outside the grid (a run-time panic).
   */
  method Neighbours(g: SpaceGraph, dist: Metric, scan: Scan, origin: SpaceSystem, maxJump: real) returns (ok: bool, nears: seq<SpaceSystem>)
    requires g.Valid()
    ensures ok == Scannable(g, scan, origin, maxJump)
    ensures ok && scan == Nearby ==>
      nears == WithinRadius(dist, origin, maxJump, Gather(g.BucketsAt(NearbyCells(Pos(origin), maxJump, g.Count()))))
    ensures ok && scan == OwnBucket ==>
      nears == WithinRadius(dist, origin, maxJump, g.GetBucket(g.FindBucket(origin)).systems)
    ensures forall s | s in nears :: s in g.Members && DistanceTo(dist, origin, s) < maxJump
  {
    ok := Scannable(g, scan, origin, maxJump);
    if !ok {
      nears := [];
      return;
    }
    match scan
    case Nearby =>
      nears := g.Proximity(dist, origin, maxJump);
      forall s | s in nears
        ensures s in g.Members && DistanceTo(dist, origin, s) < maxJump
      {
        g.ProximityMembers(dist, origin, maxJump, s);
      }
    case OwnBucket =>
      nears := g.Within(dist, origin, maxJump);
      forall s | s in nears
        ensures s in g.Members && DistanceTo(dist, origin, s) < maxJump
      {
        g.WithinMembers(dist, origin, maxJump, s);
      }
  }

  /**
   * One neighbour of the expanded `current` (the body of the inner loop): an
   * unvisited neighbour that is not queued is pushed with one hop more and
   * gets `current` as parent; a queued one is re-parented only when the cost
   * through `current` is strictly smaller than its recorded cost.
   */
  method RelaxOne(q: DestinationQueue, st: Search, current: SearchStop, near: SpaceSystem,
                  ghost rank: map<SpaceSystem, nat>, ghost from: SpaceSystem, dist: Metric, maxJump: real, ghost universe: set<SpaceSystem>)
    returns (st': Search)
    requires Euclidean(q.dist) && q.Valid()
    requires SearchInv(st, rank, from, dist, maxJump, universe) && Entries(st.queued, q.elements) && Pending(st.visited, q.elements)
    requires current.location in st.visited && 0 <= current.hops
    requires near in universe && DistanceTo(dist, current.location, near) < maxJump
    modifies q
    ensures q.Valid() && Frontier(st', rank, from, dist, maxJump, universe, q.elements)
    ensures var score := CostOf(st.cost, current.location) + DistanceTo(dist, current.location, near);
      if near in st.visited || (near in st.queued && score >= CostOf(st.cost, near)) then
        st' == st && q.elements == old(q.elements)
      else
        && st' == st.(queued := st.queued + {near}, path := st.path[near := current.location], cost := st.cost[near := score])
        && (near in st.queued ==> q.elements == old(q.elements))
        && (near !in st.queued ==> multiset(q.elements) == multiset(old(q.elements)) + multiset{SearchStop(near, current.hops + 1)})
    ensures Grew(st, st', current.location, old(q.elements), q.elements)
    ensures var score := CostOf(st.cost, current.location) + DistanceTo(dist, current.location, near);
      && Settled(st', near, score)
      && (st'.cost == st.cost || st'.cost == st.cost[near := score])
  {
    st' := st;
    if near !in st.visited {
      var score := CostOf(st.cost, current.location) + DistanceTo(dist, current.location, near);
      if near !in st.queued {
        ghost var before := q.elements;
        q.HeapPush(SearchStop(near, current.hops + 1));
        PushPending(st.visited, st.queued, before, q.elements, SearchStop(near, current.hops + 1));
        ghost var pushed := before + [SearchStop(near, current.hops + 1)];
        UpdateKeeps(st, rank, from, dist, maxJump, universe, current.location, near, score);
        assert Entries(st.queued + {near}, pushed) by {
          SameMembers(before, before, st.queued, st.queued + {near});
        }
        SameMembers(q.elements, pushed, st.queued + {near}, st.queued + {near});
        st' := st'.(queued := st.queued + {near});
      } else if score >= CostOf(st.cost, near) {
        return;
      } else {
        UpdateKeeps(st, rank, from, dist, maxJump, universe, current.location, near, score);
      }
      st' := st'.(path := st.path[near := current.location], cost := st.cost[near := score]);
    }
  }

  /**
   * From `st` and frontier `before` to `st'` and `after`: nothing newly
   * visited, nothing unqueued, the cost of `c` unchanged, and the frontier
   * the same size when nothing new was queued.
   */
  ghost predicate Grew(st: Search, st': Search, c: SpaceSystem, before: seq<SearchStop>, after: seq<SearchStop>)
  {
    && st'.visited == st.visited && st.queued <= st'.queued
    && CostOf(st'.cost, c) == CostOf(st.cost, c)
    && (st'.queued == st.queued ==> |after| == |before|)
  }

  /** Growing twice is growing. */
  lemma GrewOn(st: Search, mid: Search, st': Search, c: SpaceSystem, before: seq<SearchStop>, middle: seq<SearchStop>, after: seq<SearchStop>)
    requires Grew(st, mid, c, before, middle) && Grew(mid, st', c, middle, after)
    ensures Grew(st, st', c, before, after)
  {
  }

  /** `s` is expanded, or queued at a cost no greater than `score`. */
  ghost predicate Settled(st: Search, s: SpaceSystem, score: real)
  {
    s in st.visited || (s in st.queued && CostOf(st.cost, s) <= score)
  }

  /**
   * Expanding the visited `current`: its neighbours are found (`ok` is false
   * when the scan would probe outside the grid) and each is updated in turn,
   * so that each ends up expanded or queued at a cost no greater than the
   * cost through `current`.
   */
  method Expand(g: SpaceGraph, q: DestinationQueue, st: Search, scan: Scan, current: SearchStop,
                ghost rank: map<SpaceSystem, nat>, ghost from: SpaceSystem, dist: Metric, maxJump: real, ghost universe: set<SpaceSystem>)
    returns (ok: bool, st': Search, nears: seq<SpaceSystem>)
    requires g.Valid() && Euclidean(q.dist) && q.Valid() && g.Members <= universe
    requires SearchInv(st, rank, from, dist, maxJump, universe) && Entries(st.queued, q.elements) && Pending(st.visited, q.elements)
    requires current.location in st.visited && 0 <= current.hops
    modifies q
    ensures ok == Scannable(g, scan, current.location, maxJump)
    ensures ok && scan == Nearby ==>
      nears == WithinRadius(dist, current.location, maxJump, Gather(g.BucketsAt(NearbyCells(Pos(current.location), maxJump, g.Count()))))
    ensures ok && scan == OwnBucket ==>
      nears == WithinRadius(dist, current.location, maxJump, g.GetBucket(g.FindBucket(current.location)).systems)
    ensures ok ==> q.Valid() && SearchInv(st', rank, from, dist, maxJump, universe) && Entries(st'.queued, q.elements)
    ensures ok ==> Pending(st'.visited, q.elements)
    ensures st'.visited == st.visited && st.queued <= st'.queued
    ensures ok ==> forall j | 0 <= j < |nears| ::
      Settled(st', nears[j], CostOf(st.cost, current.location) + DistanceTo(dist, current.location, nears[j]))
    ensures ok && st'.queued == st.queued ==> |q.elements| == |old(q.elements)|
  {
    ok, nears := Neighbours(g, dist, scan, current.location, maxJump);
    st' := st;
    if ok {
      st' := RelaxAll(q, st, current, nears, rank, from, dist, maxJump, universe);
    }
  }

  /** The inner loop of `FindPath`: updates every neighbour of the expanded `current` in turn. */
  method RelaxAll(q: DestinationQueue, st: Search, current: SearchStop, nears: seq<SpaceSystem>,
                  ghost rank: map<SpaceSystem, nat>, ghost from: SpaceSystem, dist: Metric, maxJump: real, ghost universe: set<SpaceSystem>)
    returns (st': Search)
    requires Euclidean(q.dist) && q.Valid()
    requires SearchInv(st, rank, from, dist, maxJump, universe) && Entries(st.queued, q.elements) && Pending(st.visited, q.elements)
    requires current.location in st.visited && 0 <= current.hops
    requires forall s | s in nears :: s in universe && DistanceTo(dist, current.location, s) < maxJump
    modifies q
    ensures q.Valid() && SearchInv(st', rank, from, dist, maxJump, universe) && Entries(st'.queued, q.elements)
    ensures Pending(st'.visited, q.elements)
    ensures st'.visited == st.visited && st.queued <= st'.queued
    ensures forall j | 0 <= j < |nears| ::
      Settled(st', nears[j], CostOf(st.cost, current.location) + DistanceTo(dist, current.location, nears[j]))
    ensures st'.queued == st.queued ==> |q.elements| == |old(q.elements)|
  {
    st' := st;
    for i := 0 to |nears|
      invariant q.Valid() && Frontier(st', rank, from, dist, maxJump, universe, q.elements)
      invariant Grew(st, st', current.location, old(q.elements), q.elements)
      invariant forall j | 0 <= j < i ::
        Settled(st', nears[j], CostOf(st.cost, current.location) + DistanceTo(dist, current.location, nears[j]))
    {
      ghost var prev, elements := st', q.elements;
      st' := RelaxOne(q, st', current, nears[i], rank, from, dist, maxJump, universe);
      GrewOn(st, prev, st', current.location, old(q.elements), elements, q.elements);
      SettledKept(prev, st', nears, i, CostOf(prev.cost, current.location), current.location, dist);
    }
  }

  /**
   * Relaxing the `i`th neighbour keeps the earlier ones settled: the expanded
   * and queued sets only grow, and only the cost of that neighbour changes,
   * to the cost through `c`.
   */
  lemma SettledKept(st: Search, st': Search, nears: seq<SpaceSystem>, i: int, base: real, c: SpaceSystem, dist: Metric)
    requires 0 <= i < |nears|
    requires forall j | 0 <= j < i :: Settled(st, nears[j], base + DistanceTo(dist, c, nears[j]))
    requires st'.visited == st.visited && st.queued <= st'.queued
    requires st'.cost == st.cost || st'.cost == st.cost[nears[i] := base + DistanceTo(dist, c, nears[i])]
    requires Settled(st', nears[i], base + DistanceTo(dist, c, nears[i]))
    ensures forall j | 0 <= j < i + 1 :: Settled(st', nears[j], base + DistanceTo(dist, c, nears[j]))
  {
    forall j | 0 <= j < i
      ensures Settled(st', nears[j], base + DistanceTo(dist, c, nears[j]))
    {
      assert Settled(st, nears[j], base + DistanceTo(dist, c, nears[j]));
    }
  }

  /** The invariant holds of any frontier whose entries are among those of one it holds of. */
  lemma SameMembers(es: seq<SearchStop>, fs: seq<SearchStop>, queued: set<SpaceSystem>, queued': set<SpaceSystem>)
    requires multiset(es) <= multiset(fs) && Entries(queued, fs) && queued <= queued'
    ensures Entries(queued', es)
  {
    forall e | e in es
      ensures e.location in queued' && 0 <= e.hops
    {
      assert e in multiset(fs);
    }
  }

  /** The graph's invariant survives any change that leaves the graph, its buckets and its members alone. */
  twostate lemma ValidKept(g: SpaceGraph)
    requires old(g.Valid()) && unchanged(g, g.buckets) && unchanged(g.Members)
    ensures g.Valid()
  {
  }

  /** A sequence with the members of a one-element multiset is that element alone. */
  lemma Single(es: seq<SearchStop>, e: SearchStop)
    requires multiset(es) == multiset{e}
    ensures es == [e]
  {
    assert |es| == |multiset(es)| == 1;
    assert es[0] in multiset(es);
  }

  /**
   * Pops the frontier entry nearest the goal: exactly that entry leaves the
   * frontier, and it is of a system not expanded yet.
   */
  method PopEntry(q: DestinationQueue, ghost queued: set<SpaceSystem>, ghost visited: set<SpaceSystem>, ghost only: SearchStop)
    returns (current: SearchStop)
    requires Euclidean(q.dist) && q.Valid() && q.elements != []
    requires Entries(queued, q.elements) && Pending(visited, q.elements)
    modifies q
    ensures q.Valid() && Entries(queued, q.elements) && |q.elements| + 1 == |old(q.elements)|
    ensures multiset(q.elements) + multiset{current} == multiset(old(q.elements))
    ensures forall t | t in old(q.elements) :: Key(current, q.dist, q.destination) <= Key(t, q.dist, q.destination)
    ensures current.location in queued && 0 <= current.hops
    ensures current.location !in visited && Pending(visited + {current.location}, q.elements) && Pending(visited, q.elements)
    ensures old(q.elements) == [only] ==> current == only && q.elements == []
  {
    ghost var before := q.elements;
    current := q.HeapPop();
    ghost var rest := q.elements;
    assert |rest| + 1 == |before| by {
      assert |multiset(rest) + multiset{current}| == |multiset(before)|;
    }
    SameMembers(rest + [current], before, queued, queued);
    assert current in rest + [current];
    SameMembers(rest, rest + [current], queued, queued);
    PopPending(visited, before, rest, current);
    if before == [only] {
      assert current in multiset(before);
    }
  }

  /** How one round of the search loop ends. */
  datatype Round =
    | Skipped   // the popped entry had too many hops and was dropped uncounted
    | Goal      // the popped entry has the goal's id
    | Stuck     // scanning its neighbours would index outside the grid
    | Expanded  // its neighbours were updated

  /**
   * One round of the search loop: pops the entry nearest the goal and drops
   * it when its hop count exceeds `maxHops`, otherwise visits it.
   */
  method Step(g: SpaceGraph, q: DestinationQueue, st: Search, scan: Scan, ghost rank: map<SpaceSystem, nat>,
              ghost from: SpaceSystem, to: SpaceSystem, dist: Metric, maxJump: real, maxHops: int, ghost universe: set<SpaceSystem>)
    returns (round: Round, current: SearchStop, st': Search, ghost rank': map<SpaceSystem, nat>)
    requires g.Valid() && Euclidean(q.dist) && q.Valid() && q.dist == dist && q.elements != [] && g.Members <= universe
    requires SearchInv(st, rank, from, dist, maxJump, universe) && Entries(st.queued, q.elements) && Pending(st.visited, q.elements)
    modifies q
    ensures current in multiset(old(q.elements))
    ensures forall t | t in old(q.elements) :: Key(current, dist, q.destination) <= Key(t, dist, q.destination)
    ensures round == Skipped <==> current.hops > maxHops
    ensures round == Skipped ==> st' == st && rank' == rank && multiset(q.elements) + multiset{current} == multiset(old(q.elements))
    ensures round != Skipped ==> current.location !in st.visited && st'.visited == st.visited + {current.location}
    ensures round == Goal <==> round != Skipped && current.location.id == to.id
    ensures round != Stuck ==> q.Valid()
    ensures round != Stuck ==> SearchInv(st', rank', from, dist, maxJump, universe) && Entries(st'.queued, q.elements)
    ensures round != Stuck ==> Pending(st'.visited, q.elements)
    ensures round == Goal ==> exists x | x in rank' :: x.id == to.id
    ensures round != Goal && round != Stuck ==>
      |universe - st'.queued| < |universe - st.queued| || (st'.queued == st.queued && |q.elements| < |old(q.elements)|)
    ensures old(q.elements) == [SearchStop(from, 0)] && from.id == to.id && 0 <= maxHops ==>
      round == Goal && st'.path == st.path && st'.cost == st.cost
  {
    current := PopEntry(q, st.queued, st.visited, SearchStop(from, 0));
    if current.hops > maxHops {
      return Skipped, current, st, rank;
    }
    ValidKept(g);
    round, st', rank' := Visit(g, q, st, scan, current, rank, from, to, dist, maxJump, universe);
  }

  /**
   * Visiting a popped entry: marks its system visited, stops when its id is
   * the goal's, and otherwise updates its neighbours.
   */
  method Visit(g: SpaceGraph, q: DestinationQueue, st: Search, scan: Scan, current: SearchStop, ghost rank: map<SpaceSystem, nat>,
               ghost from: SpaceSystem, to: SpaceSystem, dist: Metric, maxJump: real, ghost universe: set<SpaceSystem>)
    returns (round: Round, st': Search, ghost rank': map<SpaceSystem, nat>)
    requires g.Valid() && Euclidean(q.dist) && q.Valid() && q.dist == dist && g.Members <= universe
    requires SearchInv(st, rank, from, dist, maxJump, universe) && Entries(st.queued, q.elements)
    requires current.location in st.queued && current.location !in st.visited && 0 <= current.hops
    requires Pending(st.visited + {current.location}, q.elements)
    modifies q
    ensures st'.visited == st.visited + {current.location}
    ensures round != Skipped
    ensures round == Goal <==> current.location.id == to.id
    ensures round == Stuck <==> current.location.id != to.id && !Scannable(g, scan, current.location, maxJump)
    ensures round != Stuck ==> q.Valid()
    ensures round != Stuck ==> SearchInv(st', rank', from, dist, maxJump, universe) && Entries(st'.queued, q.elements)
    ensures round != Stuck ==> Pending(st'.visited, q.elements)
    ensures round == Goal ==> exists x | x in rank' :: x.id == to.id
    ensures round == Goal ==> st'.path == st.path && st'.cost == st.cost && q.elements == old(q.elements)
    ensures round == Expanded ==>
      |universe - st'.queued| < |universe - st.queued| || (st'.queued == st.queued && |q.elements| == |old(q.elements)|)
  {
    VisitKeeps(st, rank, from, dist, maxJump, universe, current.location);
    rank' := if current.location in rank then rank else rank[current.location := |rank|];
    st' := st.(visited := st.visited + {current.location});
    if current.location.id == to.id {
      assert current.location in rank';
      return Goal, st', rank';
    }
    var ok, nears;
    ok, st', nears := Expand(g, q, st', scan, current, rank', from, dist, maxJump, universe);
    if !ok {
      return Stuck, st', rank';
    }
    if st'.queued != st.queued {
      FewerLeft(universe, st.queued, st'.queued);
    }
    round := Expanded;
  }

  /** Visiting a system not yet visited visits one system more. */
  lemma OneMore(visited: set<SpaceSystem>, s: SpaceSystem)
    requires s !in visited
    ensures |visited + {s}| == |visited| + 1
  {
  }

  /**
   * The search loop shared by both versions of `FindPath`: runs rounds until
   * the frontier is empty, counting every round that does not skip its
   * entry; as no system is expanded twice, the count is the number of
   * systems expanded.
   */
  method Explore(g: SpaceGraph, dist: Metric, scan: Scan, from: SpaceSystem, to: SpaceSystem, maxJump: real, maxHops: int)
    returns (r: Explored, ghost rank: map<SpaceSystem, nat>)
    requires g.Valid() && Euclidean(dist)
    ensures r.Reached? ==> ParentChain(r.path, rank, from, dist, maxJump) && CostsAlongPath(r.path, r.cost, from, dist)
    ensures r.Reached? ==> r.checks == |rank| && (exists x | x in rank :: x.id == to.id)
    ensures r.Reached? ==> from in rank && rank.Keys <= g.Members + {from}
    ensures maxHops < 0 ==> r == Exhausted
    ensures from.id == to.id && 0 <= maxHops ==> r == Reached(map[], map[from := 0.0], 1)
  {
    ghost var universe := g.Members + {from};
    var q := new DestinationQueue(to, dist);
    q.HeapPush(SearchStop(from, 0));
    Single(q.elements, SearchStop(from, 0));
    var st := Search({}, {from}, map[], map[from := 0.0]);
    var checks := 0;
    rank := map[];
    while q.Len() > 0
      invariant fresh(q) && q.Valid() && q.dist == dist
      invariant SearchInv(st, rank, from, dist, maxJump, universe) && Entries(st.queued, q.elements)
      invariant Pending(st.visited, q.elements)
      invariant checks == |st.visited|
      invariant from.id == to.id && 0 <= maxHops ==>
        st == Search({}, {from}, map[], map[from := 0.0]) && q.elements == [SearchStop(from, 0)] && checks == 0
      decreases |universe - st.queued|, |q.elements|
    {
      ValidKept(g);
      var round, current;
      ghost var visited := st.visited;
      round, current, st, rank := Step(g, q, st, scan, rank, from, to, dist, maxJump, maxHops, universe);
      if round != Skipped {
        OneMore(visited, current.location);
        checks := checks + 1;
      }
      if round == Goal {
        r := Reached(st.path, st.cost, checks);
        return;
      } else if round == Stuck {
        r := OutOfRange;
        return;
      }
    }
    r := Exhausted;
  }

  /**
   * `checks` counts the systems expanded: `from`, one with the goal's id and
   * possibly others among the graph's systems, each once.
   */
  ghost predicate Expansions(checks: int, expanded: set<SpaceSystem>, members: set<SpaceSystem>, from: SpaceSystem, to: SpaceSystem)
  {
    && checks == |expanded| && from in expanded && expanded <= members + {from}
    && exists x | x in expanded :: x.id == to.id
  }

  /**
   * The stops of a found route: they end at the goal, each stop after the
   * first is its predecessor's child in the parent map and carries the jump
   * from it, and the first has no parent and no distance; no stop is requested.
   */
  ghost predicate Unwound(stops: seq<SpaceStop>, path: map<SpaceSystem, SpaceSystem>, to: SpaceSystem, dist: Metric)
  {
    && stops != [] && stops[|stops| - 1].system == to
    && (forall k | 0 <= k < |stops| :: stops[k].system != null && !stops[k].requestedStop)
    && stops[0].system !in path && stops[0].distanceFromPrev == 0.0
    && (forall k | 0 < k < |stops| ::
          && stops[k].system in path && path[stops[k].system] == stops[k - 1].system
          && stops[k].distanceFromPrev == DistanceTo(dist, stops[k - 1].system, stops[k].system))
  }

  /**
   * The first loop of the success branch of `FindPath`: walks the parents
   * back from the goal, prepending a stop per system and giving each the
   * distance from its parent.
   */
  method UnwindStops(path: map<SpaceSystem, SpaceSystem>, to: SpaceSystem, dist: Metric,
                     ghost rank: map<SpaceSystem, nat>, ghost from: SpaceSystem, ghost maxJump: real)
    returns (stops: seq<SpaceStop>)
    requires ParentChain(path, rank, from, dist, maxJump)
    ensures Unwound(stops, path, to, dist)
    ensures stops[0].system == from || (|stops| == 1 && to !in rank)
    ensures forall k | 0 < k < |stops| :: stops[k].distanceFromPrev < maxJump
  {
    stops := [];
    var current: SpaceSystem? := to;
    while current != null
      invariant stops == [] ==> current == to
      invariant stops != [] ==>
        && stops[|stops| - 1].system == to
        && stops[0].system != null
        && current == (if stops[0].system in path then path[stops[0].system] else null)
        && stops[0].distanceFromPrev == (if current != null then DistanceTo(dist, current, stops[0].system) else 0.0)
        && (|stops| > 1 ==> stops[0].system in rank)
      invariant forall k | 0 <= k < |stops| :: stops[k].system != null && !stops[k].requestedStop
      invariant forall k | 0 < k < |stops| ::
          && stops[k].system in path && path[stops[k].system] == stops[k - 1].system
          && stops[k].distanceFromPrev == DistanceTo(dist, stops[k - 1].system, stops[k].system)
          && stops[k].distanceFromPrev < maxJump
      decreases if current == null then 0 else if current in rank then rank[current] + 1 else |rank| + 1
    {
      if stops != [] && stops[0].system in path {
        assert Linked(path, rank, dist, maxJump, stops[0].system);
      }
      var stop := AsStop(current);
      var prev: SpaceSystem := current;
      if prev in path {
        assert Linked(path, rank, dist, maxJump, prev);
        if prev !in rank {
          assert Ranked(path, rank, from, path[prev]);
        }
      }
      current := if prev in path then path[prev] else null;
      if current != null {
        stop := stop.(distanceFromPrev := DistanceTo(dist, current, prev));
      }
      stops := [stop] + stops;
    }
    if |stops| > 1 {
      assert Ranked(path, rank, from, stops[0].system);
    } else if to in rank {
      assert Ranked(path, rank, from, to);
    }
  }

  /** The second loop of the success branch: sums `distanceFromPrev` over every stop but the first. */
  method SumAfterFirst(stops: seq<SpaceStop>) returns (distance: real)
    requires stops != []
    ensures distance + stops[0].distanceFromPrev == Total(stops)
  {
    distance := 0.0;
    for i := 1 to |stops|
      invariant distance == Total(stops[1..i])
    {
      assert stops[1..i + 1] == stops[1..i] + [stops[i]];
      TotalSnoc(stops[1..i], stops[i]);
      distance := distance + stops[i].distanceFromPrev;
    }
    assert stops[1..|stops|] == stops[1..];
    assert stops == [stops[0]] + stops[1..];
    TotalAppend([stops[0]], stops[1..]);
    TotalSnoc([], stops[0]);
    assert [] + [stops[0]] == [stops[0]];
  }

  /**
   * Another system than `to`, among `members` and `from`, carries `to`'s id:
   * the search, which stops at the first system expanded with the goal's id,
   * may then stop there without ever reaching `to`.
   */
  ghost predicate Twin(members: set<SpaceSystem>, from: SpaceSystem, to: SpaceSystem)
  {
    exists x | x in members + {from} :: x != to && x.id == to.id
  }

  /**
   * The stops of a route of the newer search from `from` to `to` over a graph
   * of `members`: rebuilt from the parents, ending at `to`, starting at
   * `from` unless the search stopped at a twin of `to` (see `Twin`), when
   * `to` is the only stop; none requested, each jump shorter than `maxJump`
   * and recorded on the stop it leads to.
   */
  ghost predicate LegStops(stops: seq<SpaceStop>, members: set<SpaceSystem>, from: SpaceSystem, to: SpaceSystem, dist: Metric, maxJump: real)
  {
    && stops != [] && stops[|stops| - 1].system == to
    && (stops[0].system == from || (|stops| == 1 && Twin(members, from, to)))
    && (forall k | 0 <= k < |stops| :: stops[k].system != null && !stops[k].requestedStop)
    && stops[0].distanceFromPrev == 0.0
    && (forall k | 0 < k < |stops| :: Hop(stops, k, dist, maxJump))
  }

  /** The jump into stop `k`, recorded on it, is shorter than `maxJump`. */
  ghost predicate Hop(stops: seq<SpaceStop>, k: int, dist: Metric, maxJump: real)
    requires 0 < k < |stops| && stops[k - 1].system != null && stops[k].system != null
  {
    stops[k].distanceFromPrev == DistanceTo(dist, stops[k - 1].system, stops[k].system) < maxJump
  }

  /**
   * A route of the newer search from `from` to `to` over a graph of
   * `members`: its ends as stops, the stops of a leg between them, the
   * distance their total and at least one expansion counted.
   */
  ghost predicate RouteFrom(route: SpaceRoute, members: set<SpaceSystem>, from: SpaceSystem, to: SpaceSystem, dist: Metric, maxJump: real)
    reads route
  {
    && route.origin == Some(AsStop(from)) && route.destination == Some(AsStop(to))
    && LegStops(route.stops, members, from, to, dist, maxJump)
    && route.distance == Total(route.stops)
    && 1 <= route.checks
  }

  /**
   * A search that reached a system with `to`'s id without ranking `to`
   * itself stopped at a twin of `to`.
   */
  lemma TwinReached(rank: map<SpaceSystem, nat>, members: set<SpaceSystem>, from: SpaceSystem, to: SpaceSystem)
    requires (exists x | x in rank :: x.id == to.id) && rank.Keys <= members + {from} && to !in rank
    ensures Twin(members, from, to)
  {
    var x :| x in rank && x.id == to.id;
    assert x in members + {from} && x != to;
  }

  /**
   * Where no other system than `to` carries its id, a leg starts at `from`:
   * the only escape of `LegStops` is a twin of `to`.
   */
  lemma StartsAtFrom(stops: seq<SpaceStop>, members: set<SpaceSystem>, from: SpaceSystem, to: SpaceSystem, dist: Metric, maxJump: real)
    requires LegStops(stops, members, from, to, dist, maxJump)
    requires forall x | x in members + {from} && x.id == to.id :: x == to
    ensures stops[0].system == from
  {
  }

  /**
   * `FindPath` (structs/search.go): the route found by the search over the
   * nearby buckets, nil when the frontier runs dry, or a panic when a scan
   * indexes outside the grid.
   */
  method FindPath(g: SpaceGraph, dist: Metric, from: SpaceSystem, to: SpaceSystem, maxJump: real, maxHops: int)
    returns (r: PathOutcome, ghost expanded: set<SpaceSystem>)
    requires g.Valid() && Euclidean(dist)
    ensures r.Found? ==> fresh(r.route) && RouteFrom(r.route, g.Members, from, to, dist, maxJump)
    ensures r.Found? ==> Expansions(r.route.checks, expanded, g.Members, from, to)
    ensures r.Found? && to in expanded ==> r.route.stops[0].system == from
    ensures maxHops < 0 ==> r == NoRoute
    ensures from.id == to.id && 0 <= maxHops ==>
      r.Found? && r.route.stops == [AsStop(to)] && r.route.distance == 0.0 && r.route.checks == 1
  {
    var explored, rank := Explore(g, dist, Nearby, from, to, maxJump, maxHops);
    expanded := rank.Keys;
    match explored
    case Exhausted => r := NoRoute;
    case OutOfRange => r := PathOutOfRange;
    case Reached(path, _, checks) =>
      var stops := UnwindStops(path, to, dist, rank, from, maxJump);
      if stops[0].system != from {
        TwinReached(rank, g.Members, from, to);
      }
      var distance := SumAfterFirst(stops);
      var route := new SpaceRoute(Some(AsStop(from)), Some(AsStop(to)), stops, distance, checks);
      r := Found(route);
  }

  /**
   * In the sample graph, with the test's jump limit of 5, the route the search
   * test expects, sites 1, 6 and 4, is a leg of the kind `FindPath` returns,
   * while site 4 is out of one jump's reach from site 1.
   */
  lemma SampleLeg(m: map<int, SpaceSystem>, dist: Metric)
    requires Euclidean(dist) && HoldsSample(m)
    ensures forall members: set<SpaceSystem> ::
      LegStops([SpaceStop(m[1], 0.0, false), SpaceStop(m[6], DistanceTo(dist, m[1], m[6]), false),
                SpaceStop(m[4], DistanceTo(dist, m[6], m[4]), false)], members, m[1], m[4], dist, 5.0)
    ensures 5.0 <= DistanceTo(dist, m[1], m[4])
  {
    DistanceBelow(dist, m[1], m[6], 5.0);
    DistanceBelow(dist, m[6], m[4], 5.0);
    DistanceBelow(dist, m[1], m[4], 5.0);
    var stops := [SpaceStop(m[1], 0.0, false), SpaceStop(m[6], DistanceTo(dist, m[1], m[6]), false),
                  SpaceStop(m[4], DistanceTo(dist, m[6], m[4]), false)];
    assert Hop(stops, 1, dist, 5.0) && Hop(stops, 2, dist, 5.0);
  }

  // ---------------------------------------------------------------------------
  // The older `FindPath` (src/structs/search.go): the same loop over the own
  // bucket only, a route of systems, and the distance summed from each system
  // back to the one before it.

  /** The length of a system path: each jump measured from a system back to the one before it. */
  function PathLength(dist: Metric, systems: seq<SpaceSystem>): real
  {
    if |systems| <= 1 then 0.0
    else PathLength(dist, systems[..|systems| - 1]) + DistanceTo(dist, systems[|systems| - 1], systems[|systems| - 2])
  }

  /** The systems of an unwound parent chain ending at `to`. */
  ghost predicate UnwoundSystems(systems: seq<SpaceSystem>, path: map<SpaceSystem, SpaceSystem>, to: SpaceSystem)
  {
    && systems != [] && systems[|systems| - 1] == to && systems[0] !in path
    && forall k | 0 < k < |systems| :: systems[k] in path && path[systems[k]] == systems[k - 1]
  }

  /** The first loop of the success branch of the older `FindPath`: prepends each system of the parent chain. */
  method UnwindSystems(path: map<SpaceSystem, SpaceSystem>, to: SpaceSystem, dist: Metric,
                       ghost rank: map<SpaceSystem, nat>, ghost from: SpaceSystem, ghost maxJump: real)
    returns (systems: seq<SpaceSystem>)
    requires ParentChain(path, rank, from, dist, maxJump)
    ensures UnwoundSystems(systems, path, to)
    ensures systems[0] == from || (|systems| == 1 && to !in rank)
    ensures forall k | 0 < k < |systems| :: DistanceTo(dist, systems[k - 1], systems[k]) < maxJump
  {
    systems := [];
    var current: SpaceSystem? := to;
    while current != null
      invariant systems == [] ==> current == to
      invariant systems != [] ==>
        && systems[|systems| - 1] == to
        && current == (if systems[0] in path then path[systems[0]] else null)
        && (|systems| > 1 ==> systems[0] in rank)
      invariant forall k | 0 < k < |systems| ::
          && systems[k] in path && path[systems[k]] == systems[k - 1]
          && DistanceTo(dist, systems[k - 1], systems[k]) < maxJump
      decreases if current == null then 0 else if current in rank then rank[current] + 1 else |rank| + 1
    {
      if systems != [] && systems[0] in path {
        assert Linked(path, rank, dist, maxJump, systems[0]);
      }
      var prev: SpaceSystem := current;
      if prev in path {
        assert Linked(path, rank, dist, maxJump, prev);
        if prev !in rank {
          assert Ranked(path, rank, from, path[prev]);
        }
      }
      systems := [prev] + systems;
      current := if prev in path then path[prev] else null;
    }
    if |systems| > 1 {
      assert Ranked(path, rank, from, systems[0]);
    } else if to in rank {
      assert Ranked(path, rank, from, to);
    }
  }

  /** The second loop of the success branch of the older `FindPath`: sums the jumps. */
  method SumJumps(dist: Metric, systems: seq<SpaceSystem>) returns (distance: real)
    ensures distance == PathLength(dist, systems)
  {
    distance := 0.0;
    var i := 1;
    while i < |systems|
      invariant systems == [] || (i <= |systems| && distance == PathLength(dist, systems[..i]))
      invariant systems == [] ==> distance == 0.0
    {
      assert systems[..i + 1][..i] == systems[..i];
      distance := distance + DistanceTo(dist, systems[i], systems[i - 1]);
      i := i + 1;
    }
    if systems != [] {
      assert systems[..|systems|] == systems;
    }
  }

  /**
   * Both versions measure a route alike: the older sum of jumps over the
   * systems equals the newer total of `distanceFromPrev` over stops built
   * from the same systems.
   */
  lemma {:induction false} LengthsAgree(dist: Metric, systems: seq<SpaceSystem>, stops: seq<SpaceStop>)
    requires Euclidean(dist)
    requires |stops| == |systems| && (stops != [] ==> stops[0].distanceFromPrev == 0.0)
    requires forall k | 0 <= k < |stops| :: stops[k].system == systems[k]
    requires forall k | 0 < k < |stops| :: stops[k].distanceFromPrev == DistanceTo(dist, systems[k - 1], systems[k])
    ensures PathLength(dist, systems) == Total(stops)
    decreases |systems|
  {
    var n := |systems|;
    if n == 1 {
      assert stops[..0] == [];
    } else if n > 1 {
      LengthsAgree(dist, systems[..n - 1], stops[..n - 1]);
      DistanceSymmetric(dist, systems[n - 1], systems[n - 2]);
    }
  }

  /**
   * A route of the older search from `from` to `to` over a graph of
   * `members`: the systems of the parent chain, starting at `from` unless
   * the search stopped at a twin of `to` (see `Twin`), each jump shorter than
   * `maxJump`, the distance their length and at least one expansion counted.
   */
  ghost predicate SystemRouteFrom(route: SystemRoute, members: set<SpaceSystem>, from: SpaceSystem, to: SpaceSystem, dist: Metric, maxJump: real)
  {
    && route.origin == from && route.destination == to
    && var systems := route.stops;
    && systems != [] && systems[|systems| - 1] == to
    && (systems[0] == from || (|systems| == 1 && Twin(members, from, to)))
    && (forall k | 0 < k < |systems| :: DistanceTo(dist, systems[k - 1], systems[k]) < maxJump)
    && route.distance == PathLength(dist, systems)
    && 1 <= route.checks
  }

  /**
   * The older `FindPath` (src/structs/search.go): the same search over the
   * own bucket of each system, giving a route of systems, nil, or a panic
   * when a system lies outside the grid.
   */
  method LegacyFindPath(g: SpaceGraph, dist: Metric, from: SpaceSystem, to: SpaceSystem, maxJump: real, maxHops: int)
    returns (r: SystemPathOutcome, ghost expanded: set<SpaceSystem>)
    requires g.Valid() && Euclidean(dist)
    ensures r.SystemFound? ==> SystemRouteFrom(r.route, g.Members, from, to, dist, maxJump)
    ensures r.SystemFound? ==> Expansions(r.route.checks, expanded, g.Members, from, to)
    ensures r.SystemFound? && to in expanded ==> r.route.stops[0] == from
    ensures maxHops < 0 ==> r == SystemNoRoute
    ensures from.id == to.id && 0 <= maxHops ==> r == SystemFound(SystemRoute(from, to, [to], 0.0, 1))
  {
    var explored, rank := Explore(g, dist, OwnBucket, from, to, maxJump, maxHops);
    expanded := rank.Keys;
    match explored
    case Exhausted => r := SystemNoRoute;
    case OutOfRange => r := SystemOutOfRange;
    case Reached(path, _, checks) =>
      var systems := UnwindSystems(path, to, dist, rank, from, maxJump);
      if systems[0] != from {
        TwinReached(rank, g.Members, from, to);
      }
      var distance := SumJumps(dist, systems);
      r := SystemFound(SystemRoute(from, to, systems, distance, checks));
  }
}
