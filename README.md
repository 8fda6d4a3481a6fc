# edpaths route planner — a Dafny model

edpaths plans routes between star systems of the Elite: Dangerous galaxy. The
server keeps every system in a three-dimensional grid of buckets (a
`SpaceGraph`). Its `/route` handler:

- finds a path for each leg with a best-first search over systems that lie
  within one jump of each other;
- joins the legs into one route per visiting order;
- keeps the shortest of those routes.

Its `/search` handler answers name queries from a case-insensitive
substring matcher. The web client keeps the planned route in a reducer,
which folds every run of intermediate stops into one collapsed leg.

The model covers these parts:

- **Entities** (`entities.dfy`): a system, a stop, the database fold and
  the distance between two systems. A system is a class: `Add` writes its
  bucket. Distances go through a metric parameter that is constrained to be
  the Euclidean one.
- **Grid** (`grid.dfy`) and **Graph** (`graph.dfy`):
  - the grid geometry (bucket size, cell of a point, the six probes of
    `NearbyBuckets`);
  - the `SpaceGraph` class over an `array3` of buckets, with `InitGraph`,
    `Add`, `Get`, `Load`, `LoadSample`, `NearbyBuckets`, `Proximity` and
    `Within`.
- **Priority** (`priority.dfy`): the `destinationQueue` heap interface,
  together with the sift-up and sift-down steps of `container/heap` that
  drive it.
- **Routes** (`routes.dfy`): the route class and `Merge`.
- **Search** (`search.dfy`): both versions of `FindPath`, on one shared
  search loop.
- **Recursive** (`recursive.dfy`): the recursive `FindRoute` of the older
  graph, as written and as evidently intended.
- **Planner** (`planner.dfy`): `getVariants`, the leg fold of each handler
  goroutine, the choice of the shortest route, and the `/route` handler's
  branches.
- **Autocomplete** (`autocomplete.dfy`): `Autocomplete.Add`, `GetAll` and
  the `/search` handler.
- **Reducer** (`reducer.dfy`): the three route actions of the web client's
  reducer.

Run-time panics are results in the model, not preconditions:

- an index outside the grid;
- a nil route;
- a variant with a single id;
- a `stops[0]` of an empty list in the reducer.

The source does not always agree with its own description. Where the two
differ, the model follows the code:

- The handler is described as skipping a visiting order whose leg search
  fails. The code dereferences the nil leg, and the panic ends the process
  (`Crash`).
- The `NotFound` answer after the comparison is therefore reachable only
  before any order is planned.
- A lone visit with neither end given yields a one-id order. Its fold
  indexes `variant[1]` and panics, so the handler crashes
  (`Planner.PlanRoute`, `Planner.LoneVisit`).

The search stops at the first system it expands whose id is the goal's id,
then unwinds the parents from the goal system itself
(structs/search.go:91-106, src/structs/search.go:98-105). Suppose another
system carries the same id and is expanded first. Then the goal was never
reached and has no parent, so the route is the goal's stop alone, whatever
the origin. The contracts state this case (`Search.Twin`). Where ids are
distinct, every found route starts at the origin (`Search.StartsAtFrom`,
`Planner.LegsChained`).

## Model

| member | source | states |
|---|---|---|
| Entities.SpaceSystem.constructor | structs/entities.go:32-42 | a system holds its id, name, coordinates and star/station flags, and no bucket yet |
| Entities.AsStop | structs/entities.go:110-114 | the stop of a system points at that system, with zero distance, not requested |
| Entities.FoldSystemsAppend | structs/entities.go:100-104 | folding over two system lists in turn equals folding over their concatenation |
| Entities.ForEachSystemVisitsInOrder | structs/entities.go:100-104 | `ForEachSystem` calls its callback once per system, in the database's order |
| Entities.RecordingFold | structs/entities.go:100-104 | a callback that records its argument sees exactly the given systems, in order |
| Entities.DistanceToSelf | structs/entities.go:106-108 | a distance is never negative, and it is 0 iff the two systems share their coordinates |
| Entities.DistanceSymmetric | structs/entities.go:106-108 | the distance from a to b equals the distance from b to a |
| Entities.DistanceLess | structs/entities.go:106-108 | one distance is below another iff its squared coordinate distance is below |
| Entities.DistanceBelow | structs/entities.go:106-108 | a distance is below a bound iff the squared distance is below the bound squared |
| Grid.Ceil | structs/search.go:51 | `math.Ceil`: the least integer not below its argument |
| Grid.GridCount | structs/search.go:306 | the cell count per axis is at least 1, and that many cells of the radius cover the universe's range |
| Grid.BucketSize | structs/search.go:51 | a bucket is at least 1 wide, and `count` buckets cover the universe's range |
| Grid.CellInRange | structs/search.go:50-58 | a coordinate inside the universe falls in a cell index between 0 and count-1 |
| Grid.FindBucketInGrid | structs/search.go:50-58 | every point inside the universe has its bucket inside the grid |
| Grid.CellMonotone | structs/search.go:53-55 | a larger coordinate never lands in a lower cell |
| Grid.ProbePoints | structs/search.go:176-240 | there are seven probe points, the first of them the origin itself |
| Grid.ProbeCells | structs/search.go:176-240 | there are seven probe cells, each the bucket of the matching probe point |
| Grid.ProbeCellsExplicit | structs/search.go:180-240 | the probes are the origin, then the origin moved by -r and +r along x, y and z, in that order |
| Grid.ProbesInGridLand | structs/search.go:176-247 | when every probe cell is in the grid, each of the seven lookups indexes inside the grid |
| Grid.KeepOther | structs/search.go:187-244 | the kept cells are exactly the probe cells other than the start cell |
| Grid.NearbyCellsShape | structs/search.go:172-247 | the nearby cells: the origin's cell first, 1 to 7 cells, exactly the probe cells, none twice |
| Grid.ProbesDistinct | structs/search.go:180-244 | two probes that differ from the start cell never share a cell |
| Grid.OppositeProbes | structs/search.go:180-200 | the cells at -r and +r along an axis are ordered around the origin's cell, so they differ unless both equal it |
| Grid.KeepOtherDistinct | structs/search.go:187-244 | removing the start cell from distinct probes leaves them distinct |
| Graph.WithinRadiusMembers | structs/search.go:161-167 | a system is in the filtered list iff it is scanned and lies strictly within the radius |
| Graph.WithinRadiusAppend | structs/search.go:161-167 | filtering bucket after bucket keeps the scan order |
| Graph.GatherMembers | structs/search.go:161-162 | the scanned systems are exactly the systems of the scanned buckets |
| Graph.SpaceGraph.FindBucket | structs/search.go:50-58 | a system inside the universe gets a cell inside the grid |
| Graph.SpaceGraph.GetBucketIdentifies | structs/search.go:252-254 | two cells give the same bucket iff they are the same cell, and a bucket records its own coordinates |
| Graph.SpaceGraph.AddProbe | structs/search.go:181-189 | one probe step appends the probed bucket unless it is the start bucket |
| Graph.SpaceGraph.NearbyBuckets | structs/search.go:176-247 | the returned buckets are the buckets of the nearby cells, in probe order |
| Graph.SpaceGraph.NearbyBucketsShape | structs/search.go:172-247 | the origin's bucket comes first; each bucket appears once; every probed bucket is present; nothing else is |
| Graph.SpaceGraph.Proximity | structs/search.go:156-170 | the result is the members of the nearby buckets strictly within the radius, in bucket order |
| Graph.SpaceGraph.ProximityMembers | structs/search.go:150-170 | a system is returned iff it was added, is strictly within the radius, and its cell is one of the probe cells |
| Graph.SpaceGraph.BucketHolds | structs/search.go:256-272 | a bucket holds exactly the added systems whose cell it is |
| Graph.SpaceGraph.ProximityFindsOrigin | structs/search.go:156-170 | an added origin is in its own proximity for any positive radius |
| Graph.SpaceGraph.Within | src/structs/search.go:155-166 | the result is the members of the origin's own bucket strictly within the radius, in order |
| Graph.SpaceGraph.WithinMembers | src/structs/search.go:149-166 | a system is returned iff it was added, is strictly within the radius, and shares the origin's cell |
| Graph.SpaceGraph.Get | structs/search.go:274-280 | nil iff the id was never added; otherwise an added system carrying that id |
| Graph.SpaceGraph.InitGraph | structs/search.go:301-331 | count³ empty buckets, each recording its own coordinates; no systems |
| Graph.SpaceGraph.Add | structs/search.go:256-272 | out of bounds: the error message, and nothing changes. Otherwise the system is appended to its bucket, remembers it, and is indexed by id; the other buckets are unchanged |
| Graph.SpaceGraph.Load | structs/search.go:333-346 | every in-bounds system is added in database order, each cell gaining its systems; the map is indexed by id, later entries winning |
| Graph.IndexedIsForEach | structs/search.go:333-346 | the id map `Load` builds is the `ForEachSystem` fold of its callback (`Add`, which keeps in-universe systems) over the data set |
| Graph.SpaceGraph.AddSite | structs/search.go:349-354 | one sample site is added under its id with its name and coordinates; it joins the members and is appended to the bucket of its cell; every other bucket is unchanged |
| Graph.SpaceGraph.AddSampleSite | structs/search.go:349-354 | as `AddSite`, and every bucket goes on holding its contents at the start with the sample sites of its cell added so far, now including this one |
| Graph.SpaceGraph.LoadSample | structs/search.go:348-357 | ids 1 to 6 hold the six fresh sample sites; every other id is as before; the six sites join the members, and each bucket gains the sample sites of its cell, in the order they are added |
| Graph.SampleMap | structs/search.go:348-357 | the six insertions give the named sample sites at their coordinates and keep the other ids |
| Priority.TravelCost | src/structs/priority.go:21-24 | the heuristic is the distance between the two systems: non-negative, and 0 at the same point |
| Priority.HeapRootMin | src/structs/priority.go:33-35 | in heap order, the root's travel cost is at most that of every entry |
| Priority.DestinationQueue.constructor | src/structs/priority.go:10-19 | a new queue is empty and aims at the given destination |
| Priority.DestinationQueue.Len | src/structs/priority.go:31 | the length is 0 iff the queue has no entries |
| Priority.DestinationQueue.Less | src/structs/priority.go:33-35 | slot i comes before slot j iff its system is strictly closer to the destination |
| Priority.DestinationQueue.Swap | src/structs/priority.go:37-39 | the two slots are exchanged and the entries stay the same |
| Priority.DestinationQueue.Push | src/structs/priority.go:41-43 | the entry goes at the end |
| Priority.DestinationQueue.Pop | src/structs/priority.go:45-50 | the last entry is removed and returned |
| Priority.DestinationQueue.Up | src/structs/priority.go:33-39 | sifting up with Less and Swap restores heap order and keeps the same entries |
| Priority.DestinationQueue.Down | src/structs/priority.go:33-39 | sifting down restores heap order over a prefix and keeps the same entries and the tail |
| Priority.DestinationQueue.HeapPush | src/structs/search.go:71 | `heap.Push` keeps heap order and adds exactly the entry |
| Priority.DestinationQueue.HeapPop | src/structs/search.go:84 | `heap.Pop` removes one entry whose cost is the least of all, keeping heap order |
| Priority.Drain | src/structs/priority_test.go:45-53 | popping until empty yields the entries in strictly ascending travel cost |
| Priority.TakeCheapest | src/structs/priority_test.go:50 | an entry strictly cheaper than all others is the one popped |
| Priority.SampleKeys | src/structs/priority_test.go:10-43 | the five test sites, seen from the target at (5, 5, 5), rank 5, 1, 3, 2, 4 |
| Priority.FilledQueue | src/structs/priority_test.go:19-40 | a new queue with entries pushed one by one with `heap.Push` is a heap of exactly those entries |
| Priority.SampleQueue | src/structs/priority_test.go:10-43 | the test's queue holds the five sites, which listed as 5, 1, 3, 2, 4 are strictly nearer first |
| Priority.PopOrderSample | src/structs/priority_test.go:10-53 | the test's queue pops ids 5, 1, 3, 2, 4, the order the test lists |
| Routes.TotalSnoc | structs/search.go:108-112 | summing stop distances, one stop more adds its distance |
| Routes.TotalAppend | structs/search.go:108-112 | the summed distance of two stop lists joined is the sum of both |
| Routes.TotalJoined | structs/search.go:362-369 | the stop distances of a merged route add up to those of both routes, minus the dropped first stop |
| Routes.JoinedAssoc | structs/search.go:362-369 | merging three routes gives the same stops whichever pair is merged first |
| Routes.SpaceRoute.constructor | structs/search.go:26-34 | a route holds the given origin, destination, stops, distance and checks |
| Routes.SpaceRoute.Merge | structs/search.go:362-369 | the stops of `next` after its first are appended; `next`'s destination is taken; distance and checks add up |
| Search.VisitKeeps | structs/search.go:87-88 | marking a queued system visited keeps the search invariant: parent chains back to the origin and costs along them |
| Search.UpdateKeeps | structs/search.go:126-143 | re-parenting an unvisited neighbour within one jump, at its cost through the current system, keeps the invariant |
| Search.Neighbours | structs/search.go:125 | a panic iff the scan leaves the grid; otherwise `Proximity` (newer) or `Within` (older), all within one jump |
| Search.RelaxOne | structs/search.go:126-143 | a visited neighbour, or a queued one whose new cost is not smaller, changes nothing; otherwise it is queued (pushed with one hop more if new) and re-parented at the new cost. Afterwards the neighbour is visited or queued at a cost no greater than the cost through `current`, and only its cost may change |
| Search.Expand | structs/search.go:123-144 | a panic iff the scan leaves the grid; otherwise the neighbours are exactly the in-range members of the probed buckets (newer) or of the own bucket (older), and each ends visited or queued at a cost no greater than the cost through `current`; the invariant and the heap are kept, the visited set is unchanged and the queued set only grows |
| Search.RelaxAll | structs/search.go:125-144 | after the loop every neighbour is visited or queued at a cost no greater than the cost through `current`; the invariant and the heap are kept, the visited set is unchanged, the queued set only grows, and the frontier keeps its size when nothing new is queued |
| Search.PopEntry | structs/search.go:79 | exactly the popped entry leaves the frontier, it is nearest the goal of all entries, it is queued and not yet visited, and the heap is kept |
| Search.Step | structs/search.go:78-85 | the entry nearest the goal is popped; it is dropped iff its hops exceed the limit, and then nothing else changes; otherwise its system, not visited before, becomes visited, the round ends at the goal iff its id is the goal's, and the invariant, heap and termination measure are kept |
| Search.Visit | structs/search.go:87-144 | the entry's system is marked visited; the round is the goal iff its id is the goal's, leaving parents and costs alone; a panic iff it is not the goal and the scan leaves the grid; otherwise its neighbours are updated, keeping the invariant, and the termination measure falls |
| Search.Explore | structs/search.go:60-147 | on reaching the goal's id, the parent map chains back to the origin in jumps below `maxJump`, with costs along it, and `checks` is the number of systems visited, the origin and one with the goal's id among them. A negative hop limit finds nothing; `from == to` stops after one check |
| Search.UnwindStops | structs/search.go:92-106 | walking the parents back gives the chain ending at the goal, each stop carrying the jump from its parent; it starts at `from` unless it is the goal alone and the goal was never ranked |
| Search.SumAfterFirst | structs/search.go:108-112 | the summed distance is the total of all stop distances but the first |
| Search.TwinReached | structs/search.go:91-106 | a search that expanded a system with the goal's id but never ranked the goal itself stopped at another system carrying that id |
| Search.StartsAtFrom | structs/search.go:91-106 | where no other system carries the goal's id, a leg of the search starts at `from` |
| Search.FindPath | structs/search.go:60-148 | a found route ends at `to` in jumps below `maxJump`, each recorded on its stop. It starts at `from` whenever `to` was expanded; otherwise the search stopped at another system with `to`'s id, and the route is `to` alone. Its distance is the jumps' sum, and `checks` is the number of systems expanded, `from` and one with the goal's id among them. A negative hop limit gives nil; equal ids give the single stop |
| Search.SampleLeg | src/structs/search_test.go:11-22 | in the sample graph with a jump limit of 5, the expected path 1, 6, 4 is a leg of the kind the search returns, and site 4 is not within one jump of site 1 |
| Search.UnwindSystems | src/structs/search.go:99-105 | walking the parents back gives the system chain ending at the goal, each jump below `maxJump`; it starts at `from` unless it is the goal alone and the goal was never ranked |
| Search.SumJumps | src/structs/search.go:107-110 | the distance is the path length, summed from each system back to the one before |
| Search.LengthsAgree | src/structs/search.go:107-110 | the older path length equals the newer stop total over the same chain |
| Search.LegacyFindPath | src/structs/search.go:65-147 | the older search: a found route is a chain ending at `to` in jumps below `maxJump`, starting at `from` whenever `to` was expanded and otherwise `to` alone, after another system with `to`'s id; its distance is the path length, and `checks` counts the systems expanded |
| Recursive.Arrived | src/structs/search.go:170-176 | the base route: one stop at `from`, no distance |
| Recursive.Keep | src/structs/search.go:186-193 | the first route is kept; a strictly shorter one replaces it; a nil after a kept route is a nil dereference |
| Recursive.NilAfterRoute | src/structs/search.go:190 | a nil route met after a kept route is dereferenced |
| Recursive.FindRouteFrom | src/structs/search.go:168-196 | as written: the base route when the ids match, nil at the hop limit; any route returned is a single stop with no distance |
| Recursive.FindRoute | src/structs/search.go:61-63 | the recursive search from depth zero, with the same guarantees |
| Recursive.Better | src/structs/search.go:190-192 | the selection with nil passed over: the shorter of two routes, the earlier on a tie |
| Recursive.PathLengthCons | src/structs/search.go:107-110 | putting a system in front of a path adds the jump from the path's first system back to it |
| Recursive.Extend | src/structs/search.go:168-196 | the route from `from`: `from` put in front of the neighbour's route |
| Recursive.ExtendChains | src/structs/search.go:168-196 | a chain from a neighbour within one jump, extended by `from`, is a chain from `from` one hop longer |
| Recursive.FindRouteCorrected | src/structs/search.go:168-196 | as intended: every route is a chain from `from` to the goal's id, in jumps below `maxJump` and within the hops left, with its true length; never a nil dereference |
| Planner.PermutationsSound | spacecrawl/spacecrawl.go:224-227 | every generated ordering is a permutation of the visits |
| Planner.PermutationsComplete | spacecrawl/spacecrawl.go:224-227 | every permutation of the visits is generated |
| Planner.PermutationsCount | spacecrawl/spacecrawl.go:224-227 | there are n! orderings of n visits |
| Planner.FramedShape | spacecrawl/spacecrawl.go:230-236 | an order holds the start (when set), the ordering, then the end (when set) |
| Planner.GetVariants | spacecrawl/spacecrawl.go:215-242 | the loop yields the framed orderings, or `[start, end]` when there are no visits |
| Planner.VariantsCount | spacecrawl/spacecrawl.go:215-242 | there are n! visiting orders for n visits |
| Planner.VariantsSound | spacecrawl/spacecrawl.go:215-242 | each order frames some permutation of the visits |
| Planner.VariantsComplete | spacecrawl/spacecrawl.go:215-242 | every permutation of the visits, framed, is an order |
| Planner.VariantsNonEmpty | spacecrawl/spacecrawl.go:215-242 | there is always at least one order |
| Planner.LoneVisit | spacecrawl/spacecrawl.go:219-241 | one visit with no ends gives the single one-id order |
| Planner.JoinLeg | spacecrawl/spacecrawl.go:144-148 | joining a marked leg keeps the folded shape (requested stops are exactly the start and the leg ends), and distances add |
| Planner.LegFound | spacecrawl/spacecrawl.go:143 | a leg from `FindPath` has non-nil systems, no requested stop, no distance on its first stop, and each later stop the jump from the one before, below 18 |
| Planner.Marked | spacecrawl/spacecrawl.go:144-146 | marking keeps every system and distance; a stop is requested iff it is the first, the last, or was requested already |
| Planner.MarkEnds | spacecrawl/spacecrawl.go:144-146 | a marked leg has exactly its ends requested and keeps its total |
| Planner.FoldLegsShape | spacecrawl/spacecrawl.go:136-157 | folding legs onto the requested start gives a route whose requested stops are exactly the start and each leg's end |
| Planner.FoldLegsEnds | spacecrawl/spacecrawl.go:142-157 | in the fold of the legs of a variant, the end of leg k is the system of id k+1 |
| Planner.FoldLegsTotal | spacecrawl/spacecrawl.go:142-157 | the fold's total distance is the sum of the legs' totals |
| Planner.SearchLeg | spacecrawl/spacecrawl.go:143 | `FindPath` with `MaxJump` 18 and `MaxHops` 100: succeeds iff the search found a route, and that route is a leg from `now` to `next` as `FindPath` states it (from `now`, or `next` alone after another system with `next`'s id); equal ids always succeed with the single stop |
| Planner.AddLeg | spacecrawl/spacecrawl.go:143-148 | on success the found leg is such a leg from `now` to `next`, the route's stops become the old stops joined with the marked leg, the distance stays the stop total, one check or more is added, and `next` becomes the destination; equal ids always succeed |
| Planner.FoldLeg | spacecrawl/spacecrawl.go:142-151 | one round of the loop: on success the legs grow by one leg of `FindPath` from the system of the order after the last leg found to the next one, the route stays their fold onto the start with `next` as destination and its stop total as distance; equal ids always succeed |
| Planner.FoldVariant | spacecrawl/spacecrawl.go:122-161 | the systems are the graph's systems of the ids. Fewer than two ids, or an unknown first or second id, panics. A folded route is the fold of one leg per consecutive pair, each a leg of `FindPath` from the pair's first system to its second, from the first system to the last, with its stop total as distance. A panic happens only at a stalled pair, right after the legs found: fewer than two ids, a missing system, or two different ids |
| Planner.FoldOfShape | spacecrawl/spacecrawl.go:122-161 | a folded route's requested stops are exactly the start and the leg ends, and each leg end is the system of the next id |
| Planner.LegsChained | spacecrawl/spacecrawl.go:136-157 | over a graph whose members carry distinct ids, every leg of a fold starts at its system of the order, and a one-stop leg joins a system to itself |
| Planner.FoldsChained | spacecrawl/spacecrawl.go:120-161 | over a graph whose members carry distinct ids, every leg of every folded order starts at its system of the order |
| Planner.FoldVariants | spacecrawl/spacecrawl.go:120-161 | either every order is folded, each route the fold of its order, or some order stalls |
| Planner.SelectShortest | spacecrawl/spacecrawl.go:172-181 | none iff there are no routes; otherwise a route of least distance, and the earliest of them |
| Planner.PlanOrders | spacecrawl/spacecrawl.go:120-198 | a crash only when some order stalls; otherwise the answer is the earliest of least distance among the folds of all orders |
| Planner.PlanRoute | spacecrawl/spacecrawl.go:47-199 | see the paragraph after this table |
| Autocomplete.LowerChar | structs/autocomplete.go:45 | upper-case ASCII letters map to lower case; other characters are kept |
| Autocomplete.ToLower | structs/autocomplete.go:45 | lower-casing keeps the length and maps each character |
| Autocomplete.ToLowerIdempotent | structs/autocomplete.go:45 | lower-casing twice equals lower-casing once |
| Autocomplete.ContainsAt | structs/autocomplete.go:45 | `Contains` holds iff the fragment occurs at some offset |
| Autocomplete.MatchingMembers | structs/autocomplete.go:44-47 | a record is matched iff it is a record whose lower-cased name contains the lower-cased fragment |
| Autocomplete.MatchingAppend | structs/autocomplete.go:44-47 | matching keeps record order |
| Autocomplete.MatchingPrefix | structs/autocomplete.go:44-53 | the matches of the first n records are a prefix of all matches |
| Autocomplete.MatchingEmptyFragment | structs/autocomplete.go:44-47 | the empty fragment matches every record |
| Autocomplete.Matcher.constructor | structs/autocomplete.go:14-17 | a new matcher has no records |
| Autocomplete.Matcher.Add | structs/autocomplete.go:33-35 | the record is appended |
| Autocomplete.Matcher.GetAll | structs/autocomplete.go:40-56 | a positive limit gives the first `limit` matches, in order. A zero limit gives every match when the first record matches, else nothing |
| Autocomplete.ResultsMatch | structs/autocomplete.go:37-56 | every record returned is a stored record that matches |
| Autocomplete.EmptyFragmentPrefix | structs/autocomplete.go:40-56 | an empty fragment returns the first `limit` records |
| Autocomplete.SearchNames | spacecrawl/spacecrawl.go:204-209 | `/search` returns the first five matches of the query |
| Reducer.RequestedOnly | web/src/reducers/index.js:26 | only requested stops are kept, and never more than given |
| Reducer.RequestedOnlyAppend | web/src/reducers/index.js:26 | the filter keeps order |
| Reducer.RequestedOnlyMembers | web/src/reducers/index.js:79-80 | an entry is kept iff it is in the list and requested |
| Reducer.Ids | web/src/reducers/index.js:26 | the ids are the stops' system ids, position by position |
| Reducer.AddVisitOnce | web/src/reducers/index.js:26-27 | the requested ids come first, unchanged; the target is in the visit exactly once unless it was already there |
| Reducer.OtherSystems | web/src/reducers/index.js:81 | only stops are kept, never collapsed legs |
| Reducer.OtherSystemsMembers | web/src/reducers/index.js:81 | an entry is kept iff it is a stop whose system is not the target |
| Reducer.RemoveKept | web/src/reducers/index.js:79-81 | the remaining entries are all stops |
| Reducer.RemoveKeptMembers | web/src/reducers/index.js:79-81 | an entry remains iff it is a requested stop of another system |
| Reducer.Add | web/src/reducers/index.js:25-33 | the state is unchanged except `updatingRoute`; the request goes through the requested ids plus the target |
| Reducer.Remove | web/src/reducers/index.js:78-90 | throws iff no requested stop of another system remains; otherwise those stops replace the list and the request goes from the first of them through the rest |
| Reducer.Collapse | web/src/reducers/index.js:44-66 | the loop computes the collapsed list |
| Reducer.ExpandCollapsing | web/src/reducers/index.js:44-66 | expanding the collapsed legs gives the stops up to the last requested one; a trailing run is dropped |
| Reducer.CollapsingShape | web/src/reducers/index.js:44-66 | each collapsed leg has a non-empty run and is followed by a requested stop |
| Reducer.CollapsingKeepsRequested | web/src/reducers/index.js:44-66 | the requested stops survive collapsing, in order |
| Reducer.Hundredths | web/src/reducers/index.js:71 | the distance rounded down to hundredths lies within 0.01 below the original |
| Reducer.Source | web/src/reducers/index.js:39-41 | the stop list, else the origin alone, else the destination alone, else the current list |
| Reducer.Update | web/src/reducers/index.js:35-76 | see the paragraph after this table |
| Reducer.Reduce | web/src/reducers/index.js:17-95 | `ADD` and `REMOVE` as above; `ROUTE_UPDATE_SUCCESS` with the full `Update` result, a missing route throwing; any other action returns the state unchanged |

`Planner.PlanRoute` states what the handler does for each request:

- Bad request iff neither `from` nor `to` is given.
- Not found iff there are no visits and no ids.
- Only one end and no visits: a route of that end alone, marked requested.
- A lone visit with no ends: a crash.
- Otherwise every visiting order of `getVariants` is folded leg by leg. The answer is the fold of one of them, the earliest of least distance among all the folds.
- A crash only when some order stalls at a pair: it has fewer than two ids, or the pair has an id with no system, or the pair's ids differ. The legs before that pair were all found.

`Reducer.Update` states:

- A missing route throws.
- The stops become the collapsed source list.
- The origin and destination are taken only when present.
- The distance is taken only when non-zero, rounded down to hundredths.
- `updatingRoute` is cleared and no request is made.

## Left out

- HTTP parsing, `strconv.Atoi`, JSON responses and the prints are left out. `Planner.PlanRoute` takes whether `from` and `to` were given and their parsed ids (0 when unparsable).
- Loading from disk (`Connect`, protobuf) and the bolt database of the older entities file are left out. A database is a list of systems.
- Goroutines, the channel and the wait group are left out. The variants are folded one after the other, in generation order.
  - With a different arrival order, a different route of equal least distance can win.
  - Before Go 1.22, the goroutines capture the loop variable `variant`, so they may fold the same order more than once. The model folds each order once.
- The order in which the permutation generator yields orderings is left out. The model yields a fixed order and proves that it yields exactly the permutations, n! of them.
- Floating point and `math.Sqrt` are not modelled. Coordinates are reals, and the distance is a metric whose square is the squared coordinate distance. Rounding is not modelled.
- `GetRandom` uses randomness and is documented as test-only, so it is left out.
- `costToDestination` is written but never read, so it is left out.
- `NewAutocomplete` is left out. As written, it passes a callback of the wrong type to `ForEachSystem`.
- The user interface components and the fetch calls of the web client are left out. `RequestRoute` is returned as a value.
- Graph.SpaceGraph.NearbyBuckets: requires every probe to land in the grid. The source indexes out of range otherwise, and `Search.Neighbours` turns that case into a panic result before calling it.
- Graph.SpaceGraph: one class models both graph files. They differ only in the search and in `Load`. In the older `Load`, each callback adds a pointer to a copy of the database system, so the graph does not share the database's systems. That aliasing is not modelled.
- Recursive.FindRouteFrom: requires `0 <= depth <= maxHops`. With a negative hop limit the source recurses without bound.
- Autocomplete.Matcher.GetAll: requires `0 <= limit`, because `make` panics on a negative capacity.
- Autocomplete.ToLower: lower-cases ASCII letters only. Go's `strings.ToLower` also maps other Unicode letters.
- Planner.FoldVariant: a pair of different ids counts as stalled whether or not the graph has a path between them. `Search.FindPath` states what a found route is, not when the search finds none, so a crash is not tied to the graph having no path.
- Reducer.Update: the origin and destination are kept as system ids rather than as the system objects.
- Reducer: a stop whose `System` is null makes `ADD` and `REMOVE` throw. Stops always carry a system id here.
- Reducer: the state is copied shallowly, so setting `ui.updatingRoute` also changes the previous state's `ui` object. The model keeps the flag in the new state only.
- Reducer: a `TotalDistance` summed over stops whose distances are missing is not a number. The model gives `None`.
- The test files' assertions are not modelled. They use `NotEqual`, which compares a popped id with the expected id and a stop pointer with an int. `Priority.PopOrderSample` proves the intended order instead.
- Search.FindPath: that the search test (src/structs/search_test.go:11-22) returns exactly the path [1, 6, 4] is not derived. The contract states every route the search may return, not which one the heap's order and the bucket scan order select. `Search.SampleLeg` proves that [1, 6, 4] is such a route and that 4 is not one jump from 1.

## Findings

| source | as written | input that shows it | evidently intended | confidence | as-written member | corrected member |
|---|---|---|---|---|---|---|
| src/structs/search.go:186-195 | the loop keeps a neighbour's route as it is, so every route found is one stop at the goal with distance 0 | two systems, id 1 at (0,0,0) and id 2 at (1,0,0), in one bucket; `FindRoute(1, 2)` with `MaxJump` 5 and `MaxHops` 1 returns the stops [2] and distance 0 | put `from` in front of the best neighbour's route and add that jump, giving [1, 2] and distance 1 | not executed | Recursive.FindRouteFrom | Recursive.FindRouteCorrected |
| src/structs/search.go:190 | `route.Distance` is read when a later neighbour returns nil after a route was kept | the six-site sample in one bucket of `InitGraph(1000)`; `FindRoute(1, 3)` with `MaxJump` 5 and `MaxHops` 1. Site 3 returns a route, then site 5 returns nil and is dereferenced | pass over nil routes | not executed | Recursive.NilAfterRoute | Recursive.Better |
