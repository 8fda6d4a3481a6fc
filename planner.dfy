/**
 * The itinerary planner of the `/route` handler (spacecrawl/spacecrawl.go):
 * the visiting orders it tries (`getVariants`), the answers it gives when
 * fewer than two systems are named, the fold of the legs of one order into a
 * route, and the choice of the shortest route over all orders. The handler's
 * goroutines, channel and wait group are replaced by a sequential fold over
 * the orders, taken in the order their results arrive.
 */
module Planner {
  import opened Wrappers
  import opened Entities
  import opened Graph
  import opened Routes
  import opened Search

  // ---------------------------------------------------------------------------
  // Visiting orders

  /** `v` without its element at `i`. */
  function RemoveAt(v: seq<int>, i: int): (r: seq<int>)
    requires 0 <= i < |v|
    ensures |r| == |v| - 1
  {
    v[..i] + v[i + 1..]
  }

  /** `x` put in front of every sequence of `ps`. */
  function Prepend(x: int, ps: seq<seq<int>>): (r: seq<seq<int>>)
    ensures |r| == |ps| && forall k | 0 <= k < |ps| :: r[k] == [x] + ps[k]
  {
    seq(|ps|, k requires 0 <= k < |ps| => [x] + ps[k])
  }

  /**
   * Every ordering of `v`, one per choice of first element at each step
   * (the enumeration the permutation generator is taken to make; its own
   * order is not modelled).
   */
  function Permutations(v: seq<int>): seq<seq<int>>
    decreases |v|, |v| + 1
  {
    if v == [] then [[]] else PermsFrom(v, 0)
  }

  /** The orderings of `v` whose first element is taken from index `i` on. */
  function PermsFrom(v: seq<int>, i: int): seq<seq<int>>
    requires 0 <= i <= |v|
    decreases |v|, |v| - i
  {
    if i == |v| then [] else Prepend(v[i], Permutations(RemoveAt(v, i))) + PermsFrom(v, i + 1)
  }

  function Factorial(n: nat): nat
  {
    if n == 0 then 1 else n * Factorial(n - 1)
  }

  lemma RemoveAtMultiset(v: seq<int>, i: int)
    requires 0 <= i < |v|
    ensures multiset(RemoveAt(v, i)) + multiset{v[i]} == multiset(v)
  {
    assert v == v[..i] + [v[i]] + v[i + 1..];
  }

  /** Every ordering generated has the same elements as `v`, as often. */
  lemma {:induction false} PermutationsSound(v: seq<int>, p: seq<int>)
    requires p in Permutations(v)
    ensures multiset(p) == multiset(v)
    decreases |v|, |v| + 1
  {
    if v != [] {
      PermsFromSound(v, 0, p);
    }
  }

  lemma {:induction false} PermsFromSound(v: seq<int>, i: int, p: seq<int>)
    requires 0 <= i <= |v| && p in PermsFrom(v, i)
    ensures multiset(p) == multiset(v)
    decreases |v|, |v| - i
  {
    var head := Prepend(v[i], Permutations(RemoveAt(v, i)));
    if p in head {
      var k :| 0 <= k < |head| && head[k] == p;
      var q := Permutations(RemoveAt(v, i))[k];
      PermutationsSound(RemoveAt(v, i), q);
      RemoveAtMultiset(v, i);
      assert p == [v[i]] + q;
    } else {
      PermsFromSound(v, i + 1, p);
    }
  }

  /** Every ordering of `v` is generated. */
  lemma {:induction false} PermutationsComplete(v: seq<int>, p: seq<int>)
    requires multiset(p) == multiset(v)
    ensures p in Permutations(v)
    decreases |v|
  {
    if v == [] {
      assert p == [];
    } else {
      assert |p| == |multiset(p)| == |v|;
      assert p[0] in multiset(v);
      var i :| 0 <= i < |v| && v[i] == p[0];
      RemoveAtMultiset(v, i);
      assert p == [p[0]] + p[1..];
      assert multiset(p) == multiset{p[0]} + multiset(p[1..]);
      assert multiset(p[1..]) == multiset(p) - multiset{p[0]};
      assert multiset(RemoveAt(v, i)) == multiset(v) - multiset{v[i]};
      PermutationsComplete(RemoveAt(v, i), p[1..]);
      PermsFromHas(v, 0, i, p[1..]);
    }
  }

  lemma {:induction false} PermsFromHas(v: seq<int>, j: int, i: int, q: seq<int>)
    requires 0 <= j <= i < |v| && q in Permutations(RemoveAt(v, i))
    ensures [v[i]] + q in PermsFrom(v, j)
    decreases i - j
  {
    if j == i {
      var ps := Permutations(RemoveAt(v, i));
      var k :| 0 <= k < |ps| && ps[k] == q;
      assert Prepend(v[i], ps)[k] == [v[i]] + q;
    } else {
      PermsFromHas(v, j + 1, i, q);
    }
  }

  /** There are `|v|!` orderings. */
  lemma {:induction false} PermutationsCount(v: seq<int>)
    ensures |Permutations(v)| == Factorial(|v|)
    decreases |v|, |v| + 1
  {
    if v != [] {
      PermsFromCount(v, 0);
    }
  }

  lemma {:induction false} PermsFromCount(v: seq<int>, i: int)
    requires 0 <= i <= |v| && v != []
    ensures |PermsFrom(v, i)| == (|v| - i) * Factorial(|v| - 1)
    decreases |v|, |v| - i
  {
    if i < |v| {
      var f, n := Factorial(|v| - 1), |v| - i;
      PermutationsCount(RemoveAt(v, i));
      PermsFromCount(v, i + 1);
      assert |PermsFrom(v, i + 1)| == (n - 1) * f;
      assert |PermsFrom(v, i)| == f + |PermsFrom(v, i + 1)|;
      MulStep(n, f);
    }
  }

  lemma MulStep(n: int, f: int)
    requires 0 < n
    ensures n * f == f + (n - 1) * f
  {
  }

  /** One visiting order: `start` first when set, then `middle`, then `end` when set (0 means unset). */
  function Framed(start: int, middle: seq<int>, end: int): seq<int>
  {
    (if start != 0 then [start] else []) + middle + (if end != 0 then [end] else [])
  }

  /** A visiting order frames an ordering of the visits with the ends that are set, and nothing else. */
  lemma FramedShape(start: int, middle: seq<int>, end: int)
    ensures var f := Framed(start, middle, end);
      var s := if start != 0 then 1 else 0;
      var e := if end != 0 then 1 else 0;
      && |f| == s + |middle| + e
      && f[s..|f| - e] == middle
      && (start != 0 ==> f[0] == start)
      && (end != 0 ==> f[|f| - 1] == end)
  {
  }

  /**
   * The visiting orders of `getVariants`: without visits, the single order
   * `[start, end]` whatever the two are; otherwise one order per ordering of
   * the visits, framed by the ends that are set.
   */
  function Variants(start: int, end: int, visit: seq<int>): seq<seq<int>>
  {
    if visit == [] then [[start, end]]
    else
      var perms := Permutations(visit);
      seq(|perms|, k requires 0 <= k < |perms| => Framed(start, perms[k], end))
  }

  /** `getVariants`: collects the framed orderings one by one. */
  method GetVariants(start: int, end: int, visit: seq<int>) returns (variants: seq<seq<int>>)
    ensures variants == Variants(start, end, visit)
  {
    if |visit| == 0 {
      variants := [[start, end]];
      return;
    }
    var perms := Permutations(visit);
    variants := [];
    for n := 0 to |perms|
      invariant |variants| == n
      invariant forall k | 0 <= k < n :: variants[k] == Framed(start, perms[k], end)
    {
      variants := variants + [Framed(start, perms[n], end)];
    }
  }

  /** The order at `k` frames the ordering of the visits at `k`. */
  lemma VariantAt(start: int, end: int, visit: seq<int>, k: int)
    requires visit != [] && 0 <= k < |Permutations(visit)|
    ensures |Variants(start, end, visit)| == |Permutations(visit)|
    ensures Variants(start, end, visit)[k] == Framed(start, Permutations(visit)[k], end)
  {
  }

  /** For non-empty visits there are `|visit|!` orders. */
  lemma VariantsCount(start: int, end: int, visit: seq<int>)
    requires visit != []
    ensures |Variants(start, end, visit)| == Factorial(|visit|)
  {
    PermutationsCount(visit);
  }

  /** Each order tried for non-empty visits frames an ordering of the visits. */
  lemma VariantsSound(start: int, end: int, visit: seq<int>, k: int)
    requires visit != [] && 0 <= k < |Variants(start, end, visit)|
    ensures exists m :: Variants(start, end, visit)[k] == Framed(start, m, end) && multiset(m) == multiset(visit)
  {
    var m := Permutations(visit)[k];
    VariantAt(start, end, visit, k);
    PermutationsSound(visit, m);
  }

  /** Every ordering of the visits, framed, is an order tried. */
  lemma VariantsComplete(start: int, end: int, visit: seq<int>, m: seq<int>)
    requires visit != [] && multiset(m) == multiset(visit)
    ensures Framed(start, m, end) in Variants(start, end, visit)
  {
    PermutationsComplete(visit, m);
    var ps := Permutations(visit);
    var k :| 0 <= k < |ps| && ps[k] == m;
    VariantAt(start, end, visit, k);
  }

  /** There is always at least one order to try. */
  lemma {:induction false} VariantsNonEmpty(start: int, end: int, visit: seq<int>)
    ensures Variants(start, end, visit) != []
  {
    if visit != [] {
      PermutationsComplete(visit, visit);
    }
  }

  /** With visits and no end set, a single visit gives a one-system order. */
  lemma LoneVisit(x: int)
    ensures Variants(0, 0, [x]) == [[x]]
  {
    assert RemoveAt([x], 0) == [];
    assert PermsFrom([x], 1) == [];
    assert Permutations([]) == [[]];
    assert Prepend(x, [[]])[0] == [x];
    assert Prepend(x, Permutations([])) == [[x]];
    assert PermsFrom([x], 0) == [[x]];
    assert Framed(0, [x], 0) == [x];
    assert Variants(0, 0, [x])[0] == Framed(0, [x], 0);
  }

  // ---------------------------------------------------------------------------
  // Folding the legs of one order

  /** The routing constraints every leg is searched with. */
  const MaxJump := 18.0
  const MaxHops := 100

  /** The summed `distanceFromPrev` depends only on the distances, not on the stops' other fields. */
  lemma {:induction false} TotalByDistances(a: seq<SpaceStop>, b: seq<SpaceStop>)
    requires |a| == |b| && forall k | 0 <= k < |a| :: a[k].distanceFromPrev == b[k].distanceFromPrev
    ensures Total(a) == Total(b)
    decreases |a|
  {
    if a != [] {
      TotalByDistances(a[..|a| - 1], b[..|b| - 1]);
    }
  }

  /**
   * The stops folded so far: the requested start, then jumps shorter than
   * `MaxJump` between systems; `ends` holds the index of the last stop after
   * each leg, and the requested stops are exactly the start and those.
   */
  ghost predicate FoldedStops(stops: seq<SpaceStop>, start: SpaceSystem?, ends: seq<int>)
  {
    && stops != [] && stops[0] == SpaceStop(start, 0.0, true)
    && (ends == [] ==> |stops| == 1)
    && (forall j | 0 < j < |stops| :: stops[j].system != null && stops[j].distanceFromPrev < MaxJump)
    && (forall k | 0 <= k < |ends| :: 0 <= ends[k] < |stops|)
    && (forall k | 0 < k < |ends| :: ends[k - 1] <= ends[k])
    && (ends != [] ==> ends[|ends| - 1] == |stops| - 1)
    && (forall j | 0 <= j < |stops| :: stops[j].requestedStop <==> j == 0 || j in ends)
  }

  /** A leg as the handler merges it: both ends marked requested, the stops between not. */
  ghost predicate MarkedLeg(leg: seq<SpaceStop>)
  {
    && leg != [] && leg[0].distanceFromPrev == 0.0
    && (forall j | 0 < j < |leg| :: leg[j].system != null && leg[j].distanceFromPrev < MaxJump)
    && (forall j | 0 <= j < |leg| :: leg[j].requestedStop <==> j == 0 || j == |leg| - 1)
  }

  /** Joining a marked leg keeps the folded shape, with the new last stop as the leg's end, and adds the leg's total. */
  lemma JoinLeg(stops: seq<SpaceStop>, start: SpaceSystem?, ends: seq<int>, leg: seq<SpaceStop>)
    requires FoldedStops(stops, start, ends) && MarkedLeg(leg)
    ensures FoldedStops(Joined(stops, leg), start, ends + [|Joined(stops, leg)| - 1])
    ensures Total(Joined(stops, leg)) == Total(stops) + Total(leg)
  {
    TotalJoined(stops, leg);
    var joined := Joined(stops, leg);
    var ends' := ends + [|joined| - 1];
    forall j | 0 <= j < |joined|
      ensures joined[j].requestedStop <==> j == 0 || j in ends'
    {
      if j < |stops| {
        assert joined[j] == stops[j];
        if j == |joined| - 1 && j != 0 {
          assert ends != [] && ends[|ends| - 1] == j;
        }
      } else {
        assert joined[j] == leg[j - |stops| + 1];
        assert j !in ends;
      }
    }
  }

  /** A stop list as a leg search returns it: nothing requested, jumps shorter than `MaxJump` between systems. */
  ghost predicate FoundLeg(leg: seq<SpaceStop>)
  {
    && leg != [] && leg[0].distanceFromPrev == 0.0
    && (forall j | 0 <= j < |leg| :: leg[j].system != null && !leg[j].requestedStop)
    && (forall j | 0 < j < |leg| :: leg[j].distanceFromPrev < MaxJump)
  }

  /** The stops of a leg `FindPath` found under `MaxJump` have the shape the fold needs. */
  lemma LegFound(leg: seq<SpaceStop>, members: set<SpaceSystem>, from: SpaceSystem, to: SpaceSystem, dist: Metric)
    requires LegStops(leg, members, from, to, dist, MaxJump)
    ensures FoundLeg(leg)
  {
    forall j | 0 < j < |leg|
      ensures leg[j].distanceFromPrev < MaxJump
    {
      assert Hop(leg, j, dist, MaxJump);
    }
  }

  /** A leg's stops with the first and the last marked requested, as the handler marks them before merging. */
  function Marked(leg: seq<SpaceStop>): (marked: seq<SpaceStop>)
    requires leg != []
    ensures |marked| == |leg|
    ensures forall j | 0 <= j < |leg| :: marked[j].system == leg[j].system && marked[j].distanceFromPrev == leg[j].distanceFromPrev
    ensures forall j | 0 <= j < |leg| :: marked[j].requestedStop <==> j == 0 || j == |leg| - 1 || leg[j].requestedStop
  {
    var first := leg[0 := leg[0].(requestedStop := true)];
    first[|leg| - 1 := first[|leg| - 1].(requestedStop := true)]
  }

  /** A found leg, once its ends are marked requested, is a marked leg of the same total. */
  lemma MarkEnds(leg: seq<SpaceStop>)
    requires FoundLeg(leg)
    ensures MarkedLeg(Marked(leg)) && Total(Marked(leg)) == Total(leg)
  {
    var marked := Marked(leg);
    TotalByDistances(marked, leg);
    forall j | 0 < j < |marked|
      ensures marked[j].system != null && marked[j].distanceFromPrev < MaxJump
    {
      assert leg[j].system != null && leg[j].distanceFromPrev < MaxJump;
    }
  }

  /**
   * The stops of an order folded from its legs: the requested first system,
   * then each leg, marked, after its first stop, in turn.
   */
  function FoldLegs(start: SpaceSystem?, legs: seq<seq<SpaceStop>>): seq<SpaceStop>
    requires forall k | 0 <= k < |legs| :: legs[k] != []
  {
    if legs == [] then [SpaceStop(start, 0.0, true)]
    else Joined(FoldLegs(start, legs[..|legs| - 1]), Marked(legs[|legs| - 1]))
  }

  /** Where each leg ends in `FoldLegs`: every leg adds its stops after the first. */
  function LegEnds(legs: seq<seq<SpaceStop>>): (ends: seq<int>)
    ensures |ends| == |legs|
  {
    if legs == [] then []
    else
      var init := LegEnds(legs[..|legs| - 1]);
      init + [(if init == [] then 0 else init[|init| - 1]) + |legs[|legs| - 1]| - 1]
  }

  /** A fold has one stop more than the index its last leg ends at. */
  lemma {:induction false} FoldLegsLength(start: SpaceSystem?, legs: seq<seq<SpaceStop>>)
    requires forall k | 0 <= k < |legs| :: legs[k] != []
    ensures |FoldLegs(start, legs)| == 1 + (if legs == [] then 0 else LegEnds(legs)[|legs| - 1])
    decreases |legs|
  {
    if legs != [] {
      var init, last := legs[..|legs| - 1], legs[|legs| - 1];
      FoldLegsLength(start, init);
      var ends := LegEnds(init);
      assert LegEnds(legs) == ends + [(if ends == [] then 0 else ends[|ends| - 1]) + |last| - 1];
      assert FoldLegs(start, legs) == Joined(FoldLegs(start, init), Marked(last));
    }
  }

  /** The leg ends are in order, from at least 0 up to the last leg's end. */
  lemma {:induction false} LegEndsOrdered(legs: seq<seq<SpaceStop>>)
    requires forall k | 0 <= k < |legs| :: legs[k] != []
    ensures forall k | 0 <= k < |legs| :: 0 <= LegEnds(legs)[k] <= LegEnds(legs)[|legs| - 1]
    decreases |legs|
  {
    if legs != [] {
      var init, last := legs[..|legs| - 1], legs[|legs| - 1];
      LegEndsOrdered(init);
      var ends := LegEnds(init);
      assert LegEnds(legs) == ends + [(if ends == [] then 0 else ends[|ends| - 1]) + |last| - 1];
    }
  }

  /** The last leg of a fold ends at its last stop. */
  lemma LastLegEnd(start: SpaceSystem?, legs: seq<seq<SpaceStop>>)
    requires legs != [] && forall k | 0 <= k < |legs| :: legs[k] != []
    ensures LegEnds(legs) == LegEnds(legs[..|legs| - 1]) + [|FoldLegs(start, legs)| - 1]
  {
    FoldLegsLength(start, legs);
    assert LegEnds(legs) == LegEnds(legs[..|legs| - 1]) + [LegEnds(legs)[|legs| - 1]];
  }

  /**
   * A fold of found legs starts with the requested first system, keeps every
   * jump below `MaxJump`, and its requested stops are exactly the start and
   * the leg ends, the last of which is the last stop.
   */
  lemma {:induction false} FoldLegsShape(start: SpaceSystem?, legs: seq<seq<SpaceStop>>)
    requires forall k | 0 <= k < |legs| :: legs[k] != [] && FoundLeg(legs[k])
    ensures FoldedStops(FoldLegs(start, legs), start, LegEnds(legs))
    decreases |legs|
  {
    if legs != [] {
      var init, last := legs[..|legs| - 1], legs[|legs| - 1];
      FoldLegsShape(start, init);
      MarkEnds(last);
      JoinLeg(FoldLegs(start, init), start, LegEnds(init), Marked(last));
      LastLegEnd(start, legs);
    }
  }

  /** In a fold of the legs of an order, each leg longer than one stop ends at the next system of the order. */
  lemma {:induction false} FoldLegsEnds(systems: seq<SpaceSystem?>, members: set<SpaceSystem>, dist: Metric, legs: seq<seq<SpaceStop>>)
    requires LegsOf(systems, members, dist, legs)
    ensures forall k | 0 <= k < |legs| && 1 < |legs[k]| ::
      0 <= LegEnds(legs)[k] < |FoldLegs(systems[0], legs)| && FoldLegs(systems[0], legs)[LegEnds(legs)[k]].system == systems[k + 1]
    decreases |legs|
  {
    FoldLegsLength(systems[0], legs);
    LegEndsOrdered(legs);
    if legs != [] {
      var init, last := legs[..|legs| - 1], legs[|legs| - 1];
      forall k | 0 <= k < |init|
        ensures init[k] != [] && LegOf(systems, members, dist, init, k)
      {
        assert legs[k] != [] && LegOf(systems, members, dist, legs, k);
      }
      assert LegsOf(systems, members, dist, init);
      FoldLegsEnds(systems, members, dist, init);
      LastLegEnd(systems[0], legs);
      assert LegOf(systems, members, dist, legs, |init|);
      var before, marked := FoldLegs(systems[0], init), Marked(last);
      var joined := Joined(before, marked);
      assert joined == FoldLegs(systems[0], legs);
      forall k | 0 <= k < |legs| && 1 < |legs[k]|
        ensures joined[LegEnds(legs)[k]].system == systems[k + 1]
      {
        if k < |init| {
          assert legs[k] == init[k] && LegEnds(legs)[k] == LegEnds(init)[k];
          assert joined[LegEnds(init)[k]] == before[LegEnds(init)[k]];
        } else {
          assert joined[|joined| - 1] == marked[|marked| - 1];
        }
      }
    }
  }

  /** Leg `k` of `legs` is a route the leg search can return between the `k`th and the next system of the order. */
  ghost predicate LegOf(systems: seq<SpaceSystem?>, members: set<SpaceSystem>, dist: Metric, legs: seq<seq<SpaceStop>>, k: int)
    requires 0 <= k < |legs| && k + 1 < |systems|
  {
    && systems[k] != null && systems[k + 1] != null
    && LegStops(legs[k], members, systems[k], systems[k + 1], dist, MaxJump)
  }

  /** Every one of `legs` is non-empty and a leg of the order (see `LegOf`). */
  ghost predicate LegsOf(systems: seq<SpaceSystem?>, members: set<SpaceSystem>, dist: Metric, legs: seq<seq<SpaceStop>>)
  {
    && |legs| < |systems|
    && forall k | 0 <= k < |legs| :: legs[k] != [] && LegOf(systems, members, dist, legs, k)
  }

  /** The sum of the legs' totals. */
  function SumTotals(legs: seq<seq<SpaceStop>>): real
  {
    if legs == [] then 0.0 else SumTotals(legs[..|legs| - 1]) + Total(legs[|legs| - 1])
  }

  /** The distance of a folded order is the sum of its legs' distances, as `Merge` adds them up. */
  lemma {:induction false} FoldLegsTotal(start: SpaceSystem?, legs: seq<seq<SpaceStop>>)
    requires forall k | 0 <= k < |legs| :: legs[k] != [] && FoundLeg(legs[k])
    ensures Total(FoldLegs(start, legs)) == SumTotals(legs)
    decreases |legs|
  {
    if legs == [] {
      assert FoldLegs(start, legs) == [] + [SpaceStop(start, 0.0, true)];
      TotalSnoc([], SpaceStop(start, 0.0, true));
    } else {
      var init, last := legs[..|legs| - 1], legs[|legs| - 1];
      FoldLegsTotal(start, init);
      MarkEnds(last);
      TotalJoined(FoldLegs(start, init), Marked(last));
    }
  }

  /** A leg found between the next two systems of the order extends the legs found so far. */
  lemma LegsExtended(systems: seq<SpaceSystem?>, members: set<SpaceSystem>, dist: Metric, legs: seq<seq<SpaceStop>>, found: seq<SpaceStop>)
    requires |legs| + 1 < |systems| && systems[|legs|] != null && systems[|legs| + 1] != null
    requires LegsOf(systems, members, dist, legs)
    requires LegStops(found, members, systems[|legs|], systems[|legs| + 1], dist, MaxJump)
    ensures LegsOf(systems, members, dist, legs + [found])
    ensures FoldLegs(systems[0], legs + [found]) == Joined(FoldLegs(systems[0], legs), Marked(found))
  {
    var legs' := legs + [found];
    assert legs'[..|legs|] == legs;
    forall k | 0 <= k < |legs'|
      ensures legs'[k] != [] && LegOf(systems, members, dist, legs', k)
    {
      if k < |legs| {
        assert legs[k] != [] && LegOf(systems, members, dist, legs, k);
      }
    }
  }

  /** The systems of an order's ids, `null` for an id the graph does not hold. */
  ghost function Systems(g: SpaceGraph, ids: seq<int>): (systems: seq<SpaceSystem?>)
    requires g.Valid()
    reads g, g.buckets, g.Members
    ensures |systems| == |ids| && forall k | 0 <= k < |ids| :: systems[k] == g.Get(ids[k])
  {
    if ids == [] then [] else Systems(g, ids[..|ids| - 1]) + [g.Get(ids[|ids| - 1])]
  }
  /**
   * The leg search of a goroutine: `FindPath` under `MaxJump` and `MaxHops`,
   * with `found` the stops of the route it returns. `ok` is false exactly
   * when it returns no route or panics, which it never does between systems
   * of one id.
   */
  method SearchLeg(g: SpaceGraph, dist: Metric, now: SpaceSystem, next: SpaceSystem)
    returns (ok: bool, leg: SpaceRoute?, ghost outcome: PathOutcome, ghost found: seq<SpaceStop>)
    requires g.Valid() && Euclidean(dist)
    ensures ok <==> outcome.Found?
    ensures ok ==> leg == outcome.route && fresh(leg) && RouteFrom(leg, g.Members, now, next, dist, MaxJump) && found == leg.stops
    ensures now.id == next.id ==> ok && found == [AsStop(next)]
  {
    var r;
    ghost var expanded;
    r, expanded := FindPath(g, dist, now, next, MaxJump, MaxHops);
    outcome := r;
    if !r.Found? {
      return false, null, outcome, [];
    }
    leg := r.route;
    found := leg.stops;
    ok := true;
  }

  /**
   * One leg of a goroutine's loop: the route from `now` to `next` found by
   * `FindPath` under `MaxJump` and `MaxHops`, its first and last stops marked
   * requested, merged onto `route`, so that the route goes on with the leg's
   * stops after its first. `false` is a panic: a leg without a route (a nil
   * dereference).
   */
  method AddLeg(g: SpaceGraph, dist: Metric, route: SpaceRoute, now: SpaceSystem, next: SpaceSystem)
    returns (ok: bool, ghost found: seq<SpaceStop>)
    requires g.Valid() && Euclidean(dist)
    requires route.distance == Total(route.stops)
    modifies route
    ensures now.id == next.id ==> ok
    ensures ok ==> && LegStops(found, g.Members, now, next, dist, MaxJump)
                   && route.stops == Joined(old(route.stops), Marked(found))
                   && route.distance == Total(route.stops) && route.checks >= old(route.checks) + 1
                   && route.origin == old(route.origin) && route.destination == Some(AsStop(next))
  {
    var leg;
    ghost var outcome;
    ok, leg, outcome, found := SearchLeg(g, dist, now, next);
    if !ok {
      return;
    }
    LegFound(found, g.Members, now, next, dist);
    MarkEnds(found);
    var last := |leg.stops| - 1;
    leg.stops := leg.stops[0 := leg.stops[0].(requestedStop := true)];
    leg.stops := leg.stops[last := leg.stops[last].(requestedStop := true)];
    assert leg.stops == Marked(found);
    TotalJoined(route.stops, Marked(found));
    route.Merge(leg);
  }

  /**
   * A fold of `variant` that cannot finish: fewer than two ids, or its leg
   * `k` has an id without a system or joins two different ids, the only legs
   * whose search may find no route.
   */
  ghost predicate Stalled(systems: seq<SpaceSystem?>, variant: seq<int>, k: int)
    requires |systems| == |variant|
  {
    || |variant| < 2
    || (0 <= k < |variant| - 1 && (systems[k] == null || systems[k + 1] == null || variant[k] != variant[k + 1]))
  }

  /** `route` is the order of `systems` folded over `legs`, one leg found between each pair of consecutive systems. */
  ghost predicate FoldOf(systems: seq<SpaceSystem?>, members: set<SpaceSystem>, dist: Metric, route: SpaceRoute, legs: seq<seq<SpaceStop>>)
    reads route
  {
    && 2 <= |systems| && |legs| == |systems| - 1
    && LegsOf(systems, members, dist, legs)
    && route.stops == FoldLegs(systems[0], legs)
    && route.origin == Some(AsStop(systems[0]))
    && route.destination == Some(AsStop(systems[|systems| - 1]))
    && route.distance == Total(route.stops) && route.checks >= |legs|
  }

  /**
   * A folded order has the folded shape: its requested stops are exactly
   * the start and the leg ends (see `FoldLegsShape`), and each leg longer
   * than one stop ends at the next system of the order.
   */
  lemma FoldOfShape(systems: seq<SpaceSystem?>, members: set<SpaceSystem>, dist: Metric, route: SpaceRoute, legs: seq<seq<SpaceStop>>)
    requires FoldOf(systems, members, dist, route, legs)
    ensures FoldedStops(route.stops, systems[0], LegEnds(legs))
    ensures forall k | 0 <= k < |legs| && 1 < |legs[k]| ::
      0 <= LegEnds(legs)[k] < |route.stops| && route.stops[LegEnds(legs)[k]].system == systems[k + 1]
  {
    forall k | 0 <= k < |legs|
      ensures legs[k] != [] && FoundLeg(legs[k])
    {
      assert LegOf(systems, members, dist, legs, k);
      LegFound(legs[k], members, systems[k], systems[k + 1], dist);
    }
    FoldLegsShape(systems[0], legs);
    FoldLegsEnds(systems, members, dist, legs);
  }

  /**
   * Over a graph whose members carry distinct ids, every leg of a folded
   * order starts at its system of the order, and a leg of a single stop
   * joins a system to itself.
   */
  lemma {:induction false} LegsChained(systems: seq<SpaceSystem?>, members: set<SpaceSystem>, dist: Metric, route: SpaceRoute, legs: seq<seq<SpaceStop>>)
    requires FoldOf(systems, members, dist, route, legs)
    requires forall k | 0 <= k < |systems| && systems[k] != null :: systems[k] in members
    requires forall x, y | x in members && y in members && x.id == y.id :: x == y
    ensures forall k | 0 <= k < |legs| :: legs[k][0].system == systems[k]
    ensures forall k | 0 <= k < |legs| && |legs[k]| == 1 :: systems[k] == systems[k + 1]
  {
    forall k | 0 <= k < |legs|
      ensures legs[k][0].system == systems[k]
    {
      assert LegOf(systems, members, dist, legs, k);
      StartsAtFrom(legs[k], members, systems[k], systems[k + 1], dist, MaxJump);
    }
  }

  /**
   * A goroutine's route part way through its order: `legs` found between
   * the first `|legs| + 1` systems, folded onto the start.
   */
  ghost predicate Folding(systems: seq<SpaceSystem?>, members: set<SpaceSystem>, dist: Metric, route: SpaceRoute, legs: seq<seq<SpaceStop>>)
    requires 1 <= |systems|
    reads route
  {
    && LegsOf(systems, members, dist, legs)
    && route.stops == FoldLegs(systems[0], legs)
    && route.origin == Some(AsStop(systems[0]))
    && (0 < |legs| ==> route.destination == Some(AsStop(systems[|legs|])))
    && route.distance == Total(route.stops) && route.checks >= |legs|
  }

  /**
   * One round of a goroutine's loop: the leg from system `|legs|` of the
   * order to the next one, added onto `route` by `AddLeg`. `false` is a
   * panic, which a pair of equal ids never causes.
   */
  method FoldLeg(g: SpaceGraph, dist: Metric, route: SpaceRoute, now: SpaceSystem, next: SpaceSystem,
                 ghost systems: seq<SpaceSystem?>, ghost legs: seq<seq<SpaceStop>>)
    returns (ok: bool, ghost legs': seq<seq<SpaceStop>>)
    requires g.Valid() && Euclidean(dist)
    requires |legs| + 1 < |systems| && now == systems[|legs|] && next == systems[|legs| + 1]
    requires Folding(systems, g.Members, dist, route, legs)
    modifies route
    ensures g.Valid()
    ensures now.id == next.id ==> ok
    ensures ok ==> && |legs'| == |legs| + 1 && legs'[..|legs|] == legs
                   && Folding(systems, g.Members, dist, route, legs')
  {
    ghost var found;
    ok, found := AddLeg(g, dist, route, now, next);
    ValidKept(g);
    legs' := legs + [found];
    if ok {
      LegsExtended(systems, g.Members, dist, legs, found);
      assert legs'[..|legs|] == legs;
    }
  }

  /**
   * One goroutine of the handler: the route through the systems of
   * `variant` in order, leg by leg (see `AddLeg`), starting from a requested
   * stop at the first system. `None` is a panic: fewer than two ids (an index
   * out of range), an id without a system (a nil dereference in the leg
   * search), or a leg search that returns no route; `failed` is that leg and
   * `legs` the legs found before it.
   */
  method FoldVariant(g: SpaceGraph, dist: Metric, variant: seq<int>)
    returns (folded: Option<SpaceRoute>, ghost systems: seq<SpaceSystem?>, ghost legs: seq<seq<SpaceStop>>, ghost failed: int)
    requires g.Valid() && Euclidean(dist)
    ensures systems == Systems(g, variant)
    ensures |variant| < 2 ==> folded.None?
    ensures |variant| >= 2 && (systems[0] == null || systems[1] == null) ==> folded.None?
    ensures folded.Some? ==> fresh(folded.value) && FoldOf(systems, g.Members, dist, folded.value, legs)
    ensures folded.None? ==> Stalled(systems, variant, failed)
    ensures folded.None? && 2 <= |variant| ==>
      failed == |legs| && LegsOf(systems, g.Members, dist, legs)
  {
    systems, legs, failed := Systems(g, variant), [], 0;
    ghost var members := g.Members;
    if |variant| < 2 {
      return None, systems, legs, failed;
    }
    var now := g.Get(variant[0]);
    var next := g.Get(variant[1]);
    var current := 1;
    var route := new SpaceRoute(Some(AsStop(now)), None, [SpaceStop(now, 0.0, true)], 0.0, 0);
    var stalled := false;
    while current < |variant|
      invariant 1 <= current <= |variant| && |legs| == current - 1
      invariant current < |variant| ==> now == systems[current - 1] && next == systems[current]
      invariant fresh(route) && g.Valid() && g.Members == members
      invariant Folding(systems, members, dist, route, legs)
      decreases |variant| - current
    {
      if now == null || next == null {
        stalled := true;
        break;
      }
      var ok;
      ghost var legs';
      ok, legs' := FoldLeg(g, dist, route, now, next, systems, legs);
      if !ok {
        stalled := true;
        break;
      }
      legs := legs';
      current := current + 1;
      if current < |variant| {
        now := next;
        next := g.Get(variant[current]);
      }
    }
    if stalled {
      return None, systems, legs, current - 1;
    }
    assert LegOf(systems, members, dist, legs, 0);
    return Some(route), systems, legs, failed;
  }

  /** `routes` are the orders of `variants` folded, in order, over `legs`. */
  ghost predicate FoldsOf(g: SpaceGraph, dist: Metric, variants: seq<seq<int>>, routes: seq<SpaceRoute>, legs: seq<seq<seq<SpaceStop>>>)
    requires g.Valid()
    reads g, g.buckets, g.Members, routes
  {
    && |routes| == |legs| == |variants|
    && forall j | 0 <= j < |variants| :: FoldOf(Systems(g, variants[j]), g.Members, dist, routes[j], legs[j])
  }

  /** Over a graph whose members carry distinct ids, every leg of every folded order starts at its system of the order. */
  lemma FoldsChained(g: SpaceGraph, dist: Metric, variants: seq<seq<int>>, routes: seq<SpaceRoute>, legs: seq<seq<seq<SpaceStop>>>)
    requires g.Valid() && FoldsOf(g, dist, variants, routes, legs)
    requires forall x, y | x in g.Members && y in g.Members && x.id == y.id :: x == y
    ensures forall j, k | 0 <= j < |variants| && 0 <= k < |legs[j]| :: legs[j][k][0].system == Systems(g, variants[j])[k]
  {
    forall j | 0 <= j < |variants|
      ensures forall k | 0 <= k < |legs[j]| :: legs[j][k][0].system == Systems(g, variants[j])[k]
    {
      LegsChained(Systems(g, variants[j]), g.Members, dist, routes[j], legs[j]);
    }
  }

  /**
   * The goroutines of the handler, one per order, each folding its order
   * (see `FoldVariant`); all the routes, in the order of the orders, or
   * `None` when some goroutine panics, `failed` being the first such order.
   */
  method FoldVariants(g: SpaceGraph, dist: Metric, variants: seq<seq<int>>)
    returns (routes: Option<seq<SpaceRoute>>, ghost legs: seq<seq<seq<SpaceStop>>>, ghost failed: int)
    requires g.Valid() && Euclidean(dist)
    ensures routes.Some? ==> FoldsOf(g, dist, variants, routes.value, legs)
    ensures routes.None? ==> 0 <= failed < |variants| && exists k :: Stalled(Systems(g, variants[failed]), variants[failed], k)
  {
    var folds: seq<SpaceRoute> := [];
    legs, failed := [], 0;
    for i := 0 to |variants|
      invariant |folds| == |legs| == i
      invariant forall j | 0 <= j < i :: FoldOf(Systems(g, variants[j]), g.Members, dist, folds[j], legs[j])
    {
      var folded;
      ghost var systems, found, stalled;
      folded, systems, found, stalled := FoldVariant(g, dist, variants[i]);
      if folded.None? {
        return None, legs, i;
      }
      folds, legs := folds + [folded.value], legs + [found];
    }
    return Some(folds), legs, failed;
  }

  /**
   * The comparison loop of the handler: the first route received is kept,
   * later ones replace it only when strictly shorter, so the result is the
   * earliest of the shortest; no route gives `None`.
   */
  method SelectShortest(results: seq<SpaceRoute>) returns (best: Option<SpaceRoute>, ghost at: int)
    ensures best.None? <==> results == []
    ensures best.Some? ==> 0 <= at < |results| && best.value == results[at]
    ensures best.Some? ==> forall j | 0 <= j < |results| :: best.value.distance <= results[j].distance
    ensures best.Some? ==> forall j | 0 <= j < at :: results[j].distance > best.value.distance
  {
    best, at := None, -1;
    for i := 0 to |results|
      invariant best.None? <==> i == 0
      invariant best.Some? ==> 0 <= at < i && best.value == results[at]
      invariant best.Some? ==> forall j | 0 <= j < i :: best.value.distance <= results[j].distance
      invariant best.Some? ==> forall j | 0 <= j < at :: results[j].distance > best.value.distance
    {
      if best.None? {
        best, at := Some(results[i]), i;
      } else if results[i].distance < best.value.distance {
        best, at := Some(results[i]), i;
      }
    }
  }

  // ---------------------------------------------------------------------------
  // The handler

  /** The handler's answers; `Crash` is a panic in a leg goroutine, which ends the server process. */
  datatype Response = BadRequest | NotFound | Planned(route: SpaceRoute) | Crash

  /** A route of one requested stop at an end, and nothing else. */
  ghost predicate EndOnly(route: SpaceRoute, origin: Option<SpaceStop>, destination: Option<SpaceStop>)
    reads route
  {
    route.origin == origin && route.destination == destination && route.stops == [] && route.distance == 0.0 && route.checks == 0
  }

  /**
   * The orders folded by the goroutines and the shortest result chosen: a
   * panic in any goroutine crashes the handler.
   */
  method PlanOrders(g: SpaceGraph, dist: Metric, variants: seq<seq<int>>)
    returns (resp: Response, ghost results: seq<SpaceRoute>, ghost legs: seq<seq<seq<SpaceStop>>>, ghost at: int)
    requires g.Valid() && Euclidean(dist) && variants != []
    ensures resp.Crash? || resp.Planned?
    ensures resp.Crash? ==> exists j, k | 0 <= j < |variants| :: Stalled(Systems(g, variants[j]), variants[j], k)
    ensures resp.Planned? ==>
      && FoldsOf(g, dist, variants, results, legs)
      && 0 <= at < |results| && resp.route == results[at]
      && (forall j | 0 <= j < |results| :: resp.route.distance <= results[j].distance)
      && (forall j | 0 <= j < at :: results[j].distance > resp.route.distance)
  {
    var routes;
    ghost var failed;
    routes, legs, failed := FoldVariants(g, dist, variants);
    results, at := [], 0;
    if routes.None? {
      assert exists k :: Stalled(Systems(g, variants[failed]), variants[failed], k);
      return Crash, results, legs, at;
    }
    results := routes.value;
    var best;
    best, at := SelectShortest(routes.value);
    return Planned(best.value), results, legs, at;
  }

  /**
   * The `/route` handler after its queries are read: `fromGiven`/`toGiven`
   * say whether the `from` and `to` queries are non-empty, `startID` and
   * `endID` are their parsed ids (0 when absent or unparsable) and `visit` the
   * parsed `visit` ids. The orders are folded one after the other and the
   * shortest route is chosen.
   */
  method PlanRoute(g: SpaceGraph, dist: Metric, fromGiven: bool, toGiven: bool, startID: int, endID: int, visit: seq<int>)
    returns (resp: Response, ghost results: seq<SpaceRoute>, ghost legs: seq<seq<seq<SpaceStop>>>, ghost at: int)
    requires g.Valid() && Euclidean(dist)
    requires !fromGiven ==> startID == 0
    requires !toGiven ==> endID == 0
    ensures resp.BadRequest? <==> !fromGiven && !toGiven
    ensures resp.NotFound? <==> (fromGiven || toGiven) && visit == [] && startID == 0 && endID == 0
    ensures (fromGiven || toGiven) && visit == [] && startID != 0 && endID == 0 ==>
      resp.Planned? && EndOnly(resp.route, Some(SpaceStop(g.Get(startID), 0.0, true)), None)
    ensures (fromGiven || toGiven) && visit == [] && startID == 0 && endID != 0 ==>
      resp.Planned? && EndOnly(resp.route, None, Some(SpaceStop(g.Get(endID), 0.0, true)))
    ensures (fromGiven || toGiven) && startID == 0 && endID == 0 && |visit| == 1 ==> resp.Crash?
    ensures resp.Crash? ==>
      exists j, k | 0 <= j < |Variants(startID, endID, visit)| ::
        Stalled(Systems(g, Variants(startID, endID, visit)[j]), Variants(startID, endID, visit)[j], k)
    ensures resp.Planned? && (visit != [] || (startID != 0 && endID != 0)) ==>
      && FoldsOf(g, dist, Variants(startID, endID, visit), results, legs)
      && 0 <= at < |results| && resp.route == results[at]
      && (forall j | 0 <= j < |results| :: resp.route.distance <= results[j].distance)
      && (forall j | 0 <= j < at :: results[j].distance > resp.route.distance)
  {
    results, legs, at := [], [], 0;
    if !fromGiven && !toGiven {
      return BadRequest, results, legs, at;
    }
    if |visit| == 0 && startID == 0 && endID == 0 {
      return NotFound, results, legs, at;
    }
    if |visit| == 0 && endID == 0 {
      var route := new SpaceRoute(Some(SpaceStop(g.Get(startID), 0.0, true)), None, [], 0.0, 0);
      return Planned(route), results, legs, at;
    }
    if |visit| == 0 && startID == 0 {
      var route := new SpaceRoute(None, Some(SpaceStop(g.Get(endID), 0.0, true)), [], 0.0, 0);
      return Planned(route), results, legs, at;
    }
    var variants := GetVariants(startID, endID, visit);
    VariantsNonEmpty(startID, endID, visit);
    if startID == 0 && endID == 0 && |visit| == 1 {
      LoneVisit(visit[0]);
      assert visit == [visit[0]] && variants == [[visit[0]]];
    }
    resp, results, legs, at := PlanOrders(g, dist, variants);
  }
}
