/**
 * The search frontier (src/structs/priority.go): a binary min-heap of search
 * stops ordered by the straight-line distance of their system to a fixed
 * destination. The queue itself only provides `Len`, `Less`, `Swap`, `Push`
 * and `Pop` on its element slice; `HeapPush` and `HeapPop` are the sift-up and
 * sift-down of Go's `container/heap` driving them.
 */
module Priority {
  import opened Entities

  /** A frontier entry: a system and the number of jumps taken to reach it. */
  datatype SearchStop = SearchStop(location: SpaceSystem, hops: int)

  /** The heuristic of the search: straight-line distance (`TravelCost`). */
  function TravelCost(dist: Metric, from: SpaceSystem, to: SpaceSystem): (c: real)
    requires Euclidean(dist)
    ensures 0.0 <= c
    ensures Pos(from) == Pos(to) ==> c == 0.0
    ensures c == DistanceTo(dist, to, from)
  {
    DistanceToSelf(dist, from, to);
    DistanceSymmetric(dist, from, to);
    DistanceTo(dist, from, to)
  }

  /** Slot `c` is a child of slot `p` in the implicit binary tree (`2p+1` or `2p+2`). */
  predicate Edge(p: int, c: int)
  {
    c == 2 * p + 1 || c == 2 * p + 2
  }

  /** The index of the parent of slot `j` (`(j - 1) / 2`). */
  function Parent(j: nat): (p: nat)
    requires 0 < j
    ensures p < j && Edge(p, j)
  {
    (j - 1) / 2
  }

  /** The cost of an entry. */
  function Key(s: SearchStop, dist: Metric, dest: SpaceSystem): real
  {
    DistanceTo(dist, s.location, dest)
  }

  /** Among the first `n` slots, no child costs less than its parent. */
  predicate HeapPrefix(es: seq<SearchStop>, n: nat, dist: Metric, dest: SpaceSystem)
    requires n <= |es|
  {
    forall p, c {:trigger Edge(p, c)} | 0 <= p < c < n && Edge(p, c) :: Key(es[p], dist, dest) <= Key(es[c], dist, dest)
  }

  /** The heap order: no child costs less than its parent. */
  predicate IsHeap(es: seq<SearchStop>, dist: Metric, dest: SpaceSystem)
  {
    HeapPrefix(es, |es|, dist, dest)
  }

  /**
   * The heap order holds except between `j` and its parent, and `j`'s parent
   * is no more costly than `j`'s children (the state of a sift-up).
   */
  predicate HeapBut(es: seq<SearchStop>, j: nat, dist: Metric, dest: SpaceSystem)
    requires j < |es|
  {
    && (forall p, c {:trigger Edge(p, c)} | 0 <= p < c < |es| && Edge(p, c) && c != j :: Key(es[p], dist, dest) <= Key(es[c], dist, dest))
    && (forall p, c {:trigger Edge(p, j), Edge(j, c)} | 0 <= p < j < c < |es| && Edge(p, j) && Edge(j, c) :: Key(es[p], dist, dest) <= Key(es[c], dist, dest))
  }

  /**
   * Among the first `n` slots the heap order holds except between `i` and its
   * children, and `i`'s parent is no more costly than `i`'s children (the
   * state of a sift-down).
   */
  predicate HeapBelow(es: seq<SearchStop>, n: nat, i: nat, dist: Metric, dest: SpaceSystem)
    requires n <= |es|
  {
    && (forall p, c {:trigger Edge(p, c)} | 0 <= p < c < n && Edge(p, c) && p != i :: Key(es[p], dist, dest) <= Key(es[c], dist, dest))
    && (forall p, c {:trigger Edge(p, i), Edge(i, c)} | 0 <= p < i < c < n && Edge(p, i) && Edge(i, c) :: Key(es[p], dist, dest) <= Key(es[c], dist, dest))
  }

  /** Swapping a slot with a cheaper parent moves the fault one level up. */
  lemma UpStep(es: seq<SearchStop>, j: nat, dist: Metric, dest: SpaceSystem)
    requires 0 < j < |es| && HeapBut(es, j, dist, dest)
    requires Key(es[j], dist, dest) < Key(es[Parent(j)], dist, dest)
    ensures HeapBut(es[Parent(j) := es[j]][j := es[Parent(j)]], Parent(j), dist, dest)
  {
    var i := Parent(j);
    var t := es[i := es[j]][j := es[i]];
    forall p, c | 0 <= p < c < |t| && Edge(p, c) && c != i
      ensures Key(t[p], dist, dest) <= Key(t[c], dist, dest)
    {
      if c == j {
      } else if p == j {
        assert Edge(i, j) && Edge(j, c);
      } else if p == i {
        assert Key(es[i], dist, dest) <= Key(es[c], dist, dest);
      } else {
        assert Edge(p, c);
      }
    }
    forall p, c | 0 <= p < i < c < |t| && Edge(p, i) && Edge(i, c)
      ensures Key(t[p], dist, dest) <= Key(t[c], dist, dest)
    {
      assert Key(es[p], dist, dest) <= Key(es[i], dist, dest);
      if c != j {
        assert Key(es[i], dist, dest) <= Key(es[c], dist, dest);
      }
    }
  }

  /** A sift-up that stops below a parent no more costly than its slot leaves a heap. */
  lemma UpDone(es: seq<SearchStop>, j: nat, dist: Metric, dest: SpaceSystem)
    requires j < |es| && HeapBut(es, j, dist, dest)
    requires 0 < j ==> Key(es[Parent(j)], dist, dest) <= Key(es[j], dist, dest)
    ensures IsHeap(es, dist, dest)
  {
    forall p, c | 0 <= p < c < |es| && Edge(p, c)
      ensures Key(es[p], dist, dest) <= Key(es[c], dist, dest)
    {
      if c == j {
        assert p == Parent(j);
      }
    }
  }

  /**
   * Swapping a slot with its cheaper child `j`, when that child is cheaper
   * than the slot, moves the fault one level down.
   */
  lemma DownStep(es: seq<SearchStop>, n: nat, i: nat, j: nat, dist: Metric, dest: SpaceSystem)
    requires n <= |es| && HeapBelow(es, n, i, dist, dest)
    requires Edge(i, j) && j < n
    requires Key(es[j], dist, dest) <= Key(es[2 * i + 1], dist, dest)
    requires 2 * i + 2 < n ==> Key(es[j], dist, dest) <= Key(es[2 * i + 2], dist, dest)
    requires Key(es[j], dist, dest) < Key(es[i], dist, dest)
    ensures HeapBelow(es[i := es[j]][j := es[i]], n, j, dist, dest)
  {
    var t := es[i := es[j]][j := es[i]];
    forall p, c | 0 <= p < c < n && Edge(p, c) && p != j
      ensures Key(t[p], dist, dest) <= Key(t[c], dist, dest)
    {
      if p == i {
      } else if c == i {
        assert Edge(p, i) && Edge(i, j);
      } else {
        assert Edge(p, c);
      }
    }
    forall p, c | 0 <= p < j < c < n && Edge(p, j) && Edge(j, c)
      ensures Key(t[p], dist, dest) <= Key(t[c], dist, dest)
    {
      assert Edge(j, c);
    }
  }

  /**
   * Where the sift-down stops: `i` has no child among the first `n` slots, or
   * it costs no more than its cheaper child `j`; either way the prefix is a heap.
   */
  lemma DownDone(es: seq<SearchStop>, n: nat, i: nat, j: nat, dist: Metric, dest: SpaceSystem)
    requires n <= |es| && HeapBelow(es, n, i, dist, dest)
    requires 2 * i + 1 < n ==>
      && Edge(i, j) && j < n
      && Key(es[i], dist, dest) <= Key(es[j], dist, dest)
      && Key(es[j], dist, dest) <= Key(es[2 * i + 1], dist, dest)
      && (2 * i + 2 < n ==> Key(es[j], dist, dest) <= Key(es[2 * i + 2], dist, dest))
    ensures HeapPrefix(es, n, dist, dest)
  {
    forall p, c | 0 <= p < c < n && Edge(p, c)
      ensures Key(es[p], dist, dest) <= Key(es[c], dist, dest)
    {
      if p != i {
        assert Edge(p, c);
      }
    }
  }

  /** Exchanging two slots below `n` leaves the slots from `n` on alone. */
  lemma SwapSuffix(es: seq<SearchStop>, n: nat, i: nat, j: nat)
    requires i < n && j < n && n <= |es|
    ensures es[i := es[j]][j := es[i]][n..] == es[n..]
  {
  }

  /** The root of a non-empty heap costs no more than any entry. */
  lemma {:induction false} HeapRootMin(es: seq<SearchStop>, dist: Metric, dest: SpaceSystem, k: nat)
    requires IsHeap(es, dist, dest) && k < |es|
    ensures Key(es[0], dist, dest) <= Key(es[k], dist, dest)
    decreases k
  {
    if k > 0 {
      var p := Parent(k);
      HeapRootMin(es, dist, dest, p);
      assert Edge(p, k);
    }
  }

  /** The frontier of a search towards `destination` (`destinationQueue`). */
  class DestinationQueue {
    const destination: SpaceSystem
    const dist: Metric
    var elements: seq<SearchStop>

    /** `NewDestinationQueue`: an empty queue towards `destination`. */
    constructor (destination: SpaceSystem, dist: Metric)
      ensures this.destination == destination && this.dist == dist && elements == []
    {
      this.destination := destination;
      this.dist := dist;
      elements := [];
    }

    /** The heap order of the elements under this queue's costs. */
    predicate Valid()
      reads this
    {
      IsHeap(elements, dist, destination)
    }

    /** `Len`: the number of entries. */
    function Len(): (n: int)
      reads this
      ensures 0 <= n && (n == 0 <==> elements == [])
    {
      |elements|
    }

    /** `Less`: slot `i` is strictly closer to the destination than slot `j`. */
    predicate Less(i: int, j: int)
      requires Euclidean(dist)
      requires 0 <= i < |elements| && 0 <= j < |elements|
      reads this
      ensures Less(i, j) <==> Key(elements[i], dist, destination) < Key(elements[j], dist, destination)
    {
      TravelCost(dist, elements[i].location, destination) < TravelCost(dist, elements[j].location, destination)
    }

    /** `Swap`: exchanges two slots; the entries stay the same. */
    method Swap(i: int, j: int)
      requires 0 <= i < |elements| && 0 <= j < |elements|
      modifies this
      ensures elements == old(elements)[i := old(elements)[j]][j := old(elements)[i]]
      ensures multiset(elements) == multiset(old(elements))
    {
      elements := elements[i := elements[j]][j := elements[i]];
    }

    /** `Push`: appends an entry at the end. */
    method Push(s: SearchStop)
      modifies this
      ensures elements == old(elements) + [s]
    {
      elements := elements + [s];
    }

    /** `Pop`: removes and returns the last entry. */
    method Pop() returns (s: SearchStop)
      requires elements != []
      modifies this
      ensures s == old(elements)[|old(elements)| - 1]
      ensures elements == old(elements)[..|old(elements)| - 1]
      ensures multiset(elements) + multiset{s} == multiset(old(elements))
    {
      s := elements[|elements| - 1];
      assert elements == elements[..|elements| - 1] + [s];
      elements := elements[..|elements| - 1];
    }

    /** `heap.Push`: adds an entry, keeping the heap order. */
    method HeapPush(s: SearchStop)
      requires Euclidean(dist) && Valid()
      modifies this
      ensures Valid()
      ensures multiset(elements) == multiset(old(elements)) + multiset{s}
    {
      Push(s);
      Up(|elements| - 1);
    }

    /**
     * `heap.Pop`: removes and returns an entry of least cost, keeping the
     * heap order.
     */
    method HeapPop() returns (s: SearchStop)
      requires Euclidean(dist) && Valid() && elements != []
      modifies this
      ensures Valid()
      ensures s in multiset(old(elements))
      ensures multiset(elements) + multiset{s} == multiset(old(elements))
      ensures forall t | t in old(elements) :: Key(s, dist, destination) <= Key(t, dist, destination)
    {
      forall k | 0 <= k < |elements|
        ensures Key(elements[0], dist, destination) <= Key(elements[k], dist, destination)
      {
        HeapRootMin(elements, dist, destination, k);
      }
      var n := |elements| - 1;
      Swap(0, n);
      ghost var swapped := elements;
      Down(0, n);
      assert elements[n] == swapped[n] == old(elements)[0];
      s := Pop();
    }

    /** The sift-up of `container/heap`: moves slot `j` towards the root while it is cheaper than its parent. */
    method Up(j0: int)
      requires Euclidean(dist) && 0 <= j0 < |elements|
      requires HeapBut(elements, j0, dist, destination)
      modifies this
      ensures IsHeap(elements, dist, destination)
      ensures multiset(elements) == multiset(old(elements))
    {
      var j := j0;
      while j > 0 && Less(j, Parent(j))
        invariant 0 <= j < |elements| == |old(elements)|
        invariant HeapBut(elements, j, dist, destination)
        invariant multiset(elements) == multiset(old(elements))
        decreases j
      {
        var i := Parent(j);
        UpStep(elements, j, dist, destination);
        Swap(i, j);
        j := i;
      }
      UpDone(elements, j, dist, destination);
    }

    /**
     * The sift-down of `container/heap` over the first `n` slots: moves slot
     * `i0` away from the root while a child is cheaper; slots from `n` on are
     * left alone.
     */
    method Down(i0: int, n: int)
      requires Euclidean(dist) && 0 <= i0 && 0 <= n <= |elements|
      requires HeapBelow(elements, n, i0, dist, destination)
      modifies this
      ensures |elements| == |old(elements)| && elements[n..] == old(elements)[n..]
      ensures HeapPrefix(elements, n, dist, destination)
      ensures multiset(elements) == multiset(old(elements))
    {
      var i := i0;
      while true
        invariant 0 <= i && |elements| == |old(elements)| && elements[n..] == old(elements)[n..]
        invariant HeapBelow(elements, n, i, dist, destination)
        invariant multiset(elements) == multiset(old(elements))
        decreases n - i
      {
        var j1 := 2 * i + 1;
        if j1 >= n {
          DownDone(elements, n, i, 0, dist, destination);
          break;
        }
        var j := j1;
        if j1 + 1 < n && Less(j1 + 1, j1) {
          j := j1 + 1;
        }
        if !Less(j, i) {
          DownDone(elements, n, i, j, dist, destination);
          break;
        }
        DownStep(elements, n, i, j, dist, destination);
        SwapSuffix(elements, n, i, j);
        Swap(i, j);
        i := j;
      }
    }
  }

  /** The entries of `order` are strictly closer to the destination the earlier they come. */
  predicate Ascending(order: seq<SearchStop>, dist: Metric, dest: SpaceSystem)
  {
    forall a, b | 0 <= a < b < |order| :: Key(order[a], dist, dest) < Key(order[b], dist, dest)
  }

  /**
   * Popping until the queue is empty (the loop of src/structs/priority_test.go)
   * yields its entries nearest first: when they can be listed in strictly
   * ascending cost, the pops come in exactly that order.
   */
  method Drain(q: DestinationQueue, order: seq<SearchStop>) returns (popped: seq<SearchStop>)
    requires Euclidean(q.dist) && q.Valid() && multiset(q.elements) == multiset(order)
    requires Ascending(order, q.dist, q.destination)
    modifies q
    ensures popped == order && q.elements == []
  {
    popped := [];
    while q.Len() > 0
      invariant q.Valid() && |popped| <= |order| && popped == order[..|popped|]
      invariant multiset(q.elements) == multiset(order[|popped|..])
      decreases |q.elements|
    {
      var i := |popped|;
      assert |multiset(q.elements)| == |q.elements|;
      AscendingRest(order, i, q.dist, q.destination);
      var s := TakeCheapest(q, order[i], multiset(order[i + 1..]));
      popped := popped + [s];
      assert popped == order[..i + 1];
    }
    assert |multiset(order[|popped|..])| == 0;
  }

  /** In an ascending listing, the entry at `i` is strictly cheaper than every entry after it. */
  lemma AscendingRest(order: seq<SearchStop>, i: int, dist: Metric, dest: SpaceSystem)
    requires Ascending(order, dist, dest) && 0 <= i < |order|
    ensures multiset(order[i..]) == multiset(order[i + 1..]) + multiset{order[i]}
    ensures forall t | t in multiset(order[i + 1..]) :: Key(order[i], dist, dest) < Key(t, dist, dest)
  {
    var rest := order[i + 1..];
    assert order[i..] == [order[i]] + rest;
    forall t | t in multiset(rest)
      ensures Key(order[i], dist, dest) < Key(t, dist, dest)
    {
      var k :| 0 <= k < |rest| && rest[k] == t;
      assert order[i + 1 + k] == t;
    }
  }

  /** When one entry is strictly cheaper than all the others, `heap.Pop` returns that entry. */
  method TakeCheapest(q: DestinationQueue, e: SearchStop, rest: multiset<SearchStop>) returns (s: SearchStop)
    requires Euclidean(q.dist) && q.Valid()
    requires multiset(q.elements) == rest + multiset{e}
    requires forall t | t in rest :: Key(e, q.dist, q.destination) < Key(t, q.dist, q.destination)
    modifies q
    ensures s == e && q.Valid() && multiset(q.elements) == rest
  {
    assert e in multiset(q.elements);
    s := q.HeapPop();
    assert forall t :: multiset(q.elements)[t] == rest[t] by {
      forall t ensures multiset(q.elements)[t] == rest[t] {
        assert (multiset(q.elements) + multiset{e})[t] == (rest + multiset{e})[t];
      }
    }
  }

  /**
   * The queue of src/structs/priority_test.go: five sites around a target at
   * (5, 5, 5) come off the heap nearest first, in the order 5, 1, 3, 2, 4.
   */
  method PopOrderSample(dist: Metric) returns (ids: seq<int>)
    requires Euclidean(dist)
    ensures ids == [5, 1, 3, 2, 4]
  {
    var q, order := SampleQueue(dist);
    var popped := Drain(q, order);
    ids := [popped[0].location.id, popped[1].location.id, popped[2].location.id, popped[3].location.id, popped[4].location.id];
  }

  /** The test's queue (`CreateQueue`), with its entries listed nearest first. */
  method SampleQueue(dist: Metric) returns (q: DestinationQueue, order: seq<SearchStop>)
    requires Euclidean(dist)
    ensures fresh(q) && q.dist == dist && q.Valid()
    ensures multiset(q.elements) == multiset(order) && Ascending(order, q.dist, q.destination)
    ensures |order| == 5 && order[0].location.id == 5 && order[1].location.id == 1
    ensures order[2].location.id == 3 && order[3].location.id == 2 && order[4].location.id == 4
  {
    var target := TestSite(0, "Target Site", 5.0, 5.0, 5.0);
    var s1 := TestSite(1, "First Site", 5.0, 3.0, 5.0);
    var s2 := TestSite(2, "Second Site", 0.0, -1.0, 2.0);
    var s3 := TestSite(3, "Third Site", 5.0, 2.0, 5.0);
    var s4 := TestSite(4, "Fourth Site", 0.0, 0.0, 0.0);
    var s5 := TestSite(5, "Fifth Site", 6.0, 5.0, 5.0);
    var e1, e2, e3, e4, e5 := SearchStop(s1, 0), SearchStop(s2, 0), SearchStop(s3, 0), SearchStop(s4, 0), SearchStop(s5, 0);
    q := FilledQueue(target, dist, [e1, e2, e3, e4, e5]);
    order := [e5, e1, e3, e2, e4];
    assert multiset([e1, e2, e3, e4, e5]) == multiset(order);
    SampleKeys(dist, target, e1, e2, e3, e4, e5);
  }

  /** A site of the test, with no star or station flags. */
  method TestSite(id: int, name: string, x: real, y: real, z: real) returns (s: SpaceSystem)
    ensures fresh(s) && s.id == id && Pos(s) == (x, y, z)
  {
    s := new SpaceSystem(id, name, x, y, z, false, false);
  }

  /** A new queue towards `destination` with `es` pushed one by one with `heap.Push`: a heap of exactly those entries. */
  method FilledQueue(destination: SpaceSystem, dist: Metric, es: seq<SearchStop>) returns (q: DestinationQueue)
    requires Euclidean(dist)
    ensures fresh(q) && q.destination == destination && q.dist == dist
    ensures q.Valid() && multiset(q.elements) == multiset(es)
  {
    q := new DestinationQueue(destination, dist);
    for i := 0 to |es|
      invariant q.Valid() && multiset(q.elements) == multiset(es[..i])
    {
      assert es[..i + 1] == es[..i] + [es[i]];
      q.HeapPush(es[i]);
    }
    assert es[..|es|] == es;
  }

  /** The squared distances to the target are 1, 4, 9, 70 and 75, so the costs are strictly ordered. */
  lemma SampleKeys(dist: Metric, target: SpaceSystem, e1: SearchStop, e2: SearchStop, e3: SearchStop, e4: SearchStop, e5: SearchStop)
    requires Euclidean(dist) && Pos(target) == (5.0, 5.0, 5.0)
    requires Pos(e1.location) == (5.0, 3.0, 5.0) && Pos(e2.location) == (0.0, -1.0, 2.0)
    requires Pos(e3.location) == (5.0, 2.0, 5.0) && Pos(e4.location) == (0.0, 0.0, 0.0)
    requires Pos(e5.location) == (6.0, 5.0, 5.0)
    ensures Ascending([e5, e1, e3, e2, e4], dist, target)
  {
    DistanceLess(dist, e5.location, target, e1.location, target);
    DistanceLess(dist, e1.location, target, e3.location, target);
    DistanceLess(dist, e3.location, target, e2.location, target);
    DistanceLess(dist, e2.location, target, e4.location, target);
  }
}
