/**
 * The spatial index of star systems (`SpaceGraph` in structs/search.go and in
 * the older src/structs/search.go): a cubic grid of buckets, each holding the
 * systems whose position falls in its cell, and a map from id to system.
 */
module Graph {
  import opened Wrappers
  import opened Entities
  import opened Grid

  /** One cell of the grid and the systems that lie in it. */
  datatype SpaceBucket = SpaceBucket(systems: seq<SpaceSystem>, x: int, y: int, z: int)

  /** The systems of `ss` that lie strictly closer than `radius` to `origin`, in order. */
  function WithinRadius(dist: Metric, origin: SpaceSystem, radius: real, ss: seq<SpaceSystem>): seq<SpaceSystem>
  {
    if ss == [] then []
    else
      var last := ss[|ss| - 1];
      WithinRadius(dist, origin, radius, ss[..|ss| - 1])
        + (if DistanceTo(dist, origin, last) < radius then [last] else [])
  }

  /** The filter keeps exactly the systems strictly closer than `radius` to `origin`. */
  lemma {:induction false} WithinRadiusMembers(dist: Metric, origin: SpaceSystem, radius: real, ss: seq<SpaceSystem>, s: SpaceSystem)
    ensures s in WithinRadius(dist, origin, radius, ss) <==> s in ss && DistanceTo(dist, origin, s) < radius
    decreases |ss|
  {
    if ss != [] {
      var front := ss[..|ss| - 1];
      WithinRadiusMembers(dist, origin, radius, front, s);
      assert ss == front + [ss[|ss| - 1]];
    }
  }

  lemma {:induction false} WithinRadiusAppend(dist: Metric, origin: SpaceSystem, radius: real, a: seq<SpaceSystem>, b: seq<SpaceSystem>)
    ensures WithinRadius(dist, origin, radius, a + b)
         == WithinRadius(dist, origin, radius, a) + WithinRadius(dist, origin, radius, b)
    decreases |b|
  {
    if b == [] {
      assert a + b == a;
    } else {
      var front := b[..|b| - 1];
      assert (a + b)[..|a + b| - 1] == a + front;
      WithinRadiusAppend(dist, origin, radius, a, front);
    }
  }

  /** `[b]` unless `b` is `start`, in which case nothing. */
  function Unless<T(==)>(b: T, start: T): seq<T>
  {
    if b != start then [b] else []
  }

  /** Filtering one more element of a list extends the filtered prefix by that element unless it is `start`. */
  lemma KeepOtherPrefix<T>(xs: seq<T>, start: T, k: int)
    requires 0 <= k < |xs|
    ensures KeepOther(xs[..k + 1], start) == KeepOther(xs[..k], start) + Unless(xs[k], start)
  {
    assert xs[..k + 1][..k] == xs[..k];
  }

  /** Filtering six elements, written out. */
  lemma KeepOtherSix<T>(xs: seq<T>, start: T)
    requires |xs| == 6
    ensures [start] + KeepOther(xs, start)
         == [start] + Unless(xs[0], start) + Unless(xs[1], start) + Unless(xs[2], start)
            + Unless(xs[3], start) + Unless(xs[4], start) + Unless(xs[5], start)
  {
    var head := [start];
    assert xs[..0] == [] && xs[..6] == xs;
    assert head + KeepOther(xs[..0], start) == head;
    KeepOtherStep(xs, start, 0);
    KeepOtherStep(xs, start, 1);
    KeepOtherStep(xs, start, 2);
    KeepOtherStep(xs, start, 3);
    KeepOtherStep(xs, start, 4);
    KeepOtherStep(xs, start, 5);
  }

  /** One more element for `KeepOtherSix`. */
  lemma KeepOtherStep<T>(xs: seq<T>, start: T, k: int)
    requires 0 <= k < |xs|
    ensures [start] + KeepOther(xs[..k + 1], start) == [start] + KeepOther(xs[..k], start) + Unless(xs[k], start)
  {
    KeepOtherPrefix(xs, start, k);
    AppendAssoc([start], KeepOther(xs[..k], start), Unless(xs[k], start));
  }

  lemma AppendAssoc<T>(a: seq<T>, b: seq<T>, c: seq<T>)
    ensures a + (b + c) == a + b + c
  {
  }

  /** The systems of all `bs`, bucket by bucket. */
  function Gather(bs: seq<SpaceBucket>): seq<SpaceSystem>
  {
    if bs == [] then [] else Gather(bs[..|bs| - 1]) + bs[|bs| - 1].systems
  }

  /** A system is gathered exactly when one of the buckets holds it. */
  lemma {:induction false} GatherMembers(bs: seq<SpaceBucket>, s: SpaceSystem)
    ensures s in Gather(bs) <==> exists b | b in bs :: s in b.systems
    decreases |bs|
  {
    if bs != [] {
      var front := bs[..|bs| - 1];
      GatherMembers(front, s);
      assert bs == front + [bs[|bs| - 1]];
    }
  }

  /** The systems of `ss` that `Add` accepts and places in `cell`, in order. */
  function InCell(ss: seq<SpaceSystem>, cell: Cell, count: int): seq<SpaceSystem>
    requires 1 <= count
  {
    if ss == [] then []
    else
      var last := ss[|ss| - 1];
      InCell(ss[..|ss| - 1], cell, count)
        + (if InUniverse(Pos(last)) && FindBucketAt(Pos(last), count) == cell then [last] else [])
  }

  lemma InCellSnoc(ss: seq<SpaceSystem>, s: SpaceSystem, cell: Cell, count: int)
    requires 1 <= count
    ensures InCell(ss + [s], cell, count)
         == InCell(ss, cell, count) + (if InUniverse(Pos(s)) && FindBucketAt(Pos(s), count) == cell then [s] else [])
  {
    assert (ss + [s])[..|ss|] == ss;
  }

  /** One `Add` keeps a bucket equal to its start plus the systems placed in its cell. */
  lemma StepCell(start: SpaceBucket, before: SpaceBucket, after: SpaceBucket, ss: seq<SpaceSystem>, s: SpaceSystem, cell: Cell, count: int)
    requires 1 <= count
    requires before == start.(systems := start.systems + InCell(ss, cell, count))
    requires InUniverse(Pos(s)) && FindBucketAt(Pos(s), count) == cell ==> after == before.(systems := before.systems + [s])
    requires !(InUniverse(Pos(s)) && FindBucketAt(Pos(s), count) == cell) ==> after == before
    ensures after == start.(systems := start.systems + InCell(ss + [s], cell, count))
  {
    InCellSnoc(ss, s, cell, count);
  }

  /** The systems of `ss` that `Add` accepts. */
  function Accepted(ss: seq<SpaceSystem>): set<SpaceSystem>
  {
    set s | s in ss && InUniverse(Pos(s))
  }

  lemma AcceptedSnoc(ss: seq<SpaceSystem>, s: SpaceSystem)
    ensures Accepted(ss + [s]) == Accepted(ss) + (if InUniverse(Pos(s)) then {s} else {})
  {
    assert forall t :: t in ss + [s] <==> t in ss || t == s;
  }

  /** The id map after adding each system of `ss` that `Add` accepts, in order. */
  function Indexed(m: map<int, SpaceSystem>, ss: seq<SpaceSystem>): map<int, SpaceSystem>
  {
    if ss == [] then m
    else
      var last := ss[|ss| - 1];
      var before := Indexed(m, ss[..|ss| - 1]);
      if InUniverse(Pos(last)) then before[last.id := last] else before
  }

  /** The callback `Load` hands to `ForEachSystem`, on the id map: `Add` keeps only systems inside the universe. */
  function IndexOne(m: map<int, SpaceSystem>, s: SpaceSystem): map<int, SpaceSystem>
  {
    if InUniverse(Pos(s)) then m[s.id := s] else m
  }

  /** Adding the systems in order is the `ForEachSystem` fold of the callback over the data set. */
  lemma IndexedIsForEach(m: map<int, SpaceSystem>, db: SpaceDB)
    ensures Indexed(m, db.systems) == ForEachSystem(db, IndexOne, m)
  {
    IndexedFold(m, db.systems);
  }

  lemma {:induction false} IndexedFold(m: map<int, SpaceSystem>, ss: seq<SpaceSystem>)
    ensures Indexed(m, ss) == FoldSystems(ss, IndexOne, m)
    decreases |ss|
  {
    if ss != [] {
      var init, last := ss[..|ss| - 1], ss[|ss| - 1];
      IndexedFold(m, init);
      assert ss == init + [last];
      FoldSystemsAppend(init, [last], IndexOne, m);
      var acc := FoldSystems(init, IndexOne, m);
      assert FoldSystems([last], IndexOne, acc) == FoldSystems([last][1..], IndexOne, IndexOne(acc, last));
      assert [last][1..] == [];
    }
  }

  /** `m` maps the ids 1 to 6 to the sample sites `LoadSample` adds, with their names and positions. */
  predicate HoldsSample(m: map<int, SpaceSystem>)
  {
    && 1 in m && m[1].name == "First Site" && Pos(m[1]) == (5.0, 3.0, 5.0)
    && 2 in m && m[2].name == "Second Site" && Pos(m[2]) == (0.0, -1.0, 2.0)
    && 3 in m && m[3].name == "Third Site" && Pos(m[3]) == (5.0, 2.0, 5.0)
    && 4 in m && m[4].name == "Fourth Site" && Pos(m[4]) == (0.0, 0.0, 0.0)
    && 5 in m && m[5].name == "Fifth Site" && Pos(m[5]) == (6.0, 5.0, 5.0)
    && 6 in m && m[6].name == "Sixth Site" && Pos(m[6]) == (2.5, 2.5, 2.5)
  }

  class SpaceGraph {
    const buckets: array3<SpaceBucket>
    const radius: real
    var systems: map<int, SpaceSystem>
    /** Every system added so far. */
    ghost var Members: set<SpaceSystem>

    /** Cells per axis (`len(graph.Buckets)`). */
    function Count(): int
    {
      buckets.Length0
    }

    ghost predicate Valid()
      reads this, buckets, Members
    {
      && 1 <= buckets.Length0
      && buckets.Length1 == buckets.Length0 && buckets.Length2 == buckets.Length0
      // every bucket knows its own cell
      && (forall i, j, k | 0 <= i < buckets.Length0 && 0 <= j < buckets.Length1 && 0 <= k < buckets.Length2 ::
            buckets[i, j, k].x == i && buckets[i, j, k].y == j && buckets[i, j, k].z == k)
      // a bucket holds only members that lie in its cell
      && (forall i, j, k {:trigger Sorted(i, j, k)} | 0 <= i < buckets.Length0 && 0 <= j < buckets.Length1 && 0 <= k < buckets.Length2 ::
            Sorted(i, j, k))
      // every member lies in the universe, in the bucket of its cell, and points back at that cell
      && (forall s {:trigger Placed(s)} | s in Members :: Placed(s))
      // the id map holds members under their own ids
      && (forall id {:trigger Registered(id)} | id in systems :: Registered(id))
    }

    /** The bucket at `(i, j, k)` holds only members that lie in its cell. */
    ghost predicate Sorted(i: int, j: int, k: int)
      reads this, buckets
    {
      && 0 <= i < buckets.Length0 && 0 <= j < buckets.Length1 && 0 <= k < buckets.Length2
      && forall s | s in buckets[i, j, k].systems :: s in Members && FindBucketAt(Pos(s), buckets.Length0) == (i, j, k)
    }

    /**
     * `s` lies in the universe and in the bucket of its cell, and its bucket
     * reference names that cell.
     */
    ghost predicate Placed(s: SpaceSystem)
      reads this, buckets, s
    {
      && 1 <= buckets.Length0
      && buckets.Length1 == buckets.Length0 && buckets.Length2 == buckets.Length0
      && InUniverse(Pos(s))
      && InGrid(FindBucketAt(Pos(s), buckets.Length0), buckets.Length0)
      && s in GetBucket(FindBucketAt(Pos(s), buckets.Length0)).systems
      && s.bucket == Some(FindBucketAt(Pos(s), buckets.Length0))
    }

    /** The id map holds a member under `id`, and that member has this id. */
    ghost predicate Registered(id: int)
      reads this
    {
      id in systems && systems[id] in Members && systems[id].id == id
    }

    /** The cell that holds `system` (`FindBucket`). */
    function FindBucket(system: SpaceSystem): (c: Cell)
      requires 1 <= Count()
      ensures InUniverse(Pos(system)) ==> InGrid(c, Count())
    {
      if InUniverse(Pos(system)) then
        FindBucketInGrid(Pos(system), Count());
        FindBucketAt(Pos(system), Count())
      else
        FindBucketAt(Pos(system), Count())
    }

    /** The bucket of a cell (`GetBucket`). */
    function GetBucket(c: Cell): (b: SpaceBucket)
      requires InGrid(c, buckets.Length0)
      requires buckets.Length1 == buckets.Length0 && buckets.Length2 == buckets.Length0
      reads buckets
    {
      buckets[c.0, c.1, c.2]
    }

    /** Buckets are told apart by their cells. */
    lemma GetBucketIdentifies(c: Cell, e: Cell)
      requires Valid() && InGrid(c, Count()) && InGrid(e, Count())
      ensures GetBucket(c) == GetBucket(e) <==> c == e
      ensures GetBucket(c).x == c.0 && GetBucket(c).y == c.1 && GetBucket(c).z == c.2
    {
    }

    /** The buckets of `cells`, in order. */
    function BucketsAt(cells: seq<Cell>): (bs: seq<SpaceBucket>)
      requires buckets.Length1 == buckets.Length0 && buckets.Length2 == buckets.Length0
      requires forall c | c in cells :: InGrid(c, buckets.Length0)
      reads buckets
      ensures |bs| == |cells|
    {
      seq(|cells|, i requires 0 <= i < |cells| reads buckets => GetBucket(cells[i]))
    }

    /** Dropping a cell and then reading buckets is reading buckets and then dropping that cell's bucket. */
    lemma {:induction false} BucketsKeepOther(cells: seq<Cell>, start: Cell)
      requires Valid() && InGrid(start, Count())
      requires forall c | c in cells :: InGrid(c, Count())
      ensures BucketsAt(KeepOther(cells, start)) == KeepOther(BucketsAt(cells), GetBucket(start))
      decreases |cells|
    {
      if cells != [] {
        var front, last := cells[..|cells| - 1], cells[|cells| - 1];
        BucketsKeepOther(front, start);
        GetBucketIdentifies(last, start);
        assert BucketsAt(cells)[..|cells| - 1] == BucketsAt(front);
        assert BucketsAt(KeepOther(cells, start))
            == BucketsAt(KeepOther(front, start)) + BucketsAt(if last != start then [last] else []);
      }
    }

    /**
     * `NearbyBuckets`: the bucket of the origin, then the bucket of each of the
     * six probes along -x, +x, -y, +y, -z, +z that is not the origin's. Every
     * probe must land inside the grid (otherwise the source indexes out of range).
     */
    method NearbyBuckets(origin: SpaceSystem, radius: real) returns (bs: seq<SpaceBucket>)
      requires Valid() && ProbesInGrid(Pos(origin), radius, Count())
      ensures bs == BucketsAt(NearbyCells(Pos(origin), radius, Count()))
    {
      var p := Pos(origin);
      ProbesInGridLand(p, radius, Count());
      var start := GetBucket(FindBucket(origin));
      bs := [start];
      bs := AddProbe(bs, start, (p.0 - radius, p.1, p.2));
      bs := AddProbe(bs, start, (p.0 + radius, p.1, p.2));
      bs := AddProbe(bs, start, (p.0, p.1 - radius, p.2));
      bs := AddProbe(bs, start, (p.0, p.1 + radius, p.2));
      bs := AddProbe(bs, start, (p.0, p.1, p.2 - radius));
      bs := AddProbe(bs, start, (p.0, p.1, p.2 + radius));
      NearbyBucketsUnfold(p, radius, bs);
    }

    /** Appends the bucket `q` lands in unless it is `start`. */
    method AddProbe(bs: seq<SpaceBucket>, start: SpaceBucket, q: Point) returns (r: seq<SpaceBucket>)
      requires Valid() && InGrid(FindBucketAt(q, Count()), Count())
      ensures r == bs + Unless(GetBucket(FindBucketAt(q, Count())), start)
    {
      var b := GetBucket(FindBucketAt(q, Count()));
      if b != start {
        r := bs + [b];
      } else {
        r := bs;
      }
    }

    /**
     * The origin's bucket followed by each offset probe's bucket that is not
     * the origin's are the buckets of `NearbyCells`.
     */
    lemma NearbyBucketsUnfold(p: Point, radius: real, bs: seq<SpaceBucket>)
      requires Valid() && ProbesInGrid(p, radius, Count()) && ProbesLand(p, radius, Count())
      requires var start := GetBucket(FindBucketAt(p, Count()));
        bs == [start]
          + Unless(GetBucket(FindBucketAt((p.0 - radius, p.1, p.2), Count())), start)
          + Unless(GetBucket(FindBucketAt((p.0 + radius, p.1, p.2), Count())), start)
          + Unless(GetBucket(FindBucketAt((p.0, p.1 - radius, p.2), Count())), start)
          + Unless(GetBucket(FindBucketAt((p.0, p.1 + radius, p.2), Count())), start)
          + Unless(GetBucket(FindBucketAt((p.0, p.1, p.2 - radius), Count())), start)
          + Unless(GetBucket(FindBucketAt((p.0, p.1, p.2 + radius), Count())), start)
      ensures bs == BucketsAt(NearbyCells(p, radius, Count()))
    {
      var cells := ProbeCells(p, radius, Count());
      var start := GetBucket(cells[0]);
      var seen := BucketsAt(cells[1..]);
      ProbeCellsExplicit(p, radius, Count());
      KeepOtherSix(seen, start);
      BucketsKeepOther(cells[1..], cells[0]);
      BucketsAtCons(cells[0], KeepOther(cells[1..], cells[0]));
    }

    lemma BucketsAtCons(c: Cell, rest: seq<Cell>)
      requires buckets.Length1 == buckets.Length0 && buckets.Length2 == buckets.Length0
      requires InGrid(c, buckets.Length0) && forall e | e in rest :: InGrid(e, buckets.Length0)
      ensures BucketsAt([c] + rest) == [GetBucket(c)] + BucketsAt(rest)
    {
    }

    /**
     * `NearbyBuckets` returns the origin's bucket first, between one and seven
     * buckets, no bucket twice, and exactly the buckets the probes land in.
     */
    lemma NearbyBucketsShape(origin: SpaceSystem, radius: real)
      requires Valid() && ProbesInGrid(Pos(origin), radius, Count())
      ensures var bs := BucketsAt(NearbyCells(Pos(origin), radius, Count()));
        && 1 <= |bs| <= 7 && bs[0] == GetBucket(FindBucket(origin))
        && Distinct(bs)
        && (forall c | c in ProbeCells(Pos(origin), radius, Count()) :: GetBucket(c) in bs)
        && (forall b | b in bs :: exists c | c in ProbeCells(Pos(origin), radius, Count()) :: b == GetBucket(c))
    {
      var p := Pos(origin);
      NearbyCellsShape(p, radius, Count());
      DistinctBuckets(NearbyCells(p, radius, Count()), ProbeCells(p, radius, Count()));
    }

    /** Reading the buckets of distinct cells gives distinct buckets, one per cell. */
    lemma DistinctBuckets(nearby: seq<Cell>, cells: seq<Cell>)
      requires Valid()
      requires forall c | c in cells :: InGrid(c, buckets.Length0)
      requires Distinct(nearby)
      requires forall c | c in nearby :: c in cells
      requires forall c | c in cells :: c in nearby
      ensures Distinct(BucketsAt(nearby))
      ensures forall c | c in cells :: GetBucket(c) in BucketsAt(nearby)
      ensures forall b | b in BucketsAt(nearby) :: exists c | c in cells :: b == GetBucket(c)
    {
      var bs := BucketsAt(nearby);
      forall i, j | 0 <= i < j < |bs|
        ensures bs[i] != bs[j]
      {
        GetBucketIdentifies(nearby[i], nearby[j]);
      }
      forall c | c in cells
        ensures GetBucket(c) in bs
      {
        var i :| 0 <= i < |nearby| && nearby[i] == c;
        assert bs[i] == GetBucket(c);
      }
      forall b | b in bs
        ensures exists c | c in cells :: b == GetBucket(c)
      {
        var i :| 0 <= i < |bs| && bs[i] == b;
        assert nearby[i] in cells;
      }
    }

    /**
     * `Proximity`: the systems of the nearby buckets, bucket by bucket, that lie
     * strictly closer than `radius` to the origin.
     */
    method Proximity(dist: Metric, origin: SpaceSystem, radius: real) returns (items: seq<SpaceSystem>)
      requires Valid() && ProbesInGrid(Pos(origin), radius, Count())
      ensures items == WithinRadius(dist, origin, radius, Gather(BucketsAt(NearbyCells(Pos(origin), radius, Count()))))
    {
      items := [];
      var bs := NearbyBuckets(origin, radius);
      for n := 0 to |bs|
        invariant items == WithinRadius(dist, origin, radius, Gather(bs[..n]))
      {
        var bucket := bs[n];
        assert bs[..n + 1][..n] == bs[..n];
        ghost var before := items;
        for m := 0 to |bucket.systems|
          invariant items == before + WithinRadius(dist, origin, radius, bucket.systems[..m])
        {
          var loc := bucket.systems[m];
          assert bucket.systems[..m + 1][..m] == bucket.systems[..m];
          if DistanceTo(dist, origin, loc) < radius {
            items := items + [loc];
          }
        }
        assert bucket.systems[..|bucket.systems|] == bucket.systems;
        WithinRadiusAppend(dist, origin, radius, Gather(bs[..n]), bucket.systems);
      }
      assert bs[..|bs|] == bs;
    }

    /**
     * What `Proximity` finds: exactly the systems of the graph that lie closer
     * than `radius` to the origin and whose cell is one a probe lands in.
     */
    lemma ProximityMembers(dist: Metric, origin: SpaceSystem, radius: real, s: SpaceSystem)
      requires Valid() && ProbesInGrid(Pos(origin), radius, Count())
      ensures s in WithinRadius(dist, origin, radius, Gather(BucketsAt(NearbyCells(Pos(origin), radius, Count()))))
          <==> s in Members && DistanceTo(dist, origin, s) < radius
               && FindBucketAt(Pos(s), Count()) in ProbeCells(Pos(origin), radius, Count())
    {
      var p := Pos(origin);
      var cells := ProbeCells(p, radius, Count());
      var nearby := NearbyCells(p, radius, Count());
      NearbyCellsShape(p, radius, Count());
      DistinctBuckets(nearby, cells);
      var bs := BucketsAt(nearby);
      WithinRadiusMembers(dist, origin, radius, Gather(bs), s);
      GatherMembers(bs, s);
      if s in Gather(bs) {
        var b :| b in bs && s in b.systems;
        var c :| c in cells && b == GetBucket(c);
        BucketHolds(c, s);
      }
      var home := FindBucketAt(Pos(s), Count());
      if s in Members && home in cells {
        BucketHolds(home, s);
      }
    }

    /** A bucket holds exactly the systems of the graph whose cell it is. */
    lemma BucketHolds(c: Cell, s: SpaceSystem)
      requires Valid() && InGrid(c, Count())
      ensures s in GetBucket(c).systems <==> s in Members && FindBucketAt(Pos(s), Count()) == c
    {
      if s in GetBucket(c).systems {
        assert Sorted(c.0, c.1, c.2);
      }
      if s in Members && FindBucketAt(Pos(s), Count()) == c {
        assert Placed(s);
      }
    }

    /** A system of the graph is within any positive radius of itself. */
    lemma ProximityFindsOrigin(dist: Metric, origin: SpaceSystem, radius: real)
      requires Valid() && ProbesInGrid(Pos(origin), radius, Count())
      requires Euclidean(dist) && origin in Members && 0.0 < radius
      ensures origin in WithinRadius(dist, origin, radius, Gather(BucketsAt(NearbyCells(Pos(origin), radius, Count()))))
    {
      ProximityMembers(dist, origin, radius, origin);
      DistanceToSelf(dist, origin, origin);
      assert ProbeCells(Pos(origin), radius, Count())[0] == FindBucketAt(Pos(origin), Count());
    }

    /**
     * `Within` (older graph): the systems of the origin's own bucket that lie
     * strictly closer than `radius` to it; the origin's cell must be in the grid.
     */
    method Within(dist: Metric, origin: SpaceSystem, radius: real) returns (items: seq<SpaceSystem>)
      requires Valid() && InGrid(FindBucket(origin), Count())
      ensures items == WithinRadius(dist, origin, radius, GetBucket(FindBucket(origin)).systems)
    {
      items := [];
      var c := FindBucket(origin);
      var local := buckets[c.0, c.1, c.2].systems;
      for m := 0 to |local|
        invariant items == WithinRadius(dist, origin, radius, local[..m])
      {
        var loc := local[m];
        assert local[..m + 1][..m] == local[..m];
        if DistanceTo(dist, origin, loc) < radius {
          items := items + [loc];
        }
      }
      assert local[..|local|] == local;
    }

    /**
     * What `Within` finds: exactly the systems of the graph in the origin's own
     * cell that lie closer than `radius` to it; neighbouring cells are not searched.
     */
    lemma WithinMembers(dist: Metric, origin: SpaceSystem, radius: real, s: SpaceSystem)
      requires Valid() && InGrid(FindBucket(origin), Count())
      ensures s in WithinRadius(dist, origin, radius, GetBucket(FindBucket(origin)).systems)
          <==> s in Members && DistanceTo(dist, origin, s) < radius && FindBucketAt(Pos(s), Count()) == FindBucket(origin)
    {
      WithinRadiusMembers(dist, origin, radius, GetBucket(FindBucket(origin)).systems, s);
      BucketHolds(FindBucket(origin), s);
    }

    /** The system registered under `id`, or null (`Get`). */
    function Get(id: int): (s: SpaceSystem?)
      requires Valid()
      reads this, buckets, Members
      ensures s != null <==> id in systems
      ensures s != null ==> s.id == id && s in Members
    {
      if id in systems then
        assert Registered(id);
        systems[id]
      else null
    }

    /**
     * `InitGraph`: a `count`^3 grid of empty buckets, `count` being the range
     * of the universe divided by `radius`, rounded up; no systems.
     */
    constructor InitGraph(radius: real)
      requires 0.0 < radius
      ensures Valid() && fresh(buckets)
      ensures Count() == GridCount(radius) && this.radius == radius
      ensures forall i, j, k | 0 <= i < Count() && 0 <= j < Count() && 0 <= k < Count() ::
        buckets[i, j, k] == SpaceBucket([], i, j, k)
      ensures systems == map[] && Members == {}
    {
      var count := GridCount(radius);
      var grid := new SpaceBucket[count, count, count];
      for i := 0 to count
        invariant forall i', j', k' | 0 <= i' < i && 0 <= j' < count && 0 <= k' < count ::
          grid[i', j', k'] == SpaceBucket([], i', j', k')
      {
        for j := 0 to count
          invariant forall i', j', k' | 0 <= i' < i && 0 <= j' < count && 0 <= k' < count ::
            grid[i', j', k'] == SpaceBucket([], i', j', k')
          invariant forall j', k' | 0 <= j' < j && 0 <= k' < count :: grid[i, j', k'] == SpaceBucket([], i, j', k')
        {
          for k := 0 to count
            invariant forall i', j', k' | 0 <= i' < i && 0 <= j' < count && 0 <= k' < count ::
              grid[i', j', k'] == SpaceBucket([], i', j', k')
            invariant forall j', k' | 0 <= j' < j && 0 <= k' < count :: grid[i, j', k'] == SpaceBucket([], i, j', k')
            invariant forall k' | 0 <= k' < k :: grid[i, j, k'] == SpaceBucket([], i, j, k')
          {
            grid[i, j, k] := SpaceBucket([], i, j, k);
          }
        }
      }
      this.buckets := grid;
      this.radius := radius;
      systems := map[];
      Members := {};
    }

    /**
     * `Add`: a system outside the universe is refused with an error and
     * nothing changes; otherwise it is appended to the bucket of its cell, its
     * bucket reference is set to that cell and its id is mapped to it.
     */
    method Add(system: SpaceSystem) returns (err: Option<string>)
      requires Valid()
      modifies this, buckets, system
      ensures Valid()
      ensures !InUniverse(Pos(system)) ==>
        && err == Some("System " + system.name + " out of currently supported bounds.")
        && systems == old(systems) && Members == old(Members)
        && unchanged(buckets) && system.bucket == old(system.bucket)
      ensures InUniverse(Pos(system)) ==>
        && err == None
        && InGrid(FindBucket(system), Count())
        && GetBucket(FindBucket(system)).systems == old(GetBucket(FindBucket(system)).systems) + [system]
        && system.bucket == Some(FindBucket(system))
        && systems == old(systems)[system.id := system]
        && Members == old(Members) + {system}
      ensures forall i, j, k | 0 <= i < Count() && 0 <= j < Count() && 0 <= k < Count() && (i, j, k) != FindBucket(system) ::
        buckets[i, j, k] == old(buckets[i, j, k])
      ensures forall i, j, k | 0 <= i < Count() && 0 <= j < Count() && 0 <= k < Count() ::
        buckets[i, j, k].x == old(buckets[i, j, k].x) && buckets[i, j, k].y == old(buckets[i, j, k].y)
        && buckets[i, j, k].z == old(buckets[i, j, k].z)
    {
      if system.x > UniverseMax || system.x < UniverseMin
        || system.y > UniverseMax || system.y < UniverseMin
        || system.z > UniverseMax || system.z < UniverseMin
      {
        return Some("System " + system.name + " out of currently supported bounds.");
      }
      var c := FindBucket(system);
      system.bucket := Some(c);
      var b := buckets[c.0, c.1, c.2];
      buckets[c.0, c.1, c.2] := b.(systems := b.systems + [system]);
      systems := systems[system.id := system];
      Members := Members + {system};
      err := None;
      forall id | id in systems
        ensures Registered(id)
      {
        if id != system.id {
          assert old(Registered(id));
        }
      }
      forall s | s in Members
        ensures Placed(s)
      {
        if s != system {
          assert old(Placed(s));
        }
      }      forall i, j, k | 0 <= i < Count() && 0 <= j < Count() && 0 <= k < Count()
        ensures Sorted(i, j, k)
      {
        assert old(Sorted(i, j, k));
      }
    }

    /**
     * `Load`: `Add` every system of the data set in order (the callback
     * `ForEachSystem` runs), ignoring the errors of those outside the universe.
     */
    method Load(db: SpaceDB)
      requires Valid()
      modifies this, buckets, set s | s in db.systems
      ensures Valid()
      ensures Members == old(Members) + Accepted(db.systems)
      ensures systems == Indexed(old(systems), db.systems)
      ensures forall i, j, k | 0 <= i < Count() && 0 <= j < Count() && 0 <= k < Count() ::
        buckets[i, j, k] == old(buckets[i, j, k]).(systems := old(buckets[i, j, k].systems) + InCell(db.systems, (i, j, k), Count()))
    {
      for n := 0 to |db.systems|
        invariant Valid()
        invariant Members == old(Members) + Accepted(db.systems[..n])
        invariant systems == Indexed(old(systems), db.systems[..n])
        invariant forall i, j, k {:trigger old(buckets[i, j, k])} | 0 <= i < Count() && 0 <= j < Count() && 0 <= k < Count() ::
          Holds(i, j, k, old(buckets[i, j, k]), db.systems[..n])
      {
        var system := db.systems[n];
        var prefix := db.systems[..n + 1];
        assert prefix[..n] == db.systems[..n] && prefix[n] == system;
        assert prefix == db.systems[..n] + [system];
        AcceptedSnoc(db.systems[..n], system);
        label before:
        var _ := Add(system);
        forall i, j, k | 0 <= i < Count() && 0 <= j < Count() && 0 <= k < Count()
          ensures Holds(i, j, k, old(buckets[i, j, k]), prefix)
        {
          var b0 := old(buckets[i, j, k]);
          assert old@before(Holds(i, j, k, b0, db.systems[..n]));
          StepCell(b0, old@before(buckets[i, j, k]), buckets[i, j, k], db.systems[..n], system, (i, j, k), Count());
        }
      }
      assert db.systems[..|db.systems|] == db.systems;
      forall i, j, k | 0 <= i < Count() && 0 <= j < Count() && 0 <= k < Count()
        ensures buckets[i, j, k] == old(buckets[i, j, k]).(systems := old(buckets[i, j, k].systems) + InCell(db.systems, (i, j, k), Count()))
      {
        assert Holds(i, j, k, old(buckets[i, j, k]), db.systems);
      }
    }

    /** The bucket at `(i, j, k)` is `before` with the systems of `ss` that belong to its cell appended. */
    ghost predicate Holds(i: int, j: int, k: int, before: SpaceBucket, ss: seq<SpaceSystem>)
      reads buckets
    {
      && 1 <= Count() && 0 <= i < Count() && 0 <= j < buckets.Length1 && 0 <= k < buckets.Length2
      && buckets[i, j, k] == before.(systems := before.systems + InCell(ss, (i, j, k), Count()))
    }

    /** `LoadSample`: add the six sample sites, all of which lie inside the universe. */
    method LoadSample()
      requires Valid()
      modifies this, buckets
      ensures Valid() && HoldsSample(systems)
      ensures fresh(systems[1]) && fresh(systems[2]) && fresh(systems[3])
      ensures fresh(systems[4]) && fresh(systems[5]) && fresh(systems[6])
      ensures forall id | id in old(systems) && !(1 <= id <= 6) :: id in systems && systems[id] == old(systems[id])
      ensures forall id | id in systems :: id in old(systems) || 1 <= id <= 6
      ensures Members == old(Members) + {systems[1], systems[2], systems[3], systems[4], systems[5], systems[6]}
      ensures forall i, j, k | 0 <= i < Count() && 0 <= j < Count() && 0 <= k < Count() ::
        buckets[i, j, k] == old(buckets[i, j, k]).(systems := old(buckets[i, j, k].systems) + InCell(SampleSites(systems), (i, j, k), Count()))
    {
      ghost var m0 := systems;
      ghost var start := Snapshot();
      ghost var added0: seq<SpaceSystem> := [];
      assert Built(start, added0) by {
        forall i, j, k | 0 <= i < Count() && 0 <= j < Count() && 0 <= k < Count()
          ensures (i, j, k) in start && Holds(i, j, k, start[(i, j, k)], added0)
        {
          assert InGrid((i, j, k), Count());
          assert start[(i, j, k)].systems + [] == start[(i, j, k)].systems;
        }
      }
      var s1 := AddSampleSite(1, "First Site", 5.0, 3.0, 5.0, start, added0);
      ghost var added1 := added0 + [s1];
      var s2 := AddSampleSite(2, "Second Site", 0.0, -1.0, 2.0, start, added1);
      ghost var added2 := added1 + [s2];
      var s3 := AddSampleSite(3, "Third Site", 5.0, 2.0, 5.0, start, added2);
      ghost var added3 := added2 + [s3];
      var s4 := AddSampleSite(4, "Fourth Site", 0.0, 0.0, 0.0, start, added3);
      ghost var added4 := added3 + [s4];
      var s5 := AddSampleSite(5, "Fifth Site", 6.0, 5.0, 5.0, start, added4);
      ghost var added5 := added4 + [s5];
      var s6 := AddSampleSite(6, "Sixth Site", 2.5, 2.5, 2.5, start, added5);
      ghost var added6 := added5 + [s6];
      SampleMap(m0, s1, s2, s3, s4, s5, s6, systems);
      SampleAdded(added6, s1, s2, s3, s4, s5, s6);
      forall i, j, k | 0 <= i < Count() && 0 <= j < Count() && 0 <= k < Count()
        ensures buckets[i, j, k] == old(buckets[i, j, k]).(systems := old(buckets[i, j, k].systems) + InCell(added6, (i, j, k), Count()))
      {
        assert InGrid((i, j, k), Count());
        assert Holds(i, j, k, start[(i, j, k)], added6);
      }
    }

    /** The contents of every bucket, by cell. */
    ghost function Snapshot(): (m: map<Cell, SpaceBucket>)
      requires Valid()
      reads this, buckets, Members
      ensures forall c | InGrid(c, Count()) :: c in m && m[c] == GetBucket(c)
    {
      map c | c in Cells(Count()) :: GetBucket(c)
    }

    /** Every bucket is its contents in `start` with the systems of `added` that belong to its cell appended. */
    ghost predicate Built(start: map<Cell, SpaceBucket>, added: seq<SpaceSystem>)
      reads buckets
    {
      forall i, j, k | 0 <= i < Count() && 0 <= j < Count() && 0 <= k < Count() ::
        (i, j, k) in start && Holds(i, j, k, start[(i, j, k)], added)
    }

    /** `AddSite` for `LoadSample`, which follows the buckets from their contents `start` as the sites `added` go in. */
    method AddSampleSite(id: int, name: string, x: real, y: real, z: real, ghost start: map<Cell, SpaceBucket>, ghost added: seq<SpaceSystem>)
      returns (s: SpaceSystem)
      requires Valid() && InUniverse((x, y, z)) && Built(start, added)
      modifies this, buckets
      ensures Valid() && fresh(s)
      ensures s.id == id && s.name == name && Pos(s) == (x, y, z)
      ensures systems == old(systems)[id := s] && Members == old(Members) + {s}
      ensures Built(start, added + [s])
    {
      s := AddSite(id, name, x, y, z);
      forall i, j, k | 0 <= i < Count() && 0 <= j < Count() && 0 <= k < Count()
        ensures (i, j, k) in start && Holds(i, j, k, start[(i, j, k)], added + [s])
      {
        assert old(Holds(i, j, k, start[(i, j, k)], added));
        StepCell(start[(i, j, k)], old(buckets[i, j, k]), buckets[i, j, k], added, s, (i, j, k), Count());
      }
    }

    /** Adds a new system with no star or station flags at a position inside the universe. */
    method AddSite(id: int, name: string, x: real, y: real, z: real) returns (s: SpaceSystem)
      requires Valid() && InUniverse((x, y, z))
      modifies this, buckets
      ensures Valid() && fresh(s)
      ensures s.id == id && s.name == name && Pos(s) == (x, y, z)
      ensures systems == old(systems)[id := s] && Members == old(Members) + {s}
      ensures InGrid(FindBucket(s), Count())
      ensures FindBucket(s) == FindBucketAt((x, y, z), Count())
      ensures GetBucket(FindBucket(s)).systems == old(GetBucket(FindBucketAt((x, y, z), Count())).systems) + [s]
      ensures forall i, j, k | 0 <= i < Count() && 0 <= j < Count() && 0 <= k < Count() && (i, j, k) != FindBucket(s) ::
        buckets[i, j, k] == old(buckets[i, j, k])
    {
      s := new SpaceSystem(id, name, x, y, z, false, false);
      var _ := Add(s);
    }
  }

  /** The cells of a grid `count` buckets on a side. */
  function Cells(count: int): (cells: set<Cell>)
    ensures forall c :: c in cells <==> InGrid(c, count)
  {
    set i, j, k | 0 <= i < count && 0 <= j < count && 0 <= k < count :: (i, j, k)
  }

  /** The six sample sites, in the order `LoadSample` adds them. */
  function SampleSites(m: map<int, SpaceSystem>): seq<SpaceSystem>
    requires HoldsSample(m)
  {
    [m[1], m[2], m[3], m[4], m[5], m[6]]
  }

  /** The map after the six sample insertions. */
  lemma SampleMap(m0: map<int, SpaceSystem>, s1: SpaceSystem, s2: SpaceSystem, s3: SpaceSystem,
                  s4: SpaceSystem, s5: SpaceSystem, s6: SpaceSystem, m: map<int, SpaceSystem>)
    requires m == m0[1 := s1][2 := s2][3 := s3][4 := s4][5 := s5][6 := s6]
    requires s1.name == "First Site" && Pos(s1) == (5.0, 3.0, 5.0)
    requires s2.name == "Second Site" && Pos(s2) == (0.0, -1.0, 2.0)
    requires s3.name == "Third Site" && Pos(s3) == (5.0, 2.0, 5.0)
    requires s4.name == "Fourth Site" && Pos(s4) == (0.0, 0.0, 0.0)
    requires s5.name == "Fifth Site" && Pos(s5) == (6.0, 5.0, 5.0)
    requires s6.name == "Sixth Site" && Pos(s6) == (2.5, 2.5, 2.5)
    ensures HoldsSample(m)
    ensures m[1] == s1 && m[2] == s2 && m[3] == s3 && m[4] == s4 && m[5] == s5 && m[6] == s6
    ensures forall id | id in m0 && !(1 <= id <= 6) :: id in m && m[id] == m0[id]
    ensures forall id | id in m :: id in m0 || 1 <= id <= 6
    ensures SampleSites(m) == [s1, s2, s3, s4, s5, s6]
  {
  }

  /** The sites added one by one are the six sample sites, as a sequence and as a set. */
  lemma SampleAdded(added: seq<SpaceSystem>, s1: SpaceSystem, s2: SpaceSystem, s3: SpaceSystem,
                    s4: SpaceSystem, s5: SpaceSystem, s6: SpaceSystem)
    requires added == [] + [s1] + [s2] + [s3] + [s4] + [s5] + [s6]
    ensures added == [s1, s2, s3, s4, s5, s6]
    ensures forall members: set<SpaceSystem> :: members + {s1} + {s2} + {s3} + {s4} + {s5} + {s6} == members + {s1, s2, s3, s4, s5, s6}
  {
  }
}
