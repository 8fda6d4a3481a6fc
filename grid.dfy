/**
 * The arithmetic of the spatial index: the universe bounds, the size of a grid
 * cell and the cell that holds a position (structs/search.go, `FindBucket`,
 * `InitGraph` and the probes of `NearbyBuckets`).
 */
module Grid {
  import opened Entities

  const UniverseMin: real := -16899.750
  const UniverseMax: real := 65630.156

  /** Width of the universe along each axis. */
  const UniverseRange: real := UniverseMax - UniverseMin

  /** `math.Ceil` on reals. */
  function Ceil(r: real): (n: int)
    ensures r <= n as real < r + 1.0
  {
    -((-r).Floor)
  }

  /** The number of cells along each axis for a grid whose cells have width `radius` (`InitGraph`). */
  function GridCount(radius: real): (n: int)
    requires 0.0 < radius
    ensures 1 <= n
    ensures UniverseRange <= n as real * radius
  {
    var q := UniverseRange / radius;
    assert q * radius == UniverseRange;
    MulLe(q, Ceil(q) as real, radius);
    Ceil(q)
  }

  /** Width of a cell in a grid of `count` cells per axis: the range divided by `count`, rounded up. */
  function BucketSize(count: int): (size: real)
    requires 1 <= count
    ensures 1.0 <= size
    ensures UniverseRange <= count as real * size
  {
    var q := UniverseRange / count as real;
    assert q * count as real == UniverseRange;
    MulLe(q, Ceil(q) as real, count as real);
    Ceil(q) as real
  }

  /** Grid index of one coordinate: how many whole cells it lies above `UniverseMin`. */
  function CellIndex(c: real, count: int): int
    requires 1 <= count
  {
    ((c - UniverseMin) / BucketSize(count)).Floor
  }

  /** The cell that holds a position (`FindBucket`). */
  function FindBucketAt(p: Point, count: int): Cell
    requires 1 <= count
  {
    (CellIndex(p.0, count), CellIndex(p.1, count), CellIndex(p.2, count))
  }

  predicate InUniverse(p: Point)
  {
    && UniverseMin <= p.0 <= UniverseMax
    && UniverseMin <= p.1 <= UniverseMax
    && UniverseMin <= p.2 <= UniverseMax
  }

  predicate InGrid(c: Cell, count: int)
  {
    0 <= c.0 < count && 0 <= c.1 < count && 0 <= c.2 < count
  }

  /**
   * A coordinate inside the universe has an index inside the grid. The upper
   * bound holds because `count * BucketSize(count)` is a whole number while
   * the range of the universe is not, so it strictly exceeds the range.
   */
  lemma CellInRange(c: real, count: int)
    requires 1 <= count
    requires UniverseMin <= c <= UniverseMax
    ensures 0 <= CellIndex(c, count) < count
  {
    var size := BucketSize(count);
    var q := (c - UniverseMin) / size;
    assert q * size == c - UniverseMin;
    var whole := count * Ceil(UniverseRange / count as real);
    assert whole as real == count as real * size;
    assert UniverseRange.Floor == 82529;
    assert UniverseRange != whole as real;
    assert UniverseRange < count as real * size;
    if count as real <= q {
      MulLe(count as real, q, size);
    }
    if q < 0.0 {
      MulNeg(q, size);
    }
  }

  /** Every position of the universe lies in a cell of the grid. */
  lemma FindBucketInGrid(p: Point, count: int)
    requires 1 <= count && InUniverse(p)
    ensures InGrid(FindBucketAt(p, count), count)
  {
    CellInRange(p.0, count);
    CellInRange(p.1, count);
    CellInRange(p.2, count);
  }

  /** Cell indices never decrease as the coordinate grows. */
  lemma CellMonotone(c: real, d: real, count: int)
    requires 1 <= count && c <= d
    ensures CellIndex(c, count) <= CellIndex(d, count)
  {
    var size := BucketSize(count);
    var q, r := (c - UniverseMin) / size, (d - UniverseMin) / size;
    assert q * size == c - UniverseMin && r * size == d - UniverseMin;
    if r < q {
      MulLe(r, q, size);
    }
  }

  lemma MulLe(a: real, b: real, c: real)
    requires a <= b && 0.0 < c
    ensures a * c <= b * c
  {
    var d := b - a;
    assert 0.0 <= d * c;
    assert b * c == a * c + d * c;
  }

  lemma MulNeg(a: real, c: real)
    requires a < 0.0 && 0.0 < c
    ensures a * c < 0.0
  {
    assert 0.0 < (-a) * c;
    assert a * c == -((-a) * c);
  }

  // ---------------------------------------------------------------------------
  // The probes of `NearbyBuckets`: the origin and one point `radius` away along
  // each of -x, +x, -y, +y, -z, +z, in that order.

  function ProbePoints(p: Point, radius: real): (probes: seq<Point>)
    ensures |probes| == 7 && probes[0] == p
  {
    [ p,
      (p.0 - radius, p.1, p.2), (p.0 + radius, p.1, p.2),
      (p.0, p.1 - radius, p.2), (p.0, p.1 + radius, p.2),
      (p.0, p.1, p.2 - radius), (p.0, p.1, p.2 + radius) ]
  }

  /** The cells the probes land in, in probe order. */
  function ProbeCells(p: Point, radius: real, count: int): (cells: seq<Cell>)
    requires 1 <= count
    ensures |cells| == 7
    ensures forall i :: 0 <= i < 7 ==> cells[i] == FindBucketAt(ProbePoints(p, radius)[i], count)
  {
    var probes := ProbePoints(p, radius);
    seq(7, i requires 0 <= i < 7 => FindBucketAt(probes[i], count))
  }

  /** Every probe of `p` lands inside the grid; otherwise `NearbyBuckets` indexes out of range. */
  predicate ProbesInGrid(p: Point, radius: real, count: int)
    requires 1 <= count
  {
    forall c | c in ProbeCells(p, radius, count) :: InGrid(c, count)
  }

  /** The origin and each of its six probes land in the grid. */
  predicate ProbesLand(p: Point, radius: real, count: int)
    requires 1 <= count
  {
    && InGrid(FindBucketAt(p, count), count)
    && InGrid(FindBucketAt((p.0 - radius, p.1, p.2), count), count)
    && InGrid(FindBucketAt((p.0 + radius, p.1, p.2), count), count)
    && InGrid(FindBucketAt((p.0, p.1 - radius, p.2), count), count)
    && InGrid(FindBucketAt((p.0, p.1 + radius, p.2), count), count)
    && InGrid(FindBucketAt((p.0, p.1, p.2 - radius), count), count)
    && InGrid(FindBucketAt((p.0, p.1, p.2 + radius), count), count)
  }

  /** The probe cells, written out. */
  lemma ProbeCellsExplicit(p: Point, radius: real, count: int)
    requires 1 <= count
    ensures var cells := ProbeCells(p, radius, count);
      && cells[0] == FindBucketAt(p, count)
      && cells[1] == FindBucketAt((p.0 - radius, p.1, p.2), count)
      && cells[2] == FindBucketAt((p.0 + radius, p.1, p.2), count)
      && cells[3] == FindBucketAt((p.0, p.1 - radius, p.2), count)
      && cells[4] == FindBucketAt((p.0, p.1 + radius, p.2), count)
      && cells[5] == FindBucketAt((p.0, p.1, p.2 - radius), count)
      && cells[6] == FindBucketAt((p.0, p.1, p.2 + radius), count)
  {
    var probes := ProbePoints(p, radius);
    assert probes[1] == (p.0 - radius, p.1, p.2);
  }

  lemma ProbesInGridLand(p: Point, radius: real, count: int)
    requires 1 <= count && ProbesInGrid(p, radius, count)
    ensures ProbesLand(p, radius, count)
  {
    var cells := ProbeCells(p, radius, count);
    assert cells[0] in cells && cells[1] in cells && cells[2] in cells && cells[3] in cells;
    assert cells[4] in cells && cells[5] in cells && cells[6] in cells;
  }

  /** The cells `NearbyBuckets` returns: the origin's cell, then every probe cell that differs from it. */
  function NearbyCells(p: Point, radius: real, count: int): seq<Cell>
    requires 1 <= count
  {
    var cells := ProbeCells(p, radius, count);
    [cells[0]] + KeepOther(cells[1..], cells[0])
  }

  /** No element occurs twice. */
  predicate Distinct<T(==)>(xs: seq<T>)
  {
    forall i, j :: 0 <= i < j < |xs| ==> xs[i] != xs[j]
  }

  /** The elements of `xs` other than `start`, in order. */
  function KeepOther<T(==)>(xs: seq<T>, start: T): (r: seq<T>)
    ensures |r| <= |xs|
    ensures forall c | c in r :: c in xs && c != start
    ensures forall c | c in xs && c != start :: c in r
  {
    if xs == [] then []
    else
      var last := xs[|xs| - 1];
      KeepOther(xs[..|xs| - 1], start) + (if last != start then [last] else [])
  }

  /**
   * `NearbyBuckets` returns the origin's cell first, between one and seven
   * cells, never the same cell twice, and every cell a probe lands in.
   */
  lemma NearbyCellsShape(p: Point, radius: real, count: int)
    requires 1 <= count
    ensures var cells := NearbyCells(p, radius, count);
      && 1 <= |cells| <= 7
      && cells[0] == FindBucketAt(p, count)
      && (forall c :: c in cells <==> c in ProbeCells(p, radius, count))
      && Distinct(cells)
  {
    var probes := ProbeCells(p, radius, count);
    var start := probes[0];
    var rest := KeepOther(probes[1..], start);
    var cells := NearbyCells(p, radius, count);
    assert cells == [start] + rest;
    assert forall c :: c in probes <==> c == start || c in probes[1..];
    ProbesDistinct(p, radius, count);
    KeepOtherDistinct(probes[1..], start);
    forall i, j | 0 <= i < j < |cells|
      ensures cells[i] != cells[j]
    {
      assert cells[j] == rest[j - 1] && rest[j - 1] in rest;
      if 0 < i {
        assert cells[i] == rest[i - 1];
      }
    }
  }

  /** Two probe cells that both differ from the origin's cell differ from each other. */
  lemma ProbesDistinct(p: Point, radius: real, count: int)
    requires 1 <= count
    ensures var cells := ProbeCells(p, radius, count);
      forall i, j :: 1 <= i < j < 7 && cells[i] != cells[0] && cells[j] != cells[0] ==> cells[i] != cells[j]
  {
    var cells := ProbeCells(p, radius, count);
    OppositeProbes(p.0, radius, count);
    OppositeProbes(p.1, radius, count);
    OppositeProbes(p.2, radius, count);
  }

  /**
   * The cell indices of `c - radius` and `c + radius` lie on opposite sides of
   * that of `c`, so when both differ from it they differ from each other.
   */
  lemma OppositeProbes(c: real, radius: real, count: int)
    requires 1 <= count
    ensures var lo, mid, hi := CellIndex(c - radius, count), CellIndex(c, count), CellIndex(c + radius, count);
      lo != mid && hi != mid ==> lo != hi
  {
    if 0.0 <= radius {
      CellMonotone(c - radius, c, count);
      CellMonotone(c, c + radius, count);
    } else {
      CellMonotone(c, c - radius, count);
      CellMonotone(c + radius, c, count);
    }
  }

  /** Keeping the cells other than `start` out of a list whose such cells are pairwise distinct gives a list without repeats. */
  lemma {:induction false} KeepOtherDistinct(cells: seq<Cell>, start: Cell)
    requires forall i, j :: 0 <= i < j < |cells| && cells[i] != start && cells[j] != start ==> cells[i] != cells[j]
    ensures Distinct(KeepOther(cells, start))
  {
    if cells != [] {
      var front, last := cells[..|cells| - 1], cells[|cells| - 1];
      KeepOtherDistinct(front, start);
      var rest := KeepOther(front, start);
      if last != start {
        forall c | c in rest
          ensures c != last
        {
          var k :| 0 <= k < |front| && front[k] == c;
          assert cells[k] == c;
        }
        var r := KeepOther(cells, start);
        assert r == rest + [last];
        forall i, j | 0 <= i < j < |r|
          ensures r[i] != r[j]
        {
          assert r[i] == rest[i] && rest[i] in rest;
          if j < |r| - 1 {
            assert r[j] == rest[j];
          }
        }
      } else {
        assert KeepOther(cells, start) == rest;
      }
    }
  }
}
