/** The grid-accelerated Voronoi/Delaunay engine of VisualBloom.kt.

    The picture is cut into cells of `sizeX` x `sizeY` pixels and every cell
    gets one pseudo-random seed (a `Center`). Nearest-seed queries only look at
    the 3x3 block of cells around the query point, and two seeds are
    neighbours when the two nearest seeds of their midpoint are exactly those
    two.

    Distances in the program are `sqrt` of a sum of squares and are only ever
    compared with each other; the square root is monotone, so the model keeps
    the squared distance itself. A `Center`'s mutable `neighbors` and `radius`
    live in the `VoronoiDelaunay` object, indexed by the center's `n`. */
module Voronoi {
  import opened JavaInt
  import opened Wrappers
  import BloomHash

  // ---------------------------------------------------------------------
  // The grid and the seeds

  /** The cell size and the margins, top-level `var`s in the program. */
  datatype Grid = Grid(sizeX: Int, sizeY: Int, marginX: Int, marginY: Int)

  /** Grids the model covers: each seed can be placed strictly inside its
      cell, and no seed coordinate overflows an `Int`. */
  predicate ValidGrid(g: Grid)
  {
    0 <= g.marginX && 2 * g.marginX < g.sizeX &&
    0 <= g.marginY && 2 * g.marginY < g.sizeY &&
    (BloomHash.PICTURE_HEIGHT / g.sizeX) * g.sizeY <= INT_MAX
  }

  /** `maxMatrixX`: the number of cell columns. */
  function Cols(g: Grid): (r: nat)
    requires ValidGrid(g)
    ensures r <= BloomHash.PICTURE_WIDTH && r * g.sizeX <= BloomHash.PICTURE_WIDTH
  {
    var r := BloomHash.PICTURE_WIDTH / g.sizeX;
    DivBound(BloomHash.PICTURE_WIDTH, g.sizeX, r);
    r
  }

  /** `maxMatrixY`: the number of cell rows, which the program divides by the
      cell WIDTH. */
  function Rows(g: Grid): (r: nat)
    requires ValidGrid(g)
    ensures r <= BloomHash.PICTURE_HEIGHT && r * g.sizeX <= BloomHash.PICTURE_HEIGHT
  {
    var r := BloomHash.PICTURE_HEIGHT / g.sizeX;
    DivBound(BloomHash.PICTURE_HEIGHT, g.sizeX, r);
    r
  }

  lemma DivBound(a: nat, s: int, q: int)
    requires 0 < s && q == a / s
    ensures 0 <= q <= a && q * s <= a
  {
    assert q * s + a % s == a && 0 <= a % s;
    if q > 0 {
      MulAtLeast(s, q);
    }
  }

  predicate InGrid(g: Grid, nx: int, ny: int)
    requires ValidGrid(g)
  {
    0 <= nx < Cols(g) && 0 <= ny < Rows(g)
  }

  /** A seed: its position, its index in `centers` and its cell. */
  datatype Center = Center(x: int, y: int, n: int, nx: int, ny: int)

  /** The seed of cell (nx, ny): offset by a margin plus a hash of the cell
      horizontally, and by a margin plus a hash of that horizontal offset
      vertically; its index counts the cells column by column. */
  function Seed(g: Grid, nx: int, ny: int): (c: Center)
    requires ValidGrid(g) && InGrid(g, nx, ny)
    ensures c.nx == nx && c.ny == ny && c.n == nx * Rows(g) + ny
    ensures g.marginX <= c.x - nx * g.sizeX < g.sizeX - g.marginX
    ensures g.marginY <= c.y - ny * g.sizeY < g.sizeY - g.marginY
  {
    var ox := g.marginX + BloomHash.Hash3(nx, ny, g.sizeX - 2 * g.marginX).value;
    var oy := g.marginY + BloomHash.Hash(ox, g.sizeY - 2 * g.marginY).value;
    Center(nx * g.sizeX + ox, ny * g.sizeY + oy, nx * Rows(g) + ny, nx, ny)
  }

  /** `IPoint.nx` and `IPoint.ny`: the cell of a point, by truncating
      division. */
  function CellX(g: Grid, x: int): int
    requires ValidGrid(g)
  {
    Quot(x, g.sizeX)
  }

  function CellY(g: Grid, y: int): int
    requires ValidGrid(g)
  {
    Quot(y, g.sizeY)
  }

  lemma CellOf(q: nat, s: int, o: int, a: int)
    requires 0 <= o < s && a == q * s + o
    ensures Quot(a, s) == q
  {
    assert 0 <= a;
    DivUnique(a, s, q, o);
  }

  /** Euclidean division is unique. */
  lemma DivUnique(a: int, s: int, q: int, o: int)
    requires 0 <= o < s && a == q * s + o
    ensures a / s == q && a % s == o
  {
    var d, m := a / s, a % s;
    assert a == d * s + m && 0 <= m < s;
    Distrib(d, q, s);
    if d > q {
      MulAtLeast(d - q, s);
    } else if d < q {
      Distrib(q, d, s);
      MulAtLeast(q - d, s);
    }
  }

  lemma Distrib(a: int, b: int, s: int)
    ensures (a - b) * s == a * s - b * s
  {
  }

  lemma MulAtLeast(t: int, s: int)
    requires 1 <= t && 0 < s
    ensures s <= t * s
  {
  }

  /** The position in `centers` of the seed of cell (nx, ny): the cells are
      visited column by column. `centersMatrix[nx][ny]` is the same object as
      `centers[Index(nx, ny)]`. */
  function Index(g: Grid, nx: int, ny: int): (r: int)
    requires ValidGrid(g)
    ensures InGrid(g, nx, ny) ==> 0 <= r < Cols(g) * Rows(g)
  {
    if InGrid(g, nx, ny) then
      BloomHash.RowMajorBelow(ny, nx, Rows(g), Cols(g));
      nx * Rows(g) + ny
    else
      nx * Rows(g) + ny
  }

  /** Different cells have different positions. */
  lemma IndexInjective(g: Grid, nx: int, ny: int, mx: int, my: int)
    requires ValidGrid(g) && InGrid(g, nx, ny) && InGrid(g, mx, my)
    requires Index(g, nx, ny) == Index(g, mx, my)
    ensures nx == mx && ny == my
  {
    DivUnique(Index(g, nx, ny), Rows(g), nx, ny);
    DivUnique(Index(g, mx, my), Rows(g), mx, my);
  }

  lemma CellOfIndex(g: Grid, k: int)
    requires ValidGrid(g) && 0 <= k < Cols(g) * Rows(g)
    ensures Rows(g) > 0 && InGrid(g, k / Rows(g), k % Rows(g)) && Index(g, k / Rows(g), k % Rows(g)) == k
  {
    var rows := Rows(g);
    assert rows > 0;
    BloomHash.DivBelow(k, rows, Cols(g));
  }

  /** What the seed of its cell satisfies whatever the hash values: it lies
      inside the cell, away from the margins, and its number is the cell's
      position. */
  predicate PlacedAt(g: Grid, c: Center)
    requires ValidGrid(g)
  {
    InGrid(g, c.nx, c.ny) && c.n == Index(g, c.nx, c.ny) &&
    g.marginX <= c.x - c.nx * g.sizeX < g.sizeX - g.marginX &&
    g.marginY <= c.y - c.ny * g.sizeY < g.sizeY - g.marginY
  }

  /** A placement of one seed per cell, each at the position its number
      gives. */
  ghost predicate Placed(g: Grid, cs: seq<Center>)
    requires ValidGrid(g)
  {
    |cs| == Cols(g) * Rows(g) &&
    forall k :: 0 <= k < |cs| ==> cs[k].n == k && PlacedAt(g, cs[k])
  }

  /** The seed created k-th. */
  function SeedNumber(g: Grid, k: int): (c: Center)
    requires ValidGrid(g) && 0 <= k < Cols(g) * Rows(g)
    ensures c.n == k && PlacedAt(g, c)
  {
    CellOfIndex(g, k);
    Seed(g, k / Rows(g), k % Rows(g))
  }

  /** `centers` once every cell has its seed: a placement. */
  function Seeds(g: Grid): (r: seq<Center>)
    requires ValidGrid(g)
    ensures Placed(g, r)
  {
    var r := seq(Cols(g) * Rows(g), k requires 0 <= k < Cols(g) * Rows(g) => SeedNumber(g, k));
    NumberedSeeds(g, r);
    r
  }

  /** Seeds listed by number form a placement. */
  lemma NumberedSeeds(g: Grid, r: seq<Center>)
    requires ValidGrid(g) && |r| == Cols(g) * Rows(g)
    requires forall k :: 0 <= k < |r| ==> r[k] == SeedNumber(g, k)
    ensures Placed(g, r)
  {
  }

  /** The seed of cell (nx, ny) is `centers[Index(nx, ny)]`. */
  lemma SeedsByCell(g: Grid, nx: int, ny: int)
    requires ValidGrid(g) && InGrid(g, nx, ny)
    ensures 0 <= Index(g, nx, ny) < |Seeds(g)| && Seeds(g)[Index(g, nx, ny)] == Seed(g, nx, ny)
  {
    DivUnique(Index(g, nx, ny), Rows(g), nx, ny);
  }

  /** In a placement, the seed of an in-grid cell sits at the cell's
      position. */
  lemma PlacedCell(g: Grid, cs: seq<Center>, nx: int, ny: int)
    requires ValidGrid(g) && Placed(g, cs) && InGrid(g, nx, ny)
    ensures 0 <= Index(g, nx, ny) < |cs|
    ensures cs[Index(g, nx, ny)].nx == nx && cs[Index(g, nx, ny)].ny == ny
  {
    var c := cs[Index(g, nx, ny)];
    IndexInjective(g, nx, ny, c.nx, c.ny);
  }

  /** A placed seed lies in its own cell. */
  lemma PlacedInOwnCell(g: Grid, c: Center)
    requires ValidGrid(g) && PlacedAt(g, c)
    ensures CellX(g, c.x) == c.nx && CellY(g, c.y) == c.ny
  {
    CellOf(c.nx, g.sizeX, c.x - c.nx * g.sizeX, c.x);
    CellOf(c.ny, g.sizeY, c.y - c.ny * g.sizeY, c.y);
  }

  // ---------------------------------------------------------------------
  // The 3x3 block of cells

  /** The offsets of `neighborCells`, row by row. */
  const OFFSETS: seq<(int, int)> :=
    [(-1, -1), (0, -1), (1, -1), (-1, 0), (0, 0), (1, 0), (-1, 1), (0, 1), (1, 1)]

  /** Cell a comes strictly before cell b in row-major order. */
  predicate RowMajorBefore(a: (int, int), b: (int, int))
  {
    a.1 < b.1 || (a.1 == b.1 && a.0 < b.0)
  }

  /** Centers listed strictly in row-major order of their cells. */
  predicate RowMajor(r: seq<Center>)
  {
    forall i, j :: 0 <= i < j < |r| ==> RowMajorBefore((r[i].nx, r[i].ny), (r[j].nx, r[j].ny))
  }

  lemma OffsetsBlock()
    ensures forall d :: d in OFFSETS <==> -1 <= d.0 <= 1 && -1 <= d.1 <= 1
  {
    forall d: (int, int) | -1 <= d.0 <= 1 && -1 <= d.1 <= 1
      ensures d in OFFSETS
    {
      var k := (d.1 + 1) * 3 + (d.0 + 1);
      assert OFFSETS[k] == d;
    }
  }

  lemma OffsetsRowMajor()
    ensures forall i, j :: 0 <= i < j < |OFFSETS| ==> RowMajorBefore(OFFSETS[i], OFFSETS[j])
  {
  }

  /** The seeds of the cells (nx, ny) + d for d in offsets that lie in the
      grid, in the order of the offsets. */
  function Cells(g: Grid, cs: seq<Center>, nx: int, ny: int, offsets: seq<(int, int)>): seq<Center>
    requires ValidGrid(g) && Placed(g, cs)
  {
    if offsets == [] then []
    else
      var cx, cy := nx + offsets[0].0, ny + offsets[0].1;
      (if InGrid(g, cx, cy) then [cs[Index(g, cx, cy)]] else []) +
      Cells(g, cs, nx, ny, offsets[1..])
  }

  lemma {:induction false} CellsMembers(g: Grid, cs: seq<Center>, nx: int, ny: int, offsets: seq<(int, int)>)
    requires ValidGrid(g) && Placed(g, cs)
    ensures |Cells(g, cs, nx, ny, offsets)| <= |offsets|
    ensures forall c :: c in Cells(g, cs, nx, ny, offsets) ==>
      InGrid(g, c.nx, c.ny) && (c.nx - nx, c.ny - ny) in offsets && c == cs[Index(g, c.nx, c.ny)]
  {
    if offsets != [] {
      var tail := offsets[1..];
      CellsMembers(g, cs, nx, ny, tail);
      var cx, cy := nx + offsets[0].0, ny + offsets[0].1;
      if InGrid(g, cx, cy) {
        PlacedCell(g, cs, cx, cy);
      }
      assert forall d :: d in tail ==> d in offsets;
    }
  }

  lemma {:induction false} CellsComplete(g: Grid, cs: seq<Center>, nx: int, ny: int, offsets: seq<(int, int)>)
    requires ValidGrid(g) && Placed(g, cs)
    ensures forall cx, cy :: InGrid(g, cx, cy) && (cx - nx, cy - ny) in offsets ==>
      cs[Index(g, cx, cy)] in Cells(g, cs, nx, ny, offsets)
  {
    if offsets != [] {
      CellsComplete(g, cs, nx, ny, offsets[1..]);
      forall cx, cy | InGrid(g, cx, cy) && (cx - nx, cy - ny) in offsets
        ensures cs[Index(g, cx, cy)] in Cells(g, cs, nx, ny, offsets)
      {
        if (cx - nx, cy - ny) != offsets[0] {
          assert (cx - nx, cy - ny) in offsets[1..];
        }
      }
    }
  }

  lemma ConsRowMajor(head: Center, rest: seq<Center>)
    requires RowMajor(rest)
    requires forall c :: c in rest ==> RowMajorBefore((head.nx, head.ny), (c.nx, c.ny))
    ensures RowMajor([head] + rest)
  {
    var r := [head] + rest;
    forall i, j | 0 <= i < j < |r|
      ensures RowMajorBefore((r[i].nx, r[i].ny), (r[j].nx, r[j].ny))
    {
      assert r[j] == rest[j - 1];
      if i > 0 {
        assert r[i] == rest[i - 1];
      }
    }
  }

  lemma {:induction false} CellsOrdered(g: Grid, cs: seq<Center>, nx: int, ny: int, offsets: seq<(int, int)>)
    requires ValidGrid(g) && Placed(g, cs)
    requires forall i, j :: 0 <= i < j < |offsets| ==> RowMajorBefore(offsets[i], offsets[j])
    ensures RowMajor(Cells(g, cs, nx, ny, offsets))
  {
    if offsets != [] {
      var tail := offsets[1..];
      CellsOrdered(g, cs, nx, ny, tail);
      var rest := Cells(g, cs, nx, ny, tail);
      var cx, cy := nx + offsets[0].0, ny + offsets[0].1;
      if InGrid(g, cx, cy) {
        PlacedCell(g, cs, cx, cy);
        var head := cs[Index(g, cx, cy)];
        CellsMembers(g, cs, nx, ny, tail);
        forall c | c in rest
          ensures RowMajorBefore((head.nx, head.ny), (c.nx, c.ny))
        {
          var m :| 0 <= m < |tail| && tail[m] == (c.nx - nx, c.ny - ny);
          assert offsets[m + 1] == tail[m];
        }
        ConsRowMajor(head, rest);
      }
    }
  }

  /** `neighborCells`: the seeds of the 3x3 block of cells around (nx, ny),
      clipped to the grid, row by row. */
  function NeighborCells(g: Grid, cs: seq<Center>, nx: int, ny: int): seq<Center>
    requires ValidGrid(g) && Placed(g, cs)
  {
    Cells(g, cs, nx, ny, OFFSETS)
  }

  /** At most nine seeds, each the seed of an in-grid cell of the 3x3
      block. */
  lemma NeighborCellsMembers(g: Grid, cs: seq<Center>, nx: int, ny: int)
    requires ValidGrid(g) && Placed(g, cs)
    ensures |NeighborCells(g, cs, nx, ny)| <= 9
    ensures forall c :: c in NeighborCells(g, cs, nx, ny) ==>
      InGrid(g, c.nx, c.ny) && -1 <= c.nx - nx <= 1 && -1 <= c.ny - ny <= 1 && c == cs[Index(g, c.nx, c.ny)]
  {
    OffsetsBlock();
    CellsMembers(g, cs, nx, ny, OFFSETS);
  }

  /** Every in-grid cell of the 3x3 block contributes its seed. */
  lemma NeighborCellsComplete(g: Grid, cs: seq<Center>, nx: int, ny: int)
    requires ValidGrid(g) && Placed(g, cs)
    ensures forall cx, cy :: InGrid(g, cx, cy) && -1 <= cx - nx <= 1 && -1 <= cy - ny <= 1 ==>
      cs[Index(g, cx, cy)] in NeighborCells(g, cs, nx, ny)
  {
    CellsComplete(g, cs, nx, ny, OFFSETS);
    forall cx, cy | InGrid(g, cx, cy) && -1 <= cx - nx <= 1 && -1 <= cy - ny <= 1
      ensures cs[Index(g, cx, cy)] in NeighborCells(g, cs, nx, ny)
    {
      assert OFFSETS[(cy - ny + 1) * 3 + (cx - nx + 1)] == (cx - nx, cy - ny);
    }
  }

  /** The seeds come row by row, so none twice. */
  lemma NeighborCellsOrdered(g: Grid, cs: seq<Center>, nx: int, ny: int)
    requires ValidGrid(g) && Placed(g, cs)
    ensures RowMajor(NeighborCells(g, cs, nx, ny))
  {
    OffsetsRowMajor();
    CellsOrdered(g, cs, nx, ny, OFFSETS);
  }

  // ---------------------------------------------------------------------
  // Distances

  /** `sqr`. */
  function Sqr(n: int): nat
  {
    n * n
  }

  /** The square of `distanceTo` between (px, py) and (qx, qy). */
  function DistSq(px: int, py: int, qx: int, qy: int): nat
  {
    Sqr(px - qx) + Sqr(py - qy)
  }

  /** The distance is symmetric and vanishes exactly between equal points. */
  lemma DistSqMetric(px: int, py: int, qx: int, qy: int)
    ensures DistSq(px, py, qx, qy) == DistSq(qx, qy, px, py)
    ensures DistSq(px, py, qx, qy) == 0 <==> px == qx && py == qy
  {
    assert Sqr(px - qx) == Sqr(qx - px);
    assert Sqr(py - qy) == Sqr(qy - py);
    if px != qx {
      SqrPositive(px - qx);
    }
    if py != qy {
      SqrPositive(py - qy);
    }
  }

  lemma SqrPositive(n: int)
    requires n != 0
    ensures Sqr(n) > 0
  {
  }

  /** A candidate paired with its distance from the query point. */
  datatype Neighbor = Neighbor(center: Center, distSq: nat)

  /** `map { Pair(it, point.distanceTo(it)) }`. */
  function Measure(cs: seq<Center>, x: int, y: int): (r: seq<Neighbor>)
    ensures |r| == |cs|
    ensures forall i :: 0 <= i < |cs| ==> r[i] == Neighbor(cs[i], DistSq(x, y, cs[i].x, cs[i].y))
  {
    seq(|cs|, i requires 0 <= i < |cs| => Neighbor(cs[i], DistSq(x, y, cs[i].x, cs[i].y)))
  }

  /** The measured entries are exactly the centers paired with their
      distances. */
  lemma MeasureMembers(cs: seq<Center>, x: int, y: int)
    ensures forall m :: m in Measure(cs, x, y) <==> m.center in cs && m.distSq == DistSq(x, y, m.center.x, m.center.y)
  {
    var ns := Measure(cs, x, y);
    forall m: Neighbor | m.center in cs && m.distSq == DistSq(x, y, m.center.x, m.center.y)
      ensures m in ns
    {
      var i :| 0 <= i < |cs| && cs[i] == m.center;
      assert ns[i] == m;
    }
  }

  /** The earliest minimum-distance entry, as `minBy` and `findNearest` pick
      it: a later entry replaces the current one only when strictly
      nearer. */
  function NearestIndex(ns: seq<Neighbor>): (i: nat)
    requires |ns| > 0
    ensures i < |ns|
    ensures forall j :: 0 <= j < |ns| ==> ns[i].distSq <= ns[j].distSq
    ensures forall j :: 0 <= j < i ==> ns[i].distSq < ns[j].distSq
  {
    if |ns| == 1 then 0
    else
      var k := NearestIndex(ns[..|ns| - 1]);
      if ns[|ns| - 1].distSq < ns[k].distSq then |ns| - 1 else k
  }

  /** The earliest minimum is unique. */
  lemma EarliestNearestUnique(ns: seq<Neighbor>, i: int)
    requires 0 <= i < |ns|
    requires forall j :: 0 <= j < |ns| ==> ns[i].distSq <= ns[j].distSq
    requires forall j :: 0 <= j < i ==> ns[i].distSq < ns[j].distSq
    ensures NearestIndex(ns) == i
  {
    var k := NearestIndex(ns);
    assert ns[k].distSq <= ns[i].distSq && ns[i].distSq <= ns[k].distSq;
  }

  // ---------------------------------------------------------------------
  // sortedBy { distance }: a stable sort

  predicate SortedByDist(s: seq<Neighbor>)
  {
    forall i, j :: 0 <= i < j < |s| ==> s[i].distSq <= s[j].distSq
  }

  /** Inserts m in front of every entry at least as far: m came earlier in the
      input, so equal distances keep their input order. */
  function Insert(m: Neighbor, s: seq<Neighbor>): (r: seq<Neighbor>)
    ensures |r| == |s| + 1
  {
    if s == [] || m.distSq <= s[0].distSq then [m] + s
    else [s[0]] + Insert(m, s[1..])
  }

  function SortByDist(ns: seq<Neighbor>): (r: seq<Neighbor>)
    ensures |r| == |ns|
  {
    if ns == [] then [] else Insert(ns[0], SortByDist(ns[1..]))
  }

  lemma {:induction false} InsertPermutes(m: Neighbor, s: seq<Neighbor>)
    ensures multiset(Insert(m, s)) == multiset(s) + multiset{m}
  {
    if s != [] && m.distSq > s[0].distSq {
      InsertPermutes(m, s[1..]);
      assert s == [s[0]] + s[1..];
    }
  }

  /** Whatever bounds m and every entry of s from below bounds the result. */
  lemma {:induction false} InsertAbove(m: Neighbor, s: seq<Neighbor>, low: nat)
    requires low <= m.distSq
    requires forall j :: 0 <= j < |s| ==> low <= s[j].distSq
    ensures forall j :: 0 <= j < |Insert(m, s)| ==> low <= Insert(m, s)[j].distSq
  {
    if s != [] && m.distSq > s[0].distSq {
      InsertAbove(m, s[1..], low);
      var r := Insert(m, s);
      assert forall j :: 1 <= j < |r| ==> r[j] == Insert(m, s[1..])[j - 1];
    }
  }

  lemma {:induction false} InsertSorted(m: Neighbor, s: seq<Neighbor>)
    requires SortedByDist(s)
    ensures SortedByDist(Insert(m, s))
  {
    if s != [] && m.distSq > s[0].distSq {
      var tail := s[1..];
      InsertSorted(m, tail);
      InsertAbove(m, tail, s[0].distSq);
      var r := Insert(m, tail);
      var out := [s[0]] + r;
      assert out == Insert(m, s);
      forall i, j | 0 <= i < j < |out|
        ensures out[i].distSq <= out[j].distSq
      {
        assert out[j] == r[j - 1];
        if i > 0 {
          assert out[i] == r[i - 1];
        }
      }
    }
  }

  /** The sort is a permutation of its input. */
  lemma {:induction false} SortPermutes(ns: seq<Neighbor>)
    ensures multiset(SortByDist(ns)) == multiset(ns)
  {
    if ns != [] {
      SortPermutes(ns[1..]);
      InsertPermutes(ns[0], SortByDist(ns[1..]));
      assert ns == [ns[0]] + ns[1..];
    }
  }

  /** The sort is ordered by distance. */
  lemma {:induction false} SortSorted(ns: seq<Neighbor>)
    ensures SortedByDist(SortByDist(ns))
  {
    if ns != [] {
      SortSorted(ns[1..]);
      InsertSorted(ns[0], SortByDist(ns[1..]));
    }
  }

  /** Its first entry is the earliest nearest one, the entry `minBy`
      returns. */
  lemma {:induction false} SortHead(ns: seq<Neighbor>)
    requires |ns| > 0
    ensures SortByDist(ns)[0] == ns[NearestIndex(ns)]
  {
    var tail := ns[1..];
    if tail == [] {
      EarliestNearestUnique(ns, 0);
    } else {
      SortHead(tail);
      var k := NearestIndex(tail);
      assert SortByDist(ns)[0] == (if ns[0].distSq <= tail[k].distSq then ns[0] else tail[k]);
      if ns[0].distSq <= tail[k].distSq {
        forall j | 0 <= j < |ns|
          ensures ns[0].distSq <= ns[j].distSq
        {
          if j > 0 {
            assert ns[j] == tail[j - 1];
          }
        }
        EarliestNearestUnique(ns, 0);
      } else {
        forall j | 0 <= j < |ns|
          ensures ns[k + 1].distSq <= ns[j].distSq
          ensures j < k + 1 ==> ns[k + 1].distSq < ns[j].distSq
        {
          if j > 0 {
            assert ns[j] == tail[j - 1];
          }
        }
        EarliestNearestUnique(ns, k + 1);
      }
    }
  }

  // ---------------------------------------------------------------------
  // The queries

  /** The candidates of a query point: the 3x3 block around its cell. */
  function Candidates(g: Grid, cs: seq<Center>, x: int, y: int): seq<Center>
    requires ValidGrid(g) && Placed(g, cs)
  {
    NeighborCells(g, cs, CellX(g, x), CellY(g, y))
  }

  /** `findNearestNeighbor`: the earliest nearest candidate; `minBy` throws
      on an empty block. */
  function FindNearestNeighbor(g: Grid, cs: seq<Center>, x: int, y: int): (r: Option<Neighbor>)
    requires ValidGrid(g) && Placed(g, cs)
    ensures r.None? <==> Candidates(g, cs, x, y) == []
  {
    var ns := Measure(Candidates(g, cs, x, y), x, y);
    if ns == [] then None else Some(ns[NearestIndex(ns)])
  }

  /** The nearest neighbour is a candidate at its distance, and no candidate
      is nearer. */
  lemma NearestNeighborSpec(g: Grid, cs: seq<Center>, x: int, y: int)
    requires ValidGrid(g) && Placed(g, cs)
    ensures var r := FindNearestNeighbor(g, cs, x, y);
      r.Some? ==>
        r.value.center in Candidates(g, cs, x, y) &&
        r.value.distSq == DistSq(x, y, r.value.center.x, r.value.center.y) &&
        forall d :: d in Candidates(g, cs, x, y) ==> r.value.distSq <= DistSq(x, y, d.x, d.y)
  {
    var cells := Candidates(g, cs, x, y);
    var ns := Measure(cells, x, y);
    if ns != [] {
      var i := NearestIndex(ns);
      forall d | d in cells
        ensures ns[i].distSq <= DistSq(x, y, d.x, d.y)
      {
        var j :| 0 <= j < |cells| && cells[j] == d;
        assert ns[j].distSq == DistSq(x, y, d.x, d.y);
      }
    }
  }

  /** `findTwoNearestNeighbors`: the first two candidates by distance;
      `slice(0..1)` throws when there are fewer than two. */
  function FindTwoNearest(g: Grid, cs: seq<Center>, x: int, y: int): (r: Option<(Neighbor, Neighbor)>)
    requires ValidGrid(g) && Placed(g, cs)
    ensures r.None? <==> |Candidates(g, cs, x, y)| < 2
  {
    var ns := Measure(Candidates(g, cs, x, y), x, y);
    if |ns| < 2 then None
    else
      var sorted := SortByDist(ns);
      Some((sorted[0], sorted[1]))
  }

  /** The two are in ascending order, the first is what
      `findNearestNeighbor` returns, and every other candidate is at least as
      far as the second. */
  lemma TwoNearestSpec(g: Grid, cs: seq<Center>, x: int, y: int)
    requires ValidGrid(g) && Placed(g, cs)
    requires FindTwoNearest(g, cs, x, y).Some?
    ensures var (a, b) := FindTwoNearest(g, cs, x, y).value;
      var ns := Measure(Candidates(g, cs, x, y), x, y);
      Some(a) == FindNearestNeighbor(g, cs, x, y) &&
      a.distSq <= b.distSq &&
      multiset{a, b} <= multiset(ns) &&
      forall m :: m in multiset(ns) - multiset{a, b} ==> b.distSq <= m.distSq
  {
    var ns := Measure(Candidates(g, cs, x, y), x, y);
    var sorted := SortByDist(ns);
    SortPermutes(ns);
    SortSorted(ns);
    SortHead(ns);
    var a, b, rest := sorted[0], sorted[1], sorted[2..];
    assert sorted == [a, b] + rest;
    assert multiset(sorted) == multiset{a, b} + multiset(rest);
    forall m | m in multiset(ns) - multiset{a, b}
      ensures b.distSq <= m.distSq
    {
      assert m in multiset(rest);
      var j :| 0 <= j < |rest| && rest[j] == m;
      assert sorted[j + 2] == m;
    }
  }

  /** The midpoint test of `findNeighbors`: the two nearest seeds of the
      midpoint of (x, y) and c are c and center, in either order. */
  predicate Accepted(g: Grid, cs: seq<Center>, x: int, y: int, center: Center, c: Center)
    requires ValidGrid(g) && Placed(g, cs)
  {
    var two := FindTwoNearest(g, cs, Quot(x + c.x, 2), Quot(y + c.y, 2));
    two.Some? &&
    ((two.value.0.center == c && two.value.1.center == center) ||
     (two.value.1.center == c && two.value.0.center == center))
  }

  /** Whether the midpoint query for candidate c throws. */
  predicate MidpointFails(g: Grid, cs: seq<Center>, x: int, y: int, c: Center)
    requires ValidGrid(g) && Placed(g, cs)
  {
    FindTwoNearest(g, cs, Quot(x + c.x, 2), Quot(y + c.y, 2)).None?
  }

  /** `filter { it != center }`. */
  function Others(cs: seq<Center>, center: Center): (r: seq<Center>)
    ensures |r| <= |cs|
    ensures center in cs ==> |r| < |cs|
  {
    if cs == [] then []
    else if cs[0] == center then Others(cs[1..], center)
    else [cs[0]] + Others(cs[1..], center)
  }

  /** Exactly the other centers remain. */
  lemma {:induction false} OthersMembers(cs: seq<Center>, center: Center)
    ensures forall c :: c in Others(cs, center) <==> c in cs && c != center
  {
    if cs != [] {
      OthersMembers(cs[1..], center);
      assert forall c :: c in cs <==> c == cs[0] || c in cs[1..];
    }
  }

  /** The midpoint filter: throws (None) when some candidate's midpoint has
      fewer than two candidates of its own, else keeps the accepted
      candidates in order. */
  function Accept(g: Grid, cs: seq<Center>, x: int, y: int, center: Center, cand: seq<Neighbor>): (r: Option<seq<Neighbor>>)
    requires ValidGrid(g) && Placed(g, cs)
  {
    if cand == [] then Some([])
    else
      var m := cand[0];
      if MidpointFails(g, cs, x, y, m.center) then None
      else
        match Accept(g, cs, x, y, center, cand[1..])
        case None => None
        case Some(rest) =>
          Some((if Accepted(g, cs, x, y, center, m.center) then [m] else []) + rest)
  }

  lemma {:induction false} AcceptSpec(g: Grid, cs: seq<Center>, x: int, y: int, center: Center, cand: seq<Neighbor>)
    requires ValidGrid(g) && Placed(g, cs)
    ensures var r := Accept(g, cs, x, y, center, cand);
      (r.None? <==> exists m :: m in cand && MidpointFails(g, cs, x, y, m.center)) &&
      (r.Some? ==> |r.value| <= |cand|) &&
      (r.Some? ==> forall m :: m in r.value <==> m in cand && Accepted(g, cs, x, y, center, m.center))
  {
    if cand != [] {
      AcceptSpec(g, cs, x, y, center, cand[1..]);
      assert forall m :: m in cand <==> m == cand[0] || m in cand[1..];
    }
  }

  /** `findNeighbors(x, y, center)`. */
  function FindNeighbors(g: Grid, cs: seq<Center>, x: int, y: int, center: Center): Option<seq<Neighbor>>
    requires ValidGrid(g) && Placed(g, cs)
  {
    var cand := Measure(Others(Candidates(g, cs, x, y), center), x, y);
    match Accept(g, cs, x, y, center, cand)
    case None => None
    case Some(accepted) => Some(SortByDist(accepted))
  }

  /** The query throws exactly when some candidate's midpoint query does. */
  lemma FindNeighborsFails(g: Grid, cs: seq<Center>, x: int, y: int, center: Center)
    requires ValidGrid(g) && Placed(g, cs)
    ensures FindNeighbors(g, cs, x, y, center).None? <==>
      exists c :: c in Candidates(g, cs, x, y) && c != center && MidpointFails(g, cs, x, y, c)
  {
    var cells := Candidates(g, cs, x, y);
    var others := Others(cells, center);
    var cand := Measure(others, x, y);
    OthersMembers(cells, center);
    MeasureMembers(others, x, y);
    AcceptSpec(g, cs, x, y, center, cand);
    if c :| c in cells && c != center && MidpointFails(g, cs, x, y, c) {
      assert Neighbor(c, DistSq(x, y, c.x, c.y)) in cand;
    }
  }

  /** The neighbours are sorted by distance and are exactly the candidates
      other than the center whose midpoint test succeeds. */
  lemma FindNeighborsSpec(g: Grid, cs: seq<Center>, x: int, y: int, center: Center)
    requires ValidGrid(g) && Placed(g, cs)
    requires FindNeighbors(g, cs, x, y, center).Some?
    ensures var ns := FindNeighbors(g, cs, x, y, center).value;
      SortedByDist(ns) && |ns| <= |Others(Candidates(g, cs, x, y), center)| &&
      forall m :: m in ns <==>
        m.center in Candidates(g, cs, x, y) && m.center != center &&
        m.distSq == DistSq(x, y, m.center.x, m.center.y) && Accepted(g, cs, x, y, center, m.center)
  {
    var cells := Candidates(g, cs, x, y);
    var others := Others(cells, center);
    var cand := Measure(others, x, y);
    OthersMembers(cells, center);
    MeasureMembers(others, x, y);
    AcceptSpec(g, cs, x, y, center, cand);
    var accepted := Accept(g, cs, x, y, center, cand).value;
    var ns := SortByDist(accepted);
    SortPermutes(accepted);
    SortSorted(accepted);
    forall m
      ensures m in ns <==> m in accepted
    {
      assert m in ns <==> m in multiset(ns);
      assert m in accepted <==> m in multiset(accepted);
    }
  }

  /** A seed has at most eight neighbours: its own cell is among the
      candidates and is filtered out. */
  lemma AtMostEight(g: Grid, cs: seq<Center>, k: int)
    requires ValidGrid(g) && Placed(g, cs) && 0 <= k < |cs|
    requires FindNeighbors(g, cs, cs[k].x, cs[k].y, cs[k]).Some?
    ensures |FindNeighbors(g, cs, cs[k].x, cs[k].y, cs[k]).value| <= 8
  {
    var c := cs[k];
    PlacedInOwnCell(g, c);
    PlacedCell(g, cs, c.nx, c.ny);
    NeighborCellsMembers(g, cs, c.nx, c.ny);
    NeighborCellsComplete(g, cs, c.nx, c.ny);
    FindNeighborsSpec(g, cs, c.x, c.y, c);
  }

  /** A seed's own position has that seed as its nearest, at distance 0. */
  lemma SeedNearestToItself(g: Grid, cs: seq<Center>, k: int)
    requires ValidGrid(g) && Placed(g, cs) && 0 <= k < |cs|
    ensures FindNearestNeighbor(g, cs, cs[k].x, cs[k].y) == Some(Neighbor(cs[k], 0))
  {
    var c := cs[k];
    PlacedInOwnCell(g, c);
    PlacedCell(g, cs, c.nx, c.ny);
    NeighborCellsComplete(g, cs, c.nx, c.ny);
    NeighborCellsMembers(g, cs, c.nx, c.ny);
    DistSqMetric(c.x, c.y, c.x, c.y);
    NearestNeighborSpec(g, cs, c.x, c.y);
    var d := FindNearestNeighbor(g, cs, c.x, c.y).value.center;
    DistSqMetric(c.x, c.y, d.x, d.y);
    PlacedInOwnCell(g, d);
    PlacedCell(g, cs, d.nx, d.ny);
  }

  // ---------------------------------------------------------------------
  // List<Center>.findNearest

  /** `findNearest`: keeps the first center and replaces it only by a
      strictly nearer one; `first()` throws on an empty list. */
  method FindNearest(cs: seq<Center>, x: int, y: int) returns (r: Option<Center>)
    ensures r.None? <==> cs == []
    ensures r.Some? ==> r.value == cs[NearestIndex(Measure(cs, x, y))]
  {
    if cs == [] {
      return None;
    }
    ghost var ns := Measure(cs, x, y);
    var result := cs[0];
    var resultDistance := DistSq(result.x, result.y, x, y);
    ghost var k := 0;
    DistSqMetric(result.x, result.y, x, y);
    var i := 0;
    while i < |cs|
      invariant 0 <= i <= |cs| && 0 <= k < |cs| && (k < i || k == 0)
      invariant result == cs[k] && resultDistance == ns[k].distSq
      invariant forall j :: 0 <= j < i ==> resultDistance <= ns[j].distSq
      invariant forall j :: 0 <= j < k ==> resultDistance < ns[j].distSq
    {
      var it := cs[i];
      var itDistance := DistSq(it.x, it.y, x, y);
      DistSqMetric(it.x, it.y, x, y);
      if itDistance < resultDistance {
        result := it;
        resultDistance := itDistance;
        k := i;
      }
      i := i + 1;
    }
    EarliestNearestUnique(ns, k);
    r := Some(result);
  }

  // ---------------------------------------------------------------------
  // The VoronoiDelaunay object

  /** A center's `radius`: unset (-1.0 in the program) or half the distance
      whose square is `distSq`. */
  datatype Radius = Unset | HalfOf(distSq: nat)

  /** The `init` block's query for center k. */
  function NeighborsOf(g: Grid, cs: seq<Center>, k: int): Option<seq<Neighbor>>
    requires ValidGrid(g) && Placed(g, cs) && 0 <= k < |cs|
  {
    FindNeighbors(g, cs, cs[k].x, cs[k].y, cs[k])
  }

  /** Whether the `init` block gets past center k: its neighbour query does
      not throw and `first()` finds a neighbour. */
  predicate Linkable(g: Grid, cs: seq<Center>, k: int)
    requires ValidGrid(g) && Placed(g, cs) && 0 <= k < |cs|
  {
    NeighborsOf(g, cs, k).Some? && NeighborsOf(g, cs, k).value != []
  }

  /** Center k holds its neighbours and half the distance to the first. */
  predicate LinkedAt(g: Grid, cs: seq<Center>, k: int, neighbors: seq<Neighbor>, radius: Radius)
    requires ValidGrid(g) && Placed(g, cs) && 0 <= k < |cs|
  {
    NeighborsOf(g, cs, k) == Some(neighbors) && neighbors != [] && radius == HalfOf(neighbors[0].distSq)
  }

  class VoronoiDelaunay {
    const grid: Grid
    /** The seeds in creation order; `centersMatrix[nx][ny]` is
        `centers[Index(grid, nx, ny)]`. */
    var centers: seq<Center>
    /** `neighbors` of each center, by its number `n`. */
    var neighbors: seq<seq<Neighbor>>
    /** `radius` of each center, by its number `n`. */
    var radius: seq<Radius>

    ghost predicate Valid()
      reads this
    {
      ValidGrid(grid) && Placed(grid, centers) && |neighbors| == |centers| && |radius| == |centers|
    }

    /** After `init`: every center holds its neighbours and half the
        distance to the first of them. */
    ghost predicate Linked()
      reads this
      requires Valid()
    {
      forall k :: 0 <= k < |centers| ==> LinkedAt(grid, centers, k, neighbors[k], radius[k])
    }

    /** Creates one seed per cell, column by column, each numbered by
        `centers.size` at its creation. */
    constructor(g: Grid)
      requires ValidGrid(g)
      ensures grid == g && centers == Seeds(g) && Valid()
      ensures neighbors == seq(|centers|, _ => []) && radius == seq(|centers|, _ => Unset)
    {
      ghost var all := Seeds(g);
      var cs: seq<Center> := [];
      var nx := 0;
      while nx < Cols(g)
        invariant 0 <= nx <= Cols(g) && |cs| == nx * Rows(g) && |cs| <= |all|
        invariant cs == all[..|cs|]
      {
        var ny := 0;
        while ny < Rows(g)
          invariant 0 <= ny <= Rows(g) && |cs| == nx * Rows(g) + ny && |cs| <= |all|
          invariant cs == all[..|cs|]
        {
          SeedsByCell(g, nx, ny);
          var center := Seed(g, nx, ny);
          PrefixGrows(all, cs, center);
          cs := cs + [center];
          ny := ny + 1;
        }
        NextColumn(nx, Rows(g));
        nx := nx + 1;
      }
      grid := g;
      centers := cs;
      neighbors := seq(|cs|, _ => []);
      radius := seq(|cs|, _ => Unset);
    }

    /** The `init` block: for each center in order, stores its neighbours and
        half the distance to the first; fails where the program throws. */
    method Link() returns (ok: bool)
      requires Valid()
      modifies this
      ensures Valid() && centers == old(centers)
      ensures ok <==> forall k :: 0 <= k < |centers| ==> Linkable(grid, centers, k)
      ensures ok ==> Linked()
    {
      var cs, ns, rs := centers, neighbors, radius;
      var i := 0;
      while i < |cs|
        invariant 0 <= i <= |cs| && |ns| == |cs| && |rs| == |cs|
        invariant forall k :: 0 <= k < i ==> LinkedAt(grid, cs, k, ns[k], rs[k])
      {
        var it := cs[i];
        var found := FindNeighbors(grid, cs, it.x, it.y, it);
        assert found == NeighborsOf(grid, cs, i);
        if found.None? || found.value == [] {
          assert !Linkable(grid, cs, i);
          neighbors, radius := ns, rs;
          return false;
        }
        ns := ns[i := found.value];
        rs := rs[i := HalfOf(found.value[0].distSq)];
        i := i + 1;
      }
      forall k | 0 <= k < |cs|
        ensures Linkable(grid, cs, k)
      {
        assert LinkedAt(grid, cs, k, ns[k], rs[k]);
      }
      neighbors, radius := ns, rs;
      ok := true;
    }
  }

  lemma NextColumn(nx: int, rows: int)
    ensures nx * rows + rows == (nx + 1) * rows
  {
  }

  lemma PrefixGrows(all: seq<Center>, cs: seq<Center>, c: Center)
    requires |cs| < |all| && cs == all[..|cs|] && all[|cs|] == c
    ensures cs + [c] == all[..|cs| + 1]
  {
  }

  /** `VoronoiDelaunay()`: None when the `init` block throws. */
  method Build(g: Grid) returns (r: Option<VoronoiDelaunay>)
    requires ValidGrid(g)
    ensures r.Some? <==> forall k :: 0 <= k < |Seeds(g)| ==> Linkable(g, Seeds(g), k)
    ensures r.Some? ==> fresh(r.value) && r.value.Valid() && r.value.grid == g
    ensures r.Some? ==> r.value.centers == Seeds(g) && r.value.Linked()
  {
    var v := new VoronoiDelaunay(g);
    var ok := v.Link();
    r := if ok then Some(v) else None;
  }

  /** Each center's radius is half the distance to its nearest accepted
      neighbour: no neighbour is nearer than the first, and there are at most
      eight. */
  lemma RadiusBelowNeighbours(g: Grid, cs: seq<Center>, k: int, neighbors: seq<Neighbor>, radius: Radius)
    requires ValidGrid(g) && Placed(g, cs) && 0 <= k < |cs|
    requires LinkedAt(g, cs, k, neighbors, radius)
    ensures radius.HalfOf? && 1 <= |neighbors| <= 8
    ensures forall m :: m in neighbors ==> radius.distSq <= m.distSq
  {
    FindNeighborsSpec(g, cs, cs[k].x, cs[k].y, cs[k]);
    AtMostEight(g, cs, k);
  }
}
