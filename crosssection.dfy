/**
 * The cross-section endpoint: the pixels on a straight line between two
 * tiles of one zoom level (Bresenham's algorithm), the DEM tiles that cover
 * them, and the elevation and voxel index read for every pixel.
 */
module CrossSection {
  import opened Wrappers
  import opened JsNumber
  import opened TileAlgebra
  import opened DemGrid
  import opened TileHandler

  /** An `[x, y]` pair of tile coordinates. */
  type Point = (int, int)

  function Abs(v: int): nat {
    if v < 0 then -v else v
  }

  function Max(a: int, b: int): int {
    if a < b then b else a
  }

  /** n unit steps from a in the direction the line takes: `sx = x0 < x1 ? 1 : -1`. */
  function Along(a: int, b: int, n: int): int {
    if a < b then a + n else a - n
  }

  predicate Between(a: int, v: int, b: int) {
    (a <= v <= b) || (b <= v <= a)
  }

  /** q is p moved by at most one unit on each axis towards t, without passing it. */
  predicate StepToward(p: Point, q: Point, t: Point) {
    && (q.0 == p.0 || (p.0 != t.0 && q.0 == Along(p.0, t.0, 1)))
    && (q.1 == p.1 || (p.1 != t.1 && q.1 == Along(p.1, t.1, 1)))
    && q != p
  }

  /**
   * What allPointsOnLine returns for the segment from (x0, y0) to (x1, y1):
   * one point per unit of the longer axis, each a king's move towards the end
   * from the one before (the start is not included, the end is last), inside
   * the bounding box, and within half a unit of the exact segment along the
   * shorter axis.
   */
  predicate LineWalk(out: seq<Point>, x0: int, y0: int, x1: int, y1: int) {
    var dx, dy := Abs(x1 - x0), Abs(y1 - y0);
    && |out| == Max(dx, dy)
    && (|out| > 0 ==> out[|out| - 1] == (x1, y1))
    && Walks(out, x0, y0, x1, y1)
  }

  /** Every point is a step from the one before and lies on the line. */
  predicate Walks(out: seq<Point>, x0: int, y0: int, x1: int, y1: int) {
    forall k :: 0 <= k < |out| ==> WalkAt(out, k, x0, y0, x1, y1)
  }

  predicate WalkAt(out: seq<Point>, k: nat, x0: int, y0: int, x1: int, y1: int)
    requires k < |out|
  {
    StepToward(if k == 0 then (x0, y0) else out[k - 1], out[k], (x1, y1)) && PointOnLine(out[k], k, x0, y0, x1, y1)
  }

  lemma WalksAppend(out: seq<Point>, x0: int, y0: int, x1: int, y1: int, p: Point, q: Point)
    requires Walks(out, x0, y0, x1, y1)
    requires p == if out == [] then (x0, y0) else out[|out| - 1]
    requires StepToward(p, q, (x1, y1)) && PointOnLine(q, |out|, x0, y0, x1, y1)
    ensures Walks(out + [q], x0, y0, x1, y1)
  {
    var out' := out + [q];
    forall k | 0 <= k < |out|
      ensures WalkAt(out', k, x0, y0, x1, y1)
    {
      assert WalkAt(out, k, x0, y0, x1, y1);
      assert out'[..|out|] == out;
      WalkAtPrefix(out, out', k, x0, y0, x1, y1);
    }
    assert out'[|out|] == q;
    assert WalkAt(out', |out|, x0, y0, x1, y1);
  }

  lemma WalkAtPrefix(out: seq<Point>, out': seq<Point>, k: nat, x0: int, y0: int, x1: int, y1: int)
    requires k < |out| <= |out'| && out'[..|out|] == out
    requires WalkAt(out, k, x0, y0, x1, y1)
    ensures WalkAt(out', k, x0, y0, x1, y1)
  {
    assert out'[k] == out[k];
    if k > 0 {
      assert out'[k - 1] == out[k - 1];
    }
  }

  /** The k-th point of the walk: k + 1 units from the start, in the box, close to the segment. */
  predicate PointOnLine(p: Point, k: int, x0: int, y0: int, x1: int, y1: int) {
    var dx, dy := Abs(x1 - x0), Abs(y1 - y0);
    && Max(Abs(p.0 - x0), Abs(p.1 - y0)) == k + 1
    && Between(x0, p.0, x1) && Between(y0, p.1, y1)
    && NearLine(dx, dy, Times(Abs(p.1 - y0), dx) - Times(Abs(p.0 - x0), dy))
  }

  /**
   * The distance D = j * dx - i * dy of the point i, j steps from the start
   * to the exact segment, scaled by its longer axis: within half a unit, and
   * on a tie the point nearer the start along the shorter axis is taken.
   */
  predicate NearLine(dx: int, dy: int, e: int) {
    && (dx >= dy && dx > 0 ==> -dx <= 2 * e < dx)
    && (dy >= dx && dy > 0 ==> -dy < 2 * e <= dy)
  }

  /**
   * The error term of the loop, D = err - dx + dy, stays within half the longer
   * axis, and it always lets the longer axis advance.
   */
  predicate Balanced(dx: int, dy: int, err: int) {
    && NearLine(dx, dy, err - dx + dy)
    && (dx >= dy && dx > 0 ==> 2 * err > -dy)
    && (dy >= dx && dy > 0 ==> 2 * err < dx)
  }

  /** allPointsOnLine: Bresenham's line algorithm for every octant. */
  method AllPointsOnLine(x0: int, y0: int, x1: int, y1: int) returns (out: seq<Point>)
    ensures LineWalk(out, x0, y0, x1, y1)
  {
    var dx: int, dy: int := Abs(x1 - x0), Abs(y1 - y0);
    var sx := if x0 < x1 then 1 else -1;
    var sy := if y0 < y1 then 1 else -1;
    var err := dx - dy;
    var x, y := x0, y0;
    out := [];
    ghost var i, j := 0, 0;
    LoopStart(x0, y0, x1, y1);
    while x != x1 || y != y1
      invariant LoopInv(out, x0, y0, x1, y1, i, j, err)
      invariant x == Along(x0, x1, i) && y == Along(y0, y1, j)
      decreases dx - i + dy - j
    {
      ghost var i0, j0, err0 := i, j, err;
      var e2 := 2 * err;
      if e2 > -dy {
        err := err - dy;
        x := x + sx;
        i := i + 1;
        assert x == Along(x0, x1, i);
      }
      if e2 < dx {
        err := err + dx;
        y := y + sy;
        j := j + 1;
        assert y == Along(y0, y1, j);
      }
      LoopStep(out, x0, y0, x1, y1, dx, dy, i0, j0, err0, i, j, err, (x, y));
      out := out + [(x, y)];
    }
    LoopDone(out, x0, y0, x1, y1, i, j, err);
  }

  /** The invariant of the loop, with i and j the steps taken along x and y. */
  predicate LoopInv(out: seq<Point>, x0: int, y0: int, x1: int, y1: int, i: int, j: int, err: int) {
    && Counters(Abs(x1 - x0), Abs(y1 - y0), i, j, err)
    && |out| == Max(i, j)
    && (Along(x0, x1, i), Along(y0, y1, j)) == (if out == [] then (x0, y0) else out[|out| - 1])
    && Walks(out, x0, y0, x1, y1)
  }

  /** One pass of the loop body: the counters advance as the code moves and one point is pushed. */
  lemma LoopStep(out: seq<Point>, x0: int, y0: int, x1: int, y1: int, dx: int, dy: int, i: int, j: int, err: int,
                 i': int, j': int, err': int, q: Point)
    requires dx == Abs(x1 - x0) && dy == Abs(y1 - y0)
    requires LoopInv(out, x0, y0, x1, y1, i, j, err)
    requires Along(x0, x1, i) != x1 || Along(y0, y1, j) != y1
    requires i' == if 2 * err > -dy then i + 1 else i
    requires j' == if 2 * err < dx then j + 1 else j
    requires err' == err - (if 2 * err > -dy then dy else 0) + (if 2 * err < dx then dx else 0)
    requires q == (Along(x0, x1, i'), Along(y0, y1, j'))
    ensures LoopInv(out + [q], x0, y0, x1, y1, i', j', err')
    ensures i + j < i' + j' && i' <= dx && j' <= dy
  {
    CountersStep(dx, dy, i, j, err);
    assert Counters(dx, dy, i', j', err');
    PointStep(x0, y0, x1, y1, i, j, i', j');
    WalksAppend(out, x0, y0, x1, y1, (Along(x0, x1, i), Along(y0, y1, j)), (Along(x0, x1, i'), Along(y0, y1, j')));
  }

  /** Before the first pass: no steps taken and err = dx - dy. */
  lemma LoopStart(x0: int, y0: int, x1: int, y1: int)
    ensures LoopInv([], x0, y0, x1, y1, 0, 0, Abs(x1 - x0) - Abs(y1 - y0))
  {
  }

  /** When the loop stops, both axes have reached the end and the walk is complete. */
  lemma LoopDone(out: seq<Point>, x0: int, y0: int, x1: int, y1: int, i: int, j: int, err: int)
    requires LoopInv(out, x0, y0, x1, y1, i, j, err)
    requires Along(x0, x1, i) == x1 && Along(y0, y1, j) == y1
    ensures LineWalk(out, x0, y0, x1, y1)
  {
  }

  /** The scalar invariant of the loop: the step counters and the error term. */
  predicate Counters(dx: int, dy: int, i: int, j: int, err: int) {
    && 0 <= i <= dx && 0 <= j <= dy
    && err == dx - dy - Times(i, dy) + Times(j, dx)
    && Balanced(dx, dy, err)
    && (dx >= dy ==> j <= i) && (dy >= dx ==> i <= j)
  }

  /** One pass of the loop body keeps the counters' invariant and advances exactly one unit along the longer axis. */
  lemma CountersStep(dx: int, dy: int, i: int, j: int, err: int)
    requires Counters(dx, dy, i, j, err) && (i < dx || j < dy)
    ensures var mx, my := 2 * err > -dy, 2 * err < dx;
      var i', j' := if mx then i + 1 else i, if my then j + 1 else j;
      && Counters(dx, dy, i', j', err - (if mx then dy else 0) + (if my then dx else 0))
      && Max(i', j') == Max(i, j) + 1
      && (mx || my)
  {
    StepBounds(dx, dy, i, j, err);
    BalancedStep(dx, dy, err);
    assert Times(i + 1, dy) == Times(i, dy) + dy;
    assert Times(j + 1, dx) == Times(j, dx) + dx;
  }

  /** `a * b` as repeated addition, which keeps the loop's proof linear. */
  function Times(a: nat, b: int): int {
    if a == 0 then 0 else Times(a - 1, b) + b
  }

  lemma {:induction false} TimesIsMul(a: nat, b: int)
    ensures Times(a, b) == a * b
  {
    if a > 0 {
      TimesIsMul(a - 1, b);
    }
  }

  /** The point the loop pushes after the counters moved from (i0, j0) to (i, j). */
  lemma PointStep(x0: int, y0: int, x1: int, y1: int, i0: int, j0: int, i: int, j: int)
    requires 0 <= i0 <= i <= i0 + 1 && 0 <= j0 <= j <= j0 + 1 && (i, j) != (i0, j0)
    requires i <= Abs(x1 - x0) && j <= Abs(y1 - y0)
    requires NearLine(Abs(x1 - x0), Abs(y1 - y0), Times(j, Abs(x1 - x0)) - Times(i, Abs(y1 - y0)))
    ensures StepToward((Along(x0, x1, i0), Along(y0, y1, j0)), (Along(x0, x1, i), Along(y0, y1, j)), (x1, y1))
    ensures PointOnLine((Along(x0, x1, i), Along(y0, y1, j)), Max(i, j) - 1, x0, y0, x1, y1)
  {
    var x, y := Along(x0, x1, i), Along(y0, y1, j);
    assert Abs(x - x0) == i && Abs(y - y0) == j;
  }

  /** The loop never moves an axis that has reached its end, and it always moves one. */
  lemma StepBounds(dx: int, dy: int, i: int, j: int, err: int)
    requires 0 <= i <= dx && 0 <= j <= dy && (i < dx || j < dy)
    requires err == dx - dy - Times(i, dy) + Times(j, dx)
    requires Balanced(dx, dy, err)
    ensures 2 * err > -dy ==> i < dx
    ensures 2 * err < dx ==> j < dy
    ensures 2 * err > -dy || 2 * err < dx
  {
    TimesIsMul(i, dy);
    TimesIsMul(j, dx);
    if i == dx {
      XStops(dx, dy, j);
    }
    if j == dy {
      YStops(dx, dy, i);
    }
  }

  lemma XStops(dx: int, dy: int, j: int)
    requires 0 <= dx && 0 <= j < dy
    ensures 2 * (dx - dy - dx * dy + j * dx) <= -dy
  {
    assert dx - dy - dx * dy + j * dx == dx * (j - dy + 1) - dy;
    MulSign(dx, dy - j - 1);
  }

  lemma YStops(dx: int, dy: int, i: int)
    requires 0 <= dy && 0 <= i < dx
    ensures 2 * (dx - dy - i * dy + dy * dx) >= dx
  {
    assert dx - dy - i * dy + dy * dx == dx + dy * (dx - i - 1);
    MulSign(dy, dx - i - 1);
  }

  /** One pass of the loop body keeps the error term balanced. */
  lemma BalancedStep(dx: int, dy: int, err: int)
    requires 0 <= dx && 0 <= dy && (dx > 0 || dy > 0)
    requires Balanced(dx, dy, err)
    ensures Balanced(dx, dy, err - (if 2 * err > -dy then dy else 0) + (if 2 * err < dx then dx else 0))
  {
  }

  /** No point repeats, and the start is not among them. */
  lemma LineWalkDistinct(out: seq<Point>, x0: int, y0: int, x1: int, y1: int)
    requires LineWalk(out, x0, y0, x1, y1)
    ensures Distinct(out)
    ensures (x0, y0) !in out
  {
    forall a, b | 0 <= a < b < |out|
      ensures out[a] != out[b]
    {
      assert WalkAt(out, a, x0, y0, x1, y1);
      assert WalkAt(out, b, x0, y0, x1, y1);
    }
    forall k | 0 <= k < |out|
      ensures out[k] != (x0, y0)
    {
      assert WalkAt(out, k, x0, y0, x1, y1);
    }
  }

  /** The walk is determined by its endpoints: two walks between the same points are equal. */
  lemma LineWalkUnique(a: seq<Point>, b: seq<Point>, x0: int, y0: int, x1: int, y1: int)
    requires LineWalk(a, x0, y0, x1, y1) && LineWalk(b, x0, y0, x1, y1)
    ensures a == b
  {
    forall k | 0 <= k < |a|
      ensures a[k] == b[k]
    {
      assert WalkAt(a, k, x0, y0, x1, y1);
      assert WalkAt(b, k, x0, y0, x1, y1);
      PointOnLineUnique(a[k], b[k], k, x0, y0, x1, y1);
    }
  }

  /** At most one point is k + 1 units from the start and near the segment. */
  lemma PointOnLineUnique(p: Point, q: Point, k: int, x0: int, y0: int, x1: int, y1: int)
    requires PointOnLine(p, k, x0, y0, x1, y1) && PointOnLine(q, k, x0, y0, x1, y1)
    ensures p == q
  {
    var dx, dy := Abs(x1 - x0), Abs(y1 - y0);
    var ip, jp, iq, jq := Abs(p.0 - x0), Abs(p.1 - y0), Abs(q.0 - x0), Abs(q.1 - y0);
    TimesIsMul(jp, dx);
    TimesIsMul(ip, dy);
    TimesIsMul(jq, dx);
    TimesIsMul(iq, dy);
    OffsetsUnique(dx, dy, k, ip, jp, iq, jq);
  }

  /** The step counts of such a point along both axes are determined by k. */
  lemma OffsetsUnique(dx: int, dy: int, k: int, ip: nat, jp: nat, iq: nat, jq: nat)
    requires ip <= dx && jp <= dy && iq <= dx && jq <= dy
    requires Max(ip, jp) == k + 1 && Max(iq, jq) == k + 1
    requires NearLine(dx, dy, jp * dx - ip * dy) && NearLine(dx, dy, jq * dx - iq * dy)
    ensures ip == iq && jp == jq
  {
    if dx >= dy && dx > 0 {
      MajorX(dx, dy, ip, jp);
      MajorX(dx, dy, iq, jq);
      MinorUnique(dx, jp, jq, ip, dy);
    } else if dy > 0 {
      MajorY(dx, dy, ip, jp);
      MajorY(dx, dy, iq, jq);
      MinorUnique(dy, ip, iq, jp, dx);
    }
  }

  /** Along a longer x axis the point is as far from the start in x as in y, or farther. */
  lemma MajorX(dx: int, dy: int, i: nat, j: nat)
    requires 0 <= dy <= dx && dx > 0
    requires 2 * (j * dx - i * dy) < dx
    ensures j <= i
  {
    if j > i {
      assert j * dx - i * dy == (j - i) * dx + i * (dx - dy);
      MulFacts(j - i, dx);
      MulSign(i, dx - dy);
    }
  }

  /** Along a longer y axis the point is as far from the start in y as in x, or farther. */
  lemma MajorY(dx: int, dy: int, i: nat, j: nat)
    requires 0 <= dx <= dy && dy > 0
    requires -dy < 2 * (j * dx - i * dy)
    ensures i <= j
  {
    if i > j {
      assert i * dy - j * dx == (i - j) * dy + j * (dy - dx);
      MulFacts(i - j, dy);
      MulSign(j, dy - dx);
    }
  }

  /**
   * Two offsets b1, b2 along the shorter axis (m its longer side) whose scaled
   * distances to the line both lie in [-m, m) are equal.
   */
  lemma MinorUnique(m: int, b1: int, b2: int, a: int, n: int)
    requires m > 0
    requires -m <= 2 * (b1 * m - a * n) < m
    requires -m <= 2 * (b2 * m - a * n) < m
    ensures b1 == b2
  {
    assert (b1 - b2) * m == (b1 * m - a * n) - (b2 * m - a * n);
    MulFacts(b1 - b2, m);
  }

  // ---------------------------------------------------------------- the tiles to fetch

  /**
   * `.filter((v, i, s) => s.indexOf(v) === i)` over the first n elements:
   * every value once, at the place it first occurs.
   */
  function KeepFirst(s: seq<Tile>, n: nat): (r: seq<Tile>)
    requires n <= |s|
    ensures Distinct(r)
    ensures forall v :: v in r <==> v in s[..n]
    ensures forall k :: 0 <= k < |r| ==> FindIndex(s, r[k]) < n
    ensures forall a, b :: 0 <= a < b < |r| ==> FindIndex(s, r[a]) < FindIndex(s, r[b])
  {
    if n == 0 then []
    else
      var r := KeepFirst(s, n - 1);
      var v := s[n - 1];
      assert s[..n] == s[..n - 1] + [v];
      var i := FindIndex(s, v);
      if i == n - 1 then
        assert v !in r;
        r + [v]
      else
        assert v in s[..n - 1] by {
          assert i < n - 1 && s[i] == v;
          assert s[..n - 1][i] == v;
        }
        r
  }

  function FirstOccurrences(s: seq<Tile>): (r: seq<Tile>)
    ensures Distinct(r)
    ensures forall v :: v in r <==> v in s
    ensures forall a, b :: 0 <= a < b < |r| ==> FindIndex(s, r[a]) < FindIndex(s, r[b])
  {
    assert s[..|s|] == s;
    KeepFirst(s, |s|)
  }

  /** `getParentAtZ([x, y, z], z - 8)`: the DEM tile one of whose pixels is the tile at (x, y). */
  function RequestTile(p: Point, z: int): (t: Tile)
    ensures t.z == z - 8
    ensures InInt32(p.0) && InInt32(p.1) ==>
      t.x * 256 <= p.0 < t.x * 256 + 256 && t.y * 256 <= p.1 < t.y * 256 + 256
  {
    Pow2Values();
    ParentAtZ(Tile(p.0, p.1, z), z - 8).value
  }

  /** `points.map(p => getParentAtZ([...p, z], z - 8))`: the DEM tile of every point, repeats included. */
  function PointTiles(points: seq<Point>, z: int): (all: seq<Tile>)
    ensures |all| == |points|
    ensures forall k :: 0 <= k < |points| ==> all[k] == RequestTile(points[k], z)
  {
    seq(|points|, k requires 0 <= k < |points| => RequestTile(points[k], z))
  }

  /** The DEM tiles the points fall in, each once, in the order the points first need them. */
  function RequestingTiles(points: seq<Point>, z: int): (tiles: seq<Tile>)
    ensures Distinct(tiles)
    ensures forall t :: t in tiles <==> exists k :: 0 <= k < |points| && t == RequestTile(points[k], z)
    ensures forall a, b :: 0 <= a < b < |tiles| ==>
      FindIndex(PointTiles(points, z), tiles[a]) < FindIndex(PointTiles(points, z), tiles[b])
  {
    FirstOccurrences(PointTiles(points, z))
  }

  // ---------------------------------------------------------------- one point

  /** `[x, y, demHeight, fVal]`. */
  datatype AnnotatedPoint = AnnotatedPoint(x: int, y: int, ele: Num, f: Num)

  /** A GeoJSON feature of the response: the tile (its geometry) and its three properties. */
  datatype Cube = Cube(tile: Tile, ele: Num, fh: Num, fb: Num)

  /**
   * The annotation of the point at (relX, relY) of its DEM tile: the elevation
   * in centimetres, rounded, and the index of the voxel of height zRes that
   * holds it. A value that is not a number gives NaN for both.
   */
  function Annotate(p: Point, z: int, grid: Grid, relX: int, relY: int, parse: string -> Num): (a: AnnotatedPoint)
    requires WellFormed(grid) && 0 <= relX < GRID_SIZE && 0 <= relY < GRID_SIZE
    ensures a.x == p.0 && a.y == p.1
    ensures var h := ParseFloat(grid[relY][relX], parse);
      && (a.ele.NaN? <==> h.NaN?) && (a.f.NaN? <==> h.NaN?)
      && (h.Finite? ==>
            && 100.0 * h.v - 0.5 < a.ele.v <= 100.0 * h.v + 0.5 && a.ele.v == a.ele.v.Floor as real
            && a.f.v == a.f.v.Floor as real
            && Scale(ZRes(z), a.f).v <= h.v < Scale(ZRes(z), Plus(a.f, 1.0)).v)
  {
    var zRes := ZRes(z);
    var h := ParseFloat(grid[relY][relX], parse);
    VoxelBounds(h, zRes);
    AnnotatedPoint(p.0, p.1, Round(Scale(100.0, h)), Floor(Divide(h, zRes)))
  }

  /** The feature drawn for an annotated point: its voxel spans [fb, fh). */
  function CubeOf(a: AnnotatedPoint, z: int): (c: Cube)
    ensures c.tile == Tile(a.x, a.y, z) && c.ele == a.ele
    ensures (c.fh.NaN? <==> a.f.NaN?) && (c.fb.NaN? <==> a.f.NaN?)
    ensures a.f.Finite? ==> c.fb.v == ZRes(z) * a.f.v && c.fh.v - c.fb.v == ZRes(z)
  {
    var zRes := ZRes(z);
    ScaleNext(zRes, a.f);
    Cube(Tile(a.x, a.y, z), a.ele, Scale(zRes, Plus(a.f, 1.0)), Scale(zRes, a.f))
  }

  /** k * (n + 1) is k more than k * n. */
  lemma ScaleNext(k: real, n: Num)
    ensures n.Finite? ==> Scale(k, Plus(n, 1.0)).v - Scale(k, n).v == k
  {
  }

  /** The voxel of every cube is zRes high and holds the elevation it was read from. */
  lemma CubeHoldsHeight(p: Point, z: int, grid: Grid, relX: int, relY: int, parse: string -> Num)
    requires WellFormed(grid) && 0 <= relX < GRID_SIZE && 0 <= relY < GRID_SIZE
    ensures var h := ParseFloat(grid[relY][relX], parse);
      var c := CubeOf(Annotate(p, z, grid, relX, relY, parse), z);
      && c.tile == Tile(p.0, p.1, z)
      && (c.fh.NaN? <==> h.NaN?) && (c.fb.NaN? <==> h.NaN?)
      && (h.Finite? ==> c.fb.v <= h.v < c.fh.v && c.fh.v - c.fb.v == ZRes(z))
  {
    var h := ParseFloat(grid[relY][relX], parse);
    VoxelBounds(h, ZRes(z));
  }

  /** Point a was read from its DEM tile as stored in the cache. */
  predicate AnnotatedFrom(a: AnnotatedPoint, z: int, entries: map<Tile, Grid>, parse: string -> Num) {
    var r := AncestorWithOffset(Tile(a.x, a.y, z), 8);
    Pow2Values();
    && r.Some?
    && r.value.0 in entries && WellFormed(entries[r.value.0])
    && a == Annotate((a.x, a.y), z, entries[r.value.0], r.value.1, r.value.2, parse)
  }

  // ---------------------------------------------------------------- the handler

  datatype CrossSectionResponse =
    | Points(annotated: seq<AnnotatedPoint>, cubes: seq<Cube>)  // 200 with the points and the GeoJSON cubes
    | InsufficientData                                         // 500 'insufficient DEM data'
    | CrossSectionFailed                                       // an exception escapes the handler

  function Coordinates(annotated: seq<AnnotatedPoint>): (ps: seq<Point>)
    ensures |ps| == |annotated|
    ensures forall k :: 0 <= k < |ps| ==> ps[k] == (annotated[k].x, annotated[k].y)
  {
    seq(|annotated|, k requires 0 <= k < |annotated| => (annotated[k].x, annotated[k].y))
  }

  /** Every tile the cache held before is still there, unchanged, and every new one is a merge. */
  predicate Grew(before: map<Tile, Grid>, after: map<Tile, Grid>, dem5a: Tile -> Fetched, dem10: Tile -> Fetched) {
    && (forall t :: t in before ==> t in after && after[t] == before[t])
    && (forall t :: t in after && t !in before ==> MergeOf(t, dem5a, dem10) == Merged(after[t]))
  }

  /** One call of getMergedDemData keeps the cache grown and adds at most its own tile. */
  lemma GrewStep(start: map<Tile, Grid>, before: map<Tile, Grid>, after: map<Tile, Grid>, t: Tile, m: Merge,
                 dem5a: Tile -> Fetched, dem10: Tile -> Fetched)
    requires Grew(start, before, dem5a, dem10)
    requires t in before ==> m == Merged(before[t]) && after == before
    requires t !in before ==>
      m == MergeOf(t, dem5a, dem10) && after == if m.Merged? then before[t := m.grid] else before
    ensures Grew(start, after, dem5a, dem10)
    ensures forall u :: u in after && u !in before ==> u == t
    ensures forall u :: u in before ==> u in after && after[u] == before[u]
    ensures m.Merged? ==> t in after && after[t] == m.grid
  {
  }

  /** Recording a tile's grid under its (x, y) keeps the loaded grids those of the cache. */
  lemma FromCacheStep(loaded: map<(int, int), Grid>, z: int, before: map<Tile, Grid>, after: map<Tile, Grid>,
                      t: Tile, grid: Grid)
    requires FromCache(loaded, z, before)
    requires forall u :: u in before ==> u in after && after[u] == before[u]
    requires t.z == z - 8 && t in after && after[t] == grid
    ensures FromCache(loaded[(t.x, t.y) := grid], z, after)
  {
    assert t == Tile(t.x, t.y, z - 8);
  }

  /** What the fetch loop ends with: the grids by (x, y), or why it stopped. */
  datatype Load = Loaded(grids: map<(int, int), Grid>) | LoadNoData | LoadThrew

  /** The grids held are the cache's grids for the tiles at zoom z - 8. */
  predicate FromCache(grids: map<(int, int), Grid>, z: int, entries: map<Tile, Grid>) {
    forall key :: key in grids ==>
      Tile(key.0, key.1, z - 8) in entries && grids[key] == entries[Tile(key.0, key.1, z - 8)]
  }

  /**
   * The loop over requestingTiles: merge (or recall) every tile in order,
   * stopping at the first one that has no data or whose merge throws. Only
   * tiles of the list are added to the cache.
   */
  method LoadTiles(cache: DemCache, tiles: seq<Tile>, z: int, dem5a: Tile -> Fetched, dem10: Tile -> Fetched)
    returns (load: Load)
    requires cache.Valid()
    requires forall k :: 0 <= k < |tiles| ==> tiles[k].z == z - 8
    modifies cache
    ensures cache.Valid()
    ensures Grew(old(cache.entries), cache.entries, dem5a, dem10)
    ensures forall t :: t in cache.entries && t !in old(cache.entries) ==> t in tiles
    ensures load.LoadNoData? ==>
      exists n :: 0 <= n < |tiles| && tiles[n] !in old(cache.entries) && MergeOf(tiles[n], dem5a, dem10).NoData?
        && forall m :: 0 <= m < n ==> tiles[m] in cache.entries
    ensures load.LoadThrew? ==>
      exists n :: 0 <= n < |tiles| && tiles[n] !in old(cache.entries) && MergeOf(tiles[n], dem5a, dem10).Threw?
        && forall m :: 0 <= m < n ==> tiles[m] in cache.entries
    ensures load.Loaded? ==>
      && FromCache(load.grids, z, cache.entries)
      && forall k :: 0 <= k < |tiles| ==> tiles[k] in cache.entries && (tiles[k].x, tiles[k].y) in load.grids
  {
    var loaded: map<(int, int), Grid> := map[];
    ghost var start := cache.entries;
    var n := 0;
    while n < |tiles|
      invariant 0 <= n <= |tiles|
      invariant cache.Valid()
      invariant Grew(start, cache.entries, dem5a, dem10)
      invariant forall t :: t in cache.entries && t !in start ==> t in tiles[..n]
      invariant FromCache(loaded, z, cache.entries)
      invariant forall m :: 0 <= m < n ==> tiles[m] in cache.entries && (tiles[m].x, tiles[m].y) in loaded
    {
      var tile := tiles[n];
      ghost var before := cache.entries;
      var demData := cache.GetMerged(tile, dem5a, dem10);
      GrewStep(start, before, cache.entries, tile, demData, dem5a, dem10);
      if demData.NoData? {
        assert tile !in start;
        return LoadNoData;
      }
      if demData.Threw? {
        assert tile !in start;
        return LoadThrew;
      }
      assert tiles[..n + 1] == tiles[..n] + [tile];
      FromCacheStep(loaded, z, before, cache.entries, tile, demData.grid);
      loaded := loaded[(tile.x, tile.y) := demData.grid];
      n := n + 1;
    }
    return Loaded(loaded);
  }

  /**
   * The loop over the points: find each point's DEM tile and pixel and read
   * its value. The tile is always among the loaded ones; a point outside the
   * 32-bit range makes the search for its ancestor throw.
   */
  method AnnotatePoints(points: seq<Point>, z: int, grids: map<(int, int), Grid>, ghost entries: map<Tile, Grid>,
                        parse: string -> Num) returns (r: Option<seq<AnnotatedPoint>>)
    requires FromCache(grids, z, entries)
    requires forall t :: t in entries ==> WellFormed(entries[t])
    requires forall k :: 0 <= k < |points| ==> (RequestTile(points[k], z).x, RequestTile(points[k], z).y) in grids
    ensures r.None? ==> exists k :: 0 <= k < |points| && !(InInt32(points[k].0) && InInt32(points[k].1))
    ensures r.Some? ==>
      && Coordinates(r.value) == points
      && forall k :: 0 <= k < |points| ==> AnnotatedFrom(r.value[k], z, entries, parse)
  {
    var zRes := ZRes(z);
    var annotated: seq<AnnotatedPoint> := [];
    var n := 0;
    while n < |points|
      invariant 0 <= n <= |points|
      invariant |annotated| == n
      invariant forall k :: 0 <= k < n ==> (annotated[k].x, annotated[k].y) == points[k]
      invariant forall k :: 0 <= k < n ==> AnnotatedFrom(annotated[k], z, entries, parse)
    {
      var (x, y) := points[n];
      var rel := RelativePositionInAncestor(Tile(x, y, z), 8);
      if rel.None? {
        return None;
      }
      var (tile, relX, relY) := rel.value;
      Pow2Values();
      ParentAtZAgrees(Tile(x, y, z), z - 8);
      assert tile == RequestTile(points[n], z);
      var tileData := grids[(tile.x, tile.y)];
      assert tileData == entries[tile];
      var demHeightStr := tileData[relY][relX];
      var demHeight := Round(Scale(100.0, ParseFloat(demHeightStr, parse)));
      var fVal := Floor(Divide(ParseFloat(demHeightStr, parse), zRes));
      var point := AnnotatedPoint(x, y, demHeight, fVal);
      assert point == Annotate((x, y), z, tileData, relX, relY, parse);
      annotated := annotated + [point];
      n := n + 1;
    }
    return Some(annotated);
  }

  /** A walk between two 32-bit endpoints stays in the 32-bit range. */
  lemma WalkInInt32(out: seq<Point>, x0: int, y0: int, x1: int, y1: int)
    requires LineWalk(out, x0, y0, x1, y1)
    requires InInt32(x0) && InInt32(y0) && InInt32(x1) && InInt32(y1)
    ensures forall k :: 0 <= k < |out| ==> InInt32(out[k].0) && InInt32(out[k].1)
  {
    forall k | 0 <= k < |out|
      ensures InInt32(out[k].0) && InInt32(out[k].1)
    {
      assert WalkAt(out, k, x0, y0, x1, y1);
    }
  }

  /** DEM tile t holds a point of the walk from (x0, y0) to (x1, y1) at zoom z. */
  ghost predicate NeededByWalk(t: Tile, z: int, x0: int, y0: int, x1: int, y1: int) {
    forall w :: LineWalk(w, x0, y0, x1, y1) ==> exists k :: 0 <= k < |w| && RequestTile(w[k], z) == t
  }

  /** Since the walk is unique, every tile requested for one walk is needed by the walk. */
  lemma RequestedByWalk(points: seq<Point>, z: int, x0: int, y0: int, x1: int, y1: int)
    requires LineWalk(points, x0, y0, x1, y1)
    ensures forall t :: t in RequestingTiles(points, z) ==> NeededByWalk(t, z, x0, y0, x1, y1)
  {
    forall t, w | t in RequestingTiles(points, z) && LineWalk(w, x0, y0, x1, y1)
      ensures exists k :: 0 <= k < |w| && RequestTile(w[k], z) == t
    {
      LineWalkUnique(w, points, x0, y0, x1, y1);
    }
  }

  /** When every requested tile is loaded, so is the tile of every point. */
  lemma RequestedLoaded(points: seq<Point>, z: int, grids: map<(int, int), Grid>)
    requires var tiles := RequestingTiles(points, z);
      forall k :: 0 <= k < |tiles| ==> (tiles[k].x, tiles[k].y) in grids
    ensures forall k :: 0 <= k < |points| ==> (RequestTile(points[k], z).x, RequestTile(points[k], z).y) in grids
  {
    var tiles := RequestingTiles(points, z);
    forall k | 0 <= k < |points|
      ensures (RequestTile(points[k], z).x, RequestTile(points[k], z).y) in grids
    {
      var t := RequestTile(points[k], z);
      assert t in tiles;
      var m :| 0 <= m < |tiles| && tiles[m] == t;
    }
  }

  /**
   * The second half of crossSectionHandler, once every DEM tile the walk
   * needs is loaded: annotate the points and draw a cube for each.
   */
  method AnnotateWalk(points: seq<Point>, z: int, x0: int, y0: int, x1: int, y1: int,
                      grids: map<(int, int), Grid>, ghost entries: map<Tile, Grid>,
                      parse: string -> Num) returns (resp: CrossSectionResponse)
    requires LineWalk(points, x0, y0, x1, y1)
    requires FromCache(grids, z, entries)
    requires forall t :: t in entries ==> WellFormed(entries[t])
    requires var tiles := RequestingTiles(points, z);
      forall k :: 0 <= k < |tiles| ==> (tiles[k].x, tiles[k].y) in grids
    ensures resp.Points? || resp.CrossSectionFailed?
    ensures resp.CrossSectionFailed? ==> !(InInt32(x0) && InInt32(y0) && InInt32(x1) && InInt32(y1))
    ensures resp.Points? ==>
      && Coordinates(resp.annotated) == points
      && |resp.cubes| == |resp.annotated|
      && forall k :: 0 <= k < |resp.annotated| ==>
           AnnotatedFrom(resp.annotated[k], z, entries, parse) && resp.cubes[k] == CubeOf(resp.annotated[k], z)
  {
    RequestedLoaded(points, z, grids);
    var annotated := AnnotatePoints(points, z, grids, entries, parse);
    if annotated.None? {
      if InInt32(x0) && InInt32(y0) && InInt32(x1) && InInt32(y1) {
        WalkInInt32(points, x0, y0, x1, y1);
      }
      return CrossSectionFailed;
    }
    var cubes := seq(|annotated.value|, k requires 0 <= k < |annotated.value| => CubeOf(annotated.value[k], z));
    return Points(annotated.value, cubes);
  }

  /**
   * crossSectionHandler after the query parameters are parsed: the points on
   * the line from (x0, y0) to (x1, y1) at zoom z, the DEM tiles they need
   * (fetched or recalled from the cache), and every point annotated with its
   * elevation and voxel.
   */
  method CrossSectionHandler(cache: DemCache, z: int, x0: int, y0: int, x1: int, y1: int,
                             dem5a: Tile -> Fetched, dem10: Tile -> Fetched,
                             parse: string -> Num) returns (resp: CrossSectionResponse)
    requires cache.Valid()
    modifies cache
    ensures cache.Valid()
    ensures Grew(old(cache.entries), cache.entries, dem5a, dem10)
    ensures forall t :: t in cache.entries && t !in old(cache.entries) ==> NeededByWalk(t, z, x0, y0, x1, y1)
    ensures resp.InsufficientData? ==>
      exists t: Tile :: NeededByWalk(t, z, x0, y0, x1, y1) && t !in old(cache.entries) && MergeOf(t, dem5a, dem10).NoData?
    ensures resp.CrossSectionFailed? ==>
      || (exists t: Tile ::
            NeededByWalk(t, z, x0, y0, x1, y1) && t !in old(cache.entries) && MergeOf(t, dem5a, dem10).Threw?)
      || !(InInt32(x0) && InInt32(y0) && InInt32(x1) && InInt32(y1))
    ensures resp.Points? ==>
      && LineWalk(Coordinates(resp.annotated), x0, y0, x1, y1)
      && |resp.cubes| == |resp.annotated|
      && forall k :: 0 <= k < |resp.annotated| ==>
           AnnotatedFrom(resp.annotated[k], z, cache.entries, parse) && resp.cubes[k] == CubeOf(resp.annotated[k], z)
  {
    var points := AllPointsOnLine(x0, y0, x1, y1);
    var requesting := RequestingTiles(points, z);
    var load := LoadTiles(cache, requesting, z, dem5a, dem10);
    RequestedByWalk(points, z, x0, y0, x1, y1);
    if load.LoadNoData? {
      ghost var n :| 0 <= n < |requesting| && requesting[n] !in old(cache.entries)
        && MergeOf(requesting[n], dem5a, dem10).NoData?;
      assert requesting[n] in requesting;
      return InsufficientData;
    }
    if load.LoadThrew? {
      ghost var n :| 0 <= n < |requesting| && requesting[n] !in old(cache.entries)
        && MergeOf(requesting[n], dem5a, dem10).Threw?;
      assert requesting[n] in requesting;
      return CrossSectionFailed;
    }
    resp := AnnotateWalk(points, z, x0, y0, x1, y1, load.grids, cache.entries, parse);
  }
}
