/**
 * The vector tile for (x, y, z): the DEM tile three levels up is merged, the
 * requested tile's 32 x 32 window of it is read, and every pixel with data
 * becomes a one-pixel square polygon tagged with its elevation and the
 * vertical bounds of its ZFXY voxel.
 */
module TileHandler {
  import opened Wrappers
  import opened JsNumber
  import opened TileAlgebra
  import opened VectorTile
  import opened DemGrid

  /** Each DEM pixel becomes 2^(SCALE_FACTOR - 1) x 2^(SCALE_FACTOR - 1) tiles' worth of pixels. */
  const SCALE_FACTOR: nat := 4
  /** 256 / 2^(SCALE_FACTOR - 1): the side of the window one vector tile reads. */
  const TILE_SIZE: nat := 32
  const LAYER_VERSION: nat := 2
  const LAYER_NAME: string := "dem"
  const KEYS: seq<string> := ["ele", "f_height", "f_base", "x", "y", "z", "f"]

  lemma TileSizeValue()
    ensures Pow2(SCALE_FACTOR - 1) == 8
    ensures TILE_SIZE == GRID_SIZE / Pow2(SCALE_FACTOR - 1)
  {
  }

  // ---------------------------------------------------------------- value table

  /** The layer's value table; `addValue` keeps it free of repeats. */
  class ValueTable {
    var values: seq<Value>

    ghost predicate Valid()
      reads this
    {
      Distinct(values)
    }

    /** An empty table, which is trivially free of repeats. */
    constructor ()
      ensures values == []
    {
      values := [];
    }

    /** addValue: the index of an equal entry, appending the value when there is none. */
    method Add(v: Value) returns (i: nat)
      requires Valid()
      modifies this
      ensures Valid()
      ensures i < |values| && values[i] == v
      ensures v in old(values) ==> values == old(values) && i == FindIndex(old(values), v)
      ensures v !in old(values) ==> values == old(values) + [v] && i == |old(values)|
    {
      var idx := FindIndex(values, v);
      if idx == -1 {
        values := values + [v];
        idx := |values| - 1;
      }
      i := idx;
    }

    /**
     * The tag list of one feature: key index j followed by the index of the
     * j-th value, for every value in turn. The table gains the values not yet
     * in it, in the order they first occur.
     */
    method AddTags(vals: seq<Value>) returns (tags: seq<nat>)
      requires Valid()
      modifies this
      ensures Valid()
      ensures values == Absorb(old(values), vals)
      ensures TagsMatch(tags, values, vals)
    {
      tags := [];
      var j: nat := 0;
      while j < |vals|
        invariant 0 <= j <= |vals|
        invariant Valid()
        invariant values == Absorb(old(values), vals[..j])
        invariant TagsMatch(tags, values, vals[..j])
      {
        ghost var before := values;
        var i := Add(vals[j]);
        AbsorbStep(old(values), vals, j);
        TagsMatchGrow(tags, before, values, vals[..j]);
        TagsMatchStep(tags, values, vals, j, i);
        tags := tags + [j, i];
        j := j + 1;
      }
      assert vals[..j] == vals;
    }
  }

  /**
   * The table after adding `vals` one by one to table t: every value not
   * already present is appended, once, where it first occurs.
   */
  function Absorb(t: seq<Value>, vals: seq<Value>): seq<Value> {
    if vals == [] then t
    else
      var r := Absorb(t, vals[..|vals| - 1]);
      var v := vals[|vals| - 1];
      if v in r then r else r + [v]
  }

  /** The table keeps its entries at the front, holds exactly the values seen, and stays free of repeats. */
  lemma {:induction false} AbsorbContents(t: seq<Value>, vals: seq<Value>)
    ensures var r := Absorb(t, vals);
      && |t| <= |r| && r[..|t|] == t
      && (forall v :: v in r <==> v in t || v in vals)
      && (Distinct(t) ==> Distinct(r))
  {
    if vals != [] {
      var v := vals[|vals| - 1];
      AbsorbContents(t, vals[..|vals| - 1]);
      assert vals == vals[..|vals| - 1] + [v];
    }
  }

  /** Adding the values up to position j + 1 is adding those up to j, then the j-th. */
  lemma AbsorbStep(t: seq<Value>, vals: seq<Value>, j: nat)
    requires j < |vals|
    ensures var r := Absorb(t, vals[..j]);
      Absorb(t, vals[..j + 1]) == if vals[j] in r then r else r + [vals[j]]
  {
    assert vals[..j + 1][..j] == vals[..j];
  }

  /** Adding a + b is adding a, then b. */
  lemma {:induction false} AbsorbAppend(t: seq<Value>, a: seq<Value>, b: seq<Value>)
    ensures Absorb(t, a + b) == Absorb(Absorb(t, a), b)
    decreases |b|
  {
    if b == [] {
      assert a + b == a;
    } else {
      var b', v := b[..|b| - 1], b[|b| - 1];
      assert (a + b)[..|a + b| - 1] == a + b';
      AbsorbAppend(t, a, b');
    }
  }

  /** The entries of r appear in the order their values first occur in s. */
  predicate InFirstUseOrder(r: seq<Value>, s: seq<Value>) {
    forall a, b :: 0 <= a < b < |r| ==> FindIndex(s, r[a]) < FindIndex(s, r[b])
  }

  /**
   * r is table t with some values appended: each is a value of s that t did
   * not hold, and they follow the order in which they first occur in s.
   */
  predicate AddedInFirstUseOrder(r: seq<Value>, t: seq<Value>, s: seq<Value>) {
    && |t| <= |r| && r[..|t|] == t
    && (forall x :: x in r[|t|..] ==> x in s && x !in t)
    && InFirstUseOrder(r[|t|..], s)
  }

  /** Adding s to t appends the values t lacks, in the order they first occur in s. */
  lemma {:induction false} AbsorbFirstUse(t: seq<Value>, s: seq<Value>)
    ensures AddedInFirstUseOrder(Absorb(t, s), t, s)
  {
    if s == [] {
      assert Absorb(t, s)[|t|..] == [];
    } else {
      var s', v := s[..|s| - 1], s[|s| - 1];
      assert s == s' + [v];
      AbsorbFirstUse(t, s');
      AbsorbContents(t, s');
      var n := |t|;
      var r', r := Absorb(t, s'), Absorb(t, s);
      var d', d := r'[n..], r[n..];
      assert r == if v in r' then r' else r' + [v];
      if v !in r' {
        assert r[..n] == r'[..n];
        assert d == d' + [v];
        FirstUseAppend(d', s', v);
      } else {
        FirstUseExtend(d', s', v);
      }
    }
  }

  /** A value new to s, appended to both, comes last in first-use order. */
  lemma FirstUseAppend(d: seq<Value>, s: seq<Value>, v: Value)
    requires InFirstUseOrder(d, s) && (forall x :: x in d ==> x in s) && v !in s
    ensures InFirstUseOrder(d + [v], s + [v])
  {
    var d', s' := d + [v], s + [v];
    assert FindIndex(s', v) == |s| by {
      assert s'[..|s|] == s;
    }
    forall a, b | 0 <= a < b < |d'|
      ensures FindIndex(s', d'[a]) < FindIndex(s', d'[b])
    {
      assert d'[a] == d[a] && d[a] in d;
      FindIndexAppend(s, v, d[a]);
      if b < |d| {
        assert d'[b] == d[b] && d[b] in d;
        FindIndexAppend(s, v, d[b]);
      }
    }
  }

  /** Appending to s keeps the first-use order of values already in s. */
  lemma FirstUseExtend(d: seq<Value>, s: seq<Value>, v: Value)
    requires InFirstUseOrder(d, s) && (forall x :: x in d ==> x in s)
    ensures InFirstUseOrder(d, s + [v])
  {
    forall a, b | 0 <= a < b < |d|
      ensures FindIndex(s + [v], d[a]) < FindIndex(s + [v], d[b])
    {
      FindIndexAppend(s, v, d[a]);
      FindIndexAppend(s, v, d[b]);
    }
  }

  /** The first index of a value of s is unchanged by appending to s. */
  lemma {:induction false} FindIndexAppend(s: seq<Value>, w: Value, x: Value)
    requires x in s
    ensures FindIndex(s + [w], x) == FindIndex(s, x)
  {
    if s[0] != x {
      assert (s + [w])[1..] == s[1..] + [w];
      FindIndexAppend(s[1..], w, x);
    }
  }

  /** Even positions hold the key indices 0, 1, 2, ..., odd positions the matching value indices. */
  predicate TagsMatch(tags: seq<nat>, values: seq<Value>, vals: seq<Value>) {
    && |tags| == 2 * |vals|
    && forall j :: 0 <= j < |vals| ==>
         tags[2 * j] == j && tags[2 * j + 1] < |values| && values[tags[2 * j + 1]] == vals[j]
  }

  /** Tagging the j-th value with its index i extends the tags of the values before it. */
  lemma TagsMatchStep(tags: seq<nat>, values: seq<Value>, vals: seq<Value>, j: nat, i: nat)
    requires j < |vals| && TagsMatch(tags, values, vals[..j])
    requires i < |values| && values[i] == vals[j]
    ensures TagsMatch(tags + [j, i], values, vals[..j + 1])
  {
  }

  /** Value indices stay valid when the table grows at its end. */
  lemma TagsMatchGrow(tags: seq<nat>, values: seq<Value>, grown: seq<Value>, vals: seq<Value>)
    requires TagsMatch(tags, values, vals)
    requires |values| <= |grown| && grown[..|values|] == values
    ensures TagsMatch(tags, grown, vals)
  {
    forall j | 0 <= j < |vals|
      ensures tags[2 * j + 1] < |grown| && grown[tags[2 * j + 1]] == vals[j]
    {
      assert grown[..|values|][tags[2 * j + 1]] == values[tags[2 * j + 1]];
    }
  }

  // ---------------------------------------------------------------- the window

  /** A pixel of the window: raw row and raw column, both below TILE_SIZE. */
  datatype Pixel = Pixel(row: int, col: int)

  /** `demData[r][c]`, or undefined outside the grid. */
  function CellAt(grid: Grid, r: int, c: int): (v: Cell)
    ensures 0 <= r < |grid| && 0 <= c < |grid[r]| ==> v == grid[r][c]
    ensures !(0 <= r < |grid| && 0 <= c < |grid[r]|) ==> v == Undefined
  {
    if 0 <= r < |grid| && 0 <= c < |grid[r]| then grid[r][c] else Undefined
  }

  /** The grid position of a window pixel: rawRowIdx + tileSize * relY and rawColIdx + tileSize * relX. */
  function GridRow(p: Pixel, relY: int): int { p.row + TILE_SIZE * relY }
  function GridCol(p: Pixel, relX: int): int { p.col + TILE_SIZE * relX }

  /** A pixel is skipped exactly when its value is "e". */
  predicate HasData(grid: Grid, relX: int, relY: int, p: Pixel) {
    CellAt(grid, GridRow(p, relY), GridCol(p, relX)) != NO_DATA
  }

  predicate InWindow(p: Pixel) {
    0 <= p.row < TILE_SIZE && 0 <= p.col < TILE_SIZE
  }

  /** Row-major order, the order of the two loops. */
  predicate Before(a: Pixel, b: Pixel) {
    a.row < b.row || (a.row == b.row && a.col < b.col)
  }

  /** The pixels with data among the first n of raw row r, left to right. */
  function RowCells(grid: Grid, relX: int, relY: int, r: int, n: nat): seq<Pixel>
    requires n <= TILE_SIZE
  {
    if n == 0 then []
    else
      var p := Pixel(r, n - 1);
      RowCells(grid, relX, relY, r, n - 1) + if HasData(grid, relX, relY, p) then [p] else []
  }

  /** Row r's pixels with data lie in row r, before column n. */
  lemma {:induction false} RowCellsBounds(grid: Grid, relX: int, relY: int, r: int, n: nat)
    requires n <= TILE_SIZE
    ensures forall k :: 0 <= k < |RowCells(grid, relX, relY, r, n)| ==>
      var p := RowCells(grid, relX, relY, r, n)[k];
      p.row == r && 0 <= p.col < n && HasData(grid, relX, relY, p)
  {
    if n > 0 {
      RowCellsBounds(grid, relX, relY, r, n - 1);
    }
  }

  /** Row r's pixels with data come left to right. */
  lemma {:induction false} RowCellsOrdered(grid: Grid, relX: int, relY: int, r: int, n: nat)
    requires n <= TILE_SIZE
    ensures forall i, j :: 0 <= i < j < |RowCells(grid, relX, relY, r, n)| ==>
      RowCells(grid, relX, relY, r, n)[i].col < RowCells(grid, relX, relY, r, n)[j].col
  {
    if n > 0 {
      var prev := RowCells(grid, relX, relY, r, n - 1);
      RowCellsOrdered(grid, relX, relY, r, n - 1);
      RowCellsBounds(grid, relX, relY, r, n - 1);
      var cs := RowCells(grid, relX, relY, r, n);
      forall i, j | 0 <= i < j < |cs|
        ensures cs[i].col < cs[j].col
      {
        assert cs[i] == prev[i];
        if j < |prev| {
          assert cs[j] == prev[j];
        }
      }
    }
  }

  /** Every pixel with data of row r before column n is among them. */
  lemma {:induction false} RowCellsComplete(grid: Grid, relX: int, relY: int, r: int, n: nat)
    requires n <= TILE_SIZE
    ensures forall c :: 0 <= c < n && HasData(grid, relX, relY, Pixel(r, c)) ==>
      Pixel(r, c) in RowCells(grid, relX, relY, r, n)
  {
    if n > 0 {
      RowCellsComplete(grid, relX, relY, r, n - 1);
    }
  }

  /** The pixels with data in the first r raw rows, in row-major order. */
  function RowsUpTo(grid: Grid, relX: int, relY: int, r: nat): seq<Pixel>
    requires r <= TILE_SIZE
  {
    if r == 0 then []
    else RowsUpTo(grid, relX, relY, r - 1) + RowCells(grid, relX, relY, r - 1, TILE_SIZE)
  }

  /** The first r raw rows' pixels with data lie in those rows of the window. */
  lemma {:induction false} RowsUpToBounds(grid: Grid, relX: int, relY: int, r: nat)
    requires r <= TILE_SIZE
    ensures forall k :: 0 <= k < |RowsUpTo(grid, relX, relY, r)| ==>
      var p := RowsUpTo(grid, relX, relY, r)[k];
      0 <= p.row < r && InWindow(p) && HasData(grid, relX, relY, p)
  {
    if r > 0 {
      var prev := RowsUpTo(grid, relX, relY, r - 1);
      var last := RowCells(grid, relX, relY, r - 1, TILE_SIZE);
      RowsUpToBounds(grid, relX, relY, r - 1);
      RowCellsBounds(grid, relX, relY, r - 1, TILE_SIZE);
      var cs := prev + last;
      forall k | 0 <= k < |cs|
        ensures 0 <= cs[k].row < r && InWindow(cs[k]) && HasData(grid, relX, relY, cs[k])
      {
        if k < |prev| {
          assert cs[k] == prev[k];
        } else {
          assert cs[k] == last[k - |prev|];
        }
      }
    }
  }

  /** The first r raw rows' pixels with data come in row-major order. */
  lemma {:induction false} RowsUpToOrdered(grid: Grid, relX: int, relY: int, r: nat)
    requires r <= TILE_SIZE
    ensures forall i, j :: 0 <= i < j < |RowsUpTo(grid, relX, relY, r)| ==>
      Before(RowsUpTo(grid, relX, relY, r)[i], RowsUpTo(grid, relX, relY, r)[j])
  {
    if r > 0 {
      var prev := RowsUpTo(grid, relX, relY, r - 1);
      var last := RowCells(grid, relX, relY, r - 1, TILE_SIZE);
      RowsUpToOrdered(grid, relX, relY, r - 1);
      RowsUpToBounds(grid, relX, relY, r - 1);
      RowCellsBounds(grid, relX, relY, r - 1, TILE_SIZE);
      RowCellsOrdered(grid, relX, relY, r - 1, TILE_SIZE);
      var cs := prev + last;
      forall i, j | 0 <= i < j < |cs|
        ensures Before(cs[i], cs[j])
      {
        if j < |prev| {
          assert cs[i] == prev[i] && cs[j] == prev[j];
        } else if i < |prev| {
          assert cs[i] == prev[i] && cs[j] == last[j - |prev|];
        } else {
          assert cs[i] == last[i - |prev|] && cs[j] == last[j - |prev|];
        }
      }
    }
  }

  /** Every pixel with data of the first r raw rows of the window is among them. */
  lemma {:induction false} RowsUpToComplete(grid: Grid, relX: int, relY: int, r: nat)
    requires r <= TILE_SIZE
    ensures forall p: Pixel :: 0 <= p.row < r && InWindow(p) && HasData(grid, relX, relY, p) ==>
      p in RowsUpTo(grid, relX, relY, r)
  {
    if r > 0 {
      var prev := RowsUpTo(grid, relX, relY, r - 1);
      var last := RowCells(grid, relX, relY, r - 1, TILE_SIZE);
      RowsUpToComplete(grid, relX, relY, r - 1);
      RowCellsComplete(grid, relX, relY, r - 1, TILE_SIZE);
      forall p: Pixel | 0 <= p.row < r && InWindow(p) && HasData(grid, relX, relY, p)
        ensures p in prev + last
      {
        if p.row == r - 1 {
          assert Pixel(r - 1, p.col) == p;
          assert p in last;
        } else {
          assert p in prev;
        }
      }
    }
  }

  /** Every pixel of the window that has data, each once, in the order the loops visit them. */
  function WindowCells(grid: Grid, relX: int, relY: int): seq<Pixel> {
    RowsUpTo(grid, relX, relY, TILE_SIZE)
  }

  /** A feature exists for a pixel exactly when the pixel has data. */
  lemma WindowCellsExact(grid: Grid, relX: int, relY: int, p: Pixel)
    ensures p in WindowCells(grid, relX, relY) <==> InWindow(p) && HasData(grid, relX, relY, p)
  {
    var cs := WindowCells(grid, relX, relY);
    RowsUpToBounds(grid, relX, relY, TILE_SIZE);
    RowsUpToComplete(grid, relX, relY, TILE_SIZE);
    if p in cs {
      var k :| 0 <= k < |cs| && cs[k] == p;
    }
  }

  // ---------------------------------------------------------------- one feature

  /** `2^25 / 2^z`: the height of a ZFXY voxel at zoom z, in metres. */
  function ZRes(z: int): (r: real)
    ensures r > 0.0
    ensures z <= 25 ==> r == Pow2(25 - z) as real
    ensures z > 25 ==> r * Pow2(z - 25) as real == 1.0
  {
    if z <= 25 then Pow2(25 - z) as real else 1.0 / Pow2(z - 25) as real
  }

  /** `parseFloat(val)`; `parse` stands for the conversion of a text, undefined gives NaN. */
  function ParseFloat(cell: Cell, parse: string -> Num): (n: Num)
    ensures cell.Undefined? ==> n.NaN?
    ensures cell.Token? ==> n == parse(cell.text)
  {
    if cell.Token? then parse(cell.text) else NaN
  }

  /** The seven tag values of the pixel at grid position (row, col) of ancestor tile `anc`. */
  function PixelValues(anc: Tile, row: int, col: int, cell: Cell, parse: string -> Num): (vals: seq<Value>)
    ensures |vals| == |KEYS|
  {
    var demCubeZ := anc.z + 8;
    var zRes := ZRes(demCubeZ);
    var height := ParseFloat(cell, parse);
    var ele := Round(Scale(100.0, height));
    var f := Floor(Divide(height, zRes));
    [ IntValue(ele),
      IntValue(Scale(zRes, Plus(f, 1.0))),
      IntValue(Scale(zRes, f)),
      IntValue(Finite((anc.x * GRID_SIZE + col) as real)),
      IntValue(Finite((anc.y * GRID_SIZE + row) as real)),
      IntValue(Finite(demCubeZ as real)),
      IntValue(f) ]
  }

  /**
   * What the seven values mean: elevation in centimetres, top and bottom of
   * the pixel's ZFXY voxel, the voxel's x, y and z at zoom anc.z + 8, and its
   * vertical index f. A value that is not a number makes the four height
   * values NaN.
   */
  lemma PixelValuesMeaning(anc: Tile, row: int, col: int, cell: Cell, parse: string -> Num)
    ensures var vals := PixelValues(anc, row, col, cell, parse);
      && (ParseFloat(cell, parse).NaN? ==>
            vals[0].n.NaN? && vals[1].n.NaN? && vals[2].n.NaN? && vals[6].n.NaN?)
      // ele: the height in metres times 100, rounded to an integer
      && (ParseFloat(cell, parse).Finite? ==>
            var h := ParseFloat(cell, parse).v;
            && vals[0].n.Finite? && vals[0].n.v == vals[0].n.v.Floor as real
            && 100.0 * h - 0.5 < vals[0].n.v <= 100.0 * h + 0.5)
      // f, f_base and f_height: the voxel of height zRes containing the height
      && (ParseFloat(cell, parse).Finite? ==>
            var h, zRes := ParseFloat(cell, parse).v, ZRes(anc.z + 8);
            && vals[6].n.Finite? && vals[6].n.v == vals[6].n.v.Floor as real
            && vals[2].n == Scale(zRes, vals[6].n)
            && vals[1].n.Finite? && vals[1].n.v - vals[2].n.v == zRes
            && vals[2].n.v <= h < vals[1].n.v)
      // x, y, z: the voxel's position at zoom anc.z + 8
      && vals[3] == IntValue(Finite((anc.x * GRID_SIZE + col) as real))
      && vals[4] == IntValue(Finite((anc.y * GRID_SIZE + row) as real))
      && vals[5] == IntValue(Finite((anc.z + 8) as real))
  {
    VoxelBounds(ParseFloat(cell, parse), ZRes(anc.z + 8));
  }

  /** The voxel [zRes * f, zRes * (f + 1)) with f = floor(h / zRes) holds h. */
  lemma VoxelBounds(h: Num, zRes: real)
    requires zRes > 0.0
    ensures h.Finite? ==>
      var f := Floor(Divide(h, zRes));
      && f.Finite?
      && Scale(zRes, f).v <= h.v < Scale(zRes, Plus(f, 1.0)).v
      && Scale(zRes, Plus(f, 1.0)).v - Scale(zRes, f).v == zRes
  {
    if h.Finite? {
      var f := Floor(Divide(h, zRes)).v;
      assert f <= h.v / zRes < f + 1.0;
      FloorBracket(h.v, zRes, f);
    }
  }

  /** f = floor(h / d) brackets h between d * f and d * (f + 1). */
  lemma FloorBracket(h: real, d: real, f: real)
    requires d > 0.0 && f <= h / d < f + 1.0
    ensures d * f <= h < d * (f + 1.0)
    ensures d * (f + 1.0) - d * f == d
  {
    DivMul(h, d);
    Bracket(h / d, d, f, h);
  }

  lemma DivMul(h: real, d: real)
    requires d > 0.0
    ensures d * (h / d) == h
  {
  }

  lemma Bracket(q: real, d: real, f: real, h: real)
    requires d > 0.0 && f <= q < f + 1.0 && d * q == h
    ensures d * f <= h
    ensures h < d * (f + 1.0)
  {
    var below, above := q - f, f + 1.0 - q;
    var lo, top := d * f, d * (f + 1.0);
    MulSignReal(d, below);
    MulSignReal(d, above);
    assert d * below == h - lo;
    assert d * above == top - h;
    assert 0.0 < top - h;
  }

  lemma MulSignReal(a: real, b: real)
    requires a > 0.0 && b >= 0.0
    ensures a * b >= 0.0
    ensures b > 0.0 ==> a * b > 0.0
  {
  }

  /** The seven tag values of window pixel p. */
  function CellValues(anc: Tile, relX: int, relY: int, grid: Grid, parse: string -> Num, p: Pixel): seq<Value> {
    var row, col := GridRow(p, relY), GridCol(p, relX);
    PixelValues(anc, row, col, CellAt(grid, row, col), parse)
  }

  /** The values the features of `cells` are tagged with, feature after feature. */
  function TagValues(anc: Tile, relX: int, relY: int, grid: Grid, parse: string -> Num, cells: seq<Pixel>): seq<Value> {
    if cells == [] then []
    else
      TagValues(anc, relX, relY, grid, parse, cells[..|cells| - 1])
        + CellValues(anc, relX, relY, grid, parse, cells[|cells| - 1])
  }

  /** Each tag value is a value of one of the cells. */
  lemma {:induction false} TagValuesFrom(anc: Tile, relX: int, relY: int, grid: Grid, parse: string -> Num,
                                         cells: seq<Pixel>, v: Value)
    requires v in TagValues(anc, relX, relY, grid, parse, cells)
    ensures exists k :: 0 <= k < |cells| && v in CellValues(anc, relX, relY, grid, parse, cells[k])
  {
    var prev := cells[..|cells| - 1];
    if v !in CellValues(anc, relX, relY, grid, parse, cells[|cells| - 1]) {
      TagValuesFrom(anc, relX, relY, grid, parse, prev, v);
      var k :| 0 <= k < |prev| && v in CellValues(anc, relX, relY, grid, parse, prev[k]);
      assert prev[k] == cells[k];
    }
  }

  /**
   * The value table after the features of `cells` are tagged in order: each
   * feature's seven values are added to the table the features before it left.
   */
  function Table(anc: Tile, relX: int, relY: int, grid: Grid, parse: string -> Num, cells: seq<Pixel>): seq<Value> {
    if cells == [] then []
    else
      Absorb(Table(anc, relX, relY, grid, parse, cells[..|cells| - 1]),
             CellValues(anc, relX, relY, grid, parse, cells[|cells| - 1]))
  }

  /** The table is the one adding every tag value, feature after feature, to an empty table gives. */
  lemma {:induction false} TableIsAbsorb(anc: Tile, relX: int, relY: int, grid: Grid, parse: string -> Num,
                                         cells: seq<Pixel>)
    ensures Table(anc, relX, relY, grid, parse, cells) == Absorb([], TagValues(anc, relX, relY, grid, parse, cells))
  {
    if cells != [] {
      var prev := cells[..|cells| - 1];
      TableIsAbsorb(anc, relX, relY, grid, parse, prev);
      AbsorbAppend([], TagValues(anc, relX, relY, grid, parse, prev),
                   CellValues(anc, relX, relY, grid, parse, cells[|cells| - 1]));
    }
  }

  /** The table never holds a value twice. */
  lemma TableDistinct(anc: Tile, relX: int, relY: int, grid: Grid, parse: string -> Num, cells: seq<Pixel>)
    ensures Distinct(Table(anc, relX, relY, grid, parse, cells))
  {
    TableIsAbsorb(anc, relX, relY, grid, parse, cells);
    AbsorbContents([], TagValues(anc, relX, relY, grid, parse, cells));
  }

  predicate TableMatches(values: seq<Value>, anc: Tile, relX: int, relY: int, grid: Grid, parse: string -> Num,
                         cells: seq<Pixel>) {
    values == Table(anc, relX, relY, grid, parse, cells)
  }

  /** The feature the loop body pushes for window pixel p. */
  predicate FeatureMatches(f: Feature, values: seq<Value>, anc: Tile, relX: int, relY: int,
                           grid: Grid, parse: string -> Num, p: Pixel) {
    var row, col := GridRow(p, relY), GridCol(p, relX);
    && f.id == FeatureId(row, col)
    && f.geomType == Polygon
    && f.geometry == SquareGeometry(p.col, p.row)
    && TagsMatch(f.tags, values, CellValues(anc, relX, relY, grid, parse, p))
  }

  predicate FeaturesMatch(fs: seq<Feature>, values: seq<Value>, anc: Tile, relX: int, relY: int,
                          grid: Grid, parse: string -> Num, cells: seq<Pixel>) {
    && |fs| == |cells|
    && forall k {:trigger fs[k]} :: 0 <= k < |fs| ==> FeatureMatches(fs[k], values, anc, relX, relY, grid, parse, cells[k])
  }

  lemma FeaturesMatchGrow(fs: seq<Feature>, values: seq<Value>, grown: seq<Value>, anc: Tile,
                          relX: int, relY: int, grid: Grid, parse: string -> Num, cells: seq<Pixel>)
    requires FeaturesMatch(fs, values, anc, relX, relY, grid, parse, cells)
    requires |values| <= |grown| && grown[..|values|] == values
    ensures FeaturesMatch(fs, grown, anc, relX, relY, grid, parse, cells)
  {
    forall k | 0 <= k < |fs|
      ensures FeatureMatches(fs[k], grown, anc, relX, relY, grid, parse, cells[k])
    {
      TagsMatchGrow(fs[k].tags, values, grown, CellValues(anc, relX, relY, grid, parse, cells[k]));
    }
  }

  /** One more pixel with data: the table may have grown, and the pixel's feature is appended. */
  lemma FeaturesMatchAppend(fs: seq<Feature>, values: seq<Value>, grown: seq<Value>, anc: Tile,
                            relX: int, relY: int, grid: Grid, parse: string -> Num, cells: seq<Pixel>,
                            f: Feature, p: Pixel)
    requires FeaturesMatch(fs, values, anc, relX, relY, grid, parse, cells)
    requires |values| <= |grown| && grown[..|values|] == values
    requires f == Feature(FeatureId(GridRow(p, relY), GridCol(p, relX)), Polygon, SquareGeometry(p.col, p.row), f.tags)
    requires TagsMatch(f.tags, grown, CellValues(anc, relX, relY, grid, parse, p))
    ensures FeaturesMatch(fs + [f], grown, anc, relX, relY, grid, parse, cells + [p])
  {
    FeaturesMatchGrow(fs, values, grown, anc, relX, relY, grid, parse, cells);
    assert FeatureMatches(f, grown, anc, relX, relY, grid, parse, p);
    var fs', cells' := fs + [f], cells + [p];
    forall k | 0 <= k < |fs'|
      ensures FeatureMatches(fs'[k], grown, anc, relX, relY, grid, parse, cells'[k])
    {
      if k < |fs| {
        assert fs'[k] == fs[k] && cells'[k] == cells[k];
      }
    }
  }

  /** One more column of a row. */
  lemma RowCellsStep(grid: Grid, relX: int, relY: int, r: int, n: nat)
    requires n < TILE_SIZE
    ensures RowCells(grid, relX, relY, r, n + 1) ==
      RowCells(grid, relX, relY, r, n) + if HasData(grid, relX, relY, Pixel(r, n)) then [Pixel(r, n)] else []
  {
  }

  /** The pixels visited so far, one column further on. */
  lemma RowCellsNext(grid: Grid, relX: int, relY: int, done: seq<Pixel>, r: int, n: nat)
    requires n < TILE_SIZE
    ensures done + RowCells(grid, relX, relY, r, n + 1) ==
      done + RowCells(grid, relX, relY, r, n) + if HasData(grid, relX, relY, Pixel(r, n)) then [Pixel(r, n)] else []
  {
    RowCellsStep(grid, relX, relY, r, n);
  }

  /** The features and the value table built for the pixels `cells`, in order. */
  predicate Built(fs: seq<Feature>, values: seq<Value>, anc: Tile, relX: int, relY: int, grid: Grid,
                  parse: string -> Num, cells: seq<Pixel>) {
    && TableMatches(values, anc, relX, relY, grid, parse, cells)
    && FeaturesMatch(fs, values, anc, relX, relY, grid, parse, cells)
  }

  /** The "dem" layer of a vector tile built from window (relX, relY) of the grid of `anc`. */
  predicate LayerMatches(layer: Layer, anc: Tile, relX: int, relY: int, grid: Grid, parse: string -> Num) {
    && layer.version == LAYER_VERSION
    && layer.name == LAYER_NAME
    && layer.extent == TILE_SIZE
    && layer.keys == KEYS
    && Built(layer.features, layer.values, anc, relX, relY, grid, parse, WindowCells(grid, relX, relY))
  }

  // ---------------------------------------------------------------- the loop

  /** The double loop of tileHandler and the layer it assembles. */
  method BuildLayer(anc: Tile, relX: int, relY: int, grid: Grid, parse: string -> Num) returns (layer: Layer)
    requires WellFormed(grid)
    requires 0 <= relX < 8 && 0 <= relY < 8
    ensures LayerMatches(layer, anc, relX, relY, grid, parse)
    ensures Distinct(layer.values)
    ensures forall i :: 0 <= i < |layer.values| ==> ValueUsed(layer.features, i)
    ensures InFirstUseOrder(layer.values, TagValues(anc, relX, relY, grid, parse, WindowCells(grid, relX, relY)))
  {
    var table := new ValueTable();
    var features: seq<Feature> := [];
    var rawRowIdx := 0;
    ghost var cells: seq<Pixel> := [];
    while rawRowIdx < TILE_SIZE
      invariant 0 <= rawRowIdx <= TILE_SIZE
      invariant cells == RowsUpTo(grid, relX, relY, rawRowIdx)
      invariant Built(features, table.values, anc, relX, relY, grid, parse, cells)
    {
      features := AddRow(table, features, anc, relX, relY, grid, parse, cells, rawRowIdx);
      cells := cells + RowCells(grid, relX, relY, rawRowIdx, TILE_SIZE);
      rawRowIdx := rawRowIdx + 1;
    }
    layer := Layer(LAYER_VERSION, LAYER_NAME, TILE_SIZE, features, KEYS, table.values);
    LayerBuilt(features, table.values, anc, relX, relY, grid, parse, cells);
    LayerValuesDistinct(layer, anc, relX, relY, grid, parse);
    LayerValuesUsed(layer, anc, relX, relY, grid, parse);
    LayerValuesFirstUse(layer, anc, relX, relY, grid, parse);
  }

  /** Features and a table built over all rows of the window make the tile's layer. */
  lemma LayerBuilt(fs: seq<Feature>, values: seq<Value>, anc: Tile, relX: int, relY: int, grid: Grid,
                   parse: string -> Num, cells: seq<Pixel>)
    requires cells == RowsUpTo(grid, relX, relY, TILE_SIZE)
    requires Built(fs, values, anc, relX, relY, grid, parse, cells)
    ensures LayerMatches(Layer(LAYER_VERSION, LAYER_NAME, TILE_SIZE, fs, KEYS, values), anc, relX, relY, grid, parse)
  {
  }

  /** The inner loop of tileHandler: the pixels of one raw row, left to right. */
  method AddRow(table: ValueTable, features: seq<Feature>, anc: Tile, relX: int, relY: int, grid: Grid,
                parse: string -> Num, ghost done: seq<Pixel>, rawRowIdx: nat)
    returns (features': seq<Feature>)
    requires WellFormed(grid) && 0 <= relX < 8 && 0 <= relY < 8
    requires rawRowIdx < TILE_SIZE
    requires Built(features, table.values, anc, relX, relY, grid, parse, done)
    modifies table
    ensures Built(features', table.values, anc, relX, relY, grid, parse,
      done + RowCells(grid, relX, relY, rawRowIdx, TILE_SIZE))
  {
    var rowIdx := rawRowIdx + TILE_SIZE * relY;
    var row := grid[rowIdx];
    var rawColIdx := 0;
    features' := features;
    ghost var cells := done;
    assert done + RowCells(grid, relX, relY, rawRowIdx, 0) == done;
    while rawColIdx < TILE_SIZE
      invariant 0 <= rawColIdx <= TILE_SIZE
      invariant cells == done + RowCells(grid, relX, relY, rawRowIdx, rawColIdx)
      invariant Built(features', table.values, anc, relX, relY, grid, parse, cells)
    {
      RowCellsNext(grid, relX, relY, done, rawRowIdx, rawColIdx);
      features' := AddPixel(table, features', anc, relX, relY, grid, parse, cells, rawRowIdx, row, rawColIdx);
      cells := cells + if HasData(grid, relX, relY, Pixel(rawRowIdx, rawColIdx)) then [Pixel(rawRowIdx, rawColIdx)] else [];
      rawColIdx := rawColIdx + 1;
    }
  }

  /** The body of the inner loop: skip an "e" pixel, otherwise tag it and push its feature. */
  method AddPixel(table: ValueTable, features: seq<Feature>, anc: Tile, relX: int, relY: int, grid: Grid,
                  parse: string -> Num, ghost cells: seq<Pixel>, rawRowIdx: int, row: seq<Cell>, rawColIdx: int)
    returns (features': seq<Feature>)
    requires WellFormed(grid) && 0 <= relX < 8 && 0 <= relY < 8
    requires 0 <= rawRowIdx < TILE_SIZE && 0 <= rawColIdx < TILE_SIZE
    requires row == grid[rawRowIdx + TILE_SIZE * relY]
    requires Built(features, table.values, anc, relX, relY, grid, parse, cells)
    modifies table
    ensures Built(features', table.values, anc, relX, relY, grid, parse,
      cells + if HasData(grid, relX, relY, Pixel(rawRowIdx, rawColIdx)) then [Pixel(rawRowIdx, rawColIdx)] else [])
  {
    var rowIdx := rawRowIdx + TILE_SIZE * relY;
    var colIdx := rawColIdx + TILE_SIZE * relX;
    var val := row[colIdx];
    ghost var p := Pixel(rawRowIdx, rawColIdx);
    assert GridRow(p, relY) == rowIdx && GridCol(p, relX) == colIdx;
    assert CellAt(grid, rowIdx, colIdx) == val;
    if val == NO_DATA {
      assert cells + [] == cells;
      return features;
    }
    ghost var before := table.values;
    TableDistinct(anc, relX, relY, grid, parse, cells);
    var vals := PixelValues(anc, rowIdx, colIdx, val, parse);
    var tags := table.AddTags(vals);
    AbsorbContents(before, vals);
    assert (cells + [p])[..|cells|] == cells;
    var feature := Feature(FeatureId(rowIdx, colIdx), Polygon, SquareGeometry(rawColIdx, rawRowIdx), tags);
    FeaturesMatchAppend(features, before, table.values, anc, relX, relY, grid, parse, cells, feature, p);
    features' := features + [feature];
  }

  // ---------------------------------------------------------------- what the layer promises

  /** Feature ids are unique within the layer. */
  lemma LayerIdsDistinct(layer: Layer, anc: Tile, relX: int, relY: int, grid: Grid, parse: string -> Num)
    requires 0 <= relX < 8 && 0 <= relY < 8
    requires LayerMatches(layer, anc, relX, relY, grid, parse)
    ensures forall i, j :: 0 <= i < j < |layer.features| ==> layer.features[i].id != layer.features[j].id
  {
    var cells := WindowCells(grid, relX, relY);
    RowsUpToBounds(grid, relX, relY, TILE_SIZE);
    RowsUpToOrdered(grid, relX, relY, TILE_SIZE);
    forall i, j | 0 <= i < j < |layer.features|
      ensures layer.features[i].id != layer.features[j].id
    {
      var a, b := cells[i], cells[j];
      assert Before(a, b);
      assert FeatureMatches(layer.features[i], layer.values, anc, relX, relY, grid, parse, a);
      assert FeatureMatches(layer.features[j], layer.values, anc, relX, relY, grid, parse, b);
      if layer.features[i].id == layer.features[j].id {
        FeatureIdInjective(GridRow(a, relY), GridCol(a, relX), GridRow(b, relY), GridCol(b, relX));
      }
    }
  }

  /** Every feature is the unit square at its pixel, drawn as an exterior ring. */
  lemma LayerFeatureGeometry(layer: Layer, anc: Tile, relX: int, relY: int, grid: Grid, parse: string -> Num, k: nat)
    requires LayerMatches(layer, anc, relX, relY, grid, parse)
    requires k < |layer.features|
    ensures var p := WindowCells(grid, relX, relY)[k];
      && InWindow(p)
      && DecodeGeometry(layer.features[k].geometry) == Some(
           [ MoveTo(Vertex(p.col, p.row)), LineTo(Vertex(p.col + 1, p.row)), LineTo(Vertex(p.col + 1, p.row + 1)),
             LineTo(Vertex(p.col, p.row + 1)), ClosePath ])
      && TwiceArea(Ring(DecodeGeometry(layer.features[k].geometry).value)) == 2
  {
    var p := WindowCells(grid, relX, relY)[k];
    FeatureGeometryAt(layer, anc, relX, relY, grid, parse, k);
    SquareGeometryDecodes(p.col, p.row);
    SquareIsExteriorRing(p.col, p.row);
  }

  lemma FeatureGeometryAt(layer: Layer, anc: Tile, relX: int, relY: int, grid: Grid, parse: string -> Num, k: nat)
    requires LayerMatches(layer, anc, relX, relY, grid, parse)
    requires k < |layer.features|
    ensures var p := WindowCells(grid, relX, relY)[k];
      InWindow(p) && layer.features[k].geometry == SquareGeometry(p.col, p.row)
  {
    var p := WindowCells(grid, relX, relY)[k];
    RowsUpToBounds(grid, relX, relY, TILE_SIZE);
    assert FeatureMatches(layer.features[k], layer.values, anc, relX, relY, grid, parse, p);
  }

  /** Every feature's tags pair the seven keys, in order, with entries of the value table. */
  lemma LayerFeatureTags(layer: Layer, anc: Tile, relX: int, relY: int, grid: Grid, parse: string -> Num, k: nat)
    requires LayerMatches(layer, anc, relX, relY, grid, parse)
    requires k < |layer.features|
    ensures |layer.features[k].tags| == 2 * |layer.keys|
    ensures forall j :: 0 <= j < |layer.keys| ==>
      layer.features[k].tags[2 * j] == j && layer.features[k].tags[2 * j + 1] < |layer.values|
  {
    var p := WindowCells(grid, relX, relY)[k];
    assert FeatureMatches(layer.features[k], layer.values, anc, relX, relY, grid, parse, p);
    var vals := CellValues(anc, relX, relY, grid, parse, p);
    TagsShape(layer.features[k].tags, layer.values, vals);
  }

  /** Tags that match seven values pair key j with a valid value index. */
  lemma TagsShape(tags: seq<nat>, values: seq<Value>, vals: seq<Value>)
    requires TagsMatch(tags, values, vals) && |vals| == |KEYS|
    ensures |tags| == 2 * |KEYS|
    ensures forall j :: 0 <= j < |KEYS| ==> tags[2 * j] == j && tags[2 * j + 1] < |values|
  {
  }

  /** The value table holds no value twice. */
  lemma LayerValuesDistinct(layer: Layer, anc: Tile, relX: int, relY: int, grid: Grid, parse: string -> Num)
    requires LayerMatches(layer, anc, relX, relY, grid, parse)
    ensures Distinct(layer.values)
  {
    TableDistinct(anc, relX, relY, grid, parse, WindowCells(grid, relX, relY));
  }

  /** Some feature's tags name value index i (value indices sit at the odd positions). */
  predicate ValueUsed(fs: seq<Feature>, i: int) {
    exists k, m :: 0 <= k < |fs| && 0 <= m < |fs[k].tags| && m % 2 == 1 && fs[k].tags[m] == i
  }

  /** Every entry of the value table is the value of some feature's tag. */
  lemma LayerValuesUsed(layer: Layer, anc: Tile, relX: int, relY: int, grid: Grid, parse: string -> Num)
    requires LayerMatches(layer, anc, relX, relY, grid, parse)
    ensures forall i :: 0 <= i < |layer.values| ==> ValueUsed(layer.features, i)
  {
    TableDistinct(anc, relX, relY, grid, parse, WindowCells(grid, relX, relY));
    forall i | 0 <= i < |layer.values|
      ensures ValueUsed(layer.features, i)
    {
      LayerValueUsed(layer, anc, relX, relY, grid, parse, i);
    }
  }

  lemma LayerValueUsed(layer: Layer, anc: Tile, relX: int, relY: int, grid: Grid, parse: string -> Num, i: nat)
    requires LayerMatches(layer, anc, relX, relY, grid, parse)
    requires Distinct(layer.values) && i < |layer.values|
    ensures ValueUsed(layer.features, i)
  {
    var cells := WindowCells(grid, relX, relY);
    var tv := TagValues(anc, relX, relY, grid, parse, cells);
    var v := layer.values[i];
    TableIsAbsorb(anc, relX, relY, grid, parse, cells);
    AbsorbContents([], tv);
    assert v in tv;
    TagValuesFrom(anc, relX, relY, grid, parse, cells, v);
    var k :| 0 <= k < |cells| && v in CellValues(anc, relX, relY, grid, parse, cells[k]);
    var vals := CellValues(anc, relX, relY, grid, parse, cells[k]);
    var j :| 0 <= j < |vals| && vals[j] == v;
    var f := layer.features[k];
    assert FeatureMatches(f, layer.values, anc, relX, relY, grid, parse, cells[k]);
    var idx := f.tags[2 * j + 1];
    assert idx < |layer.values| && layer.values[idx] == layer.values[i];
    assert idx == i;
    OddPosition(j);
  }

  lemma OddPosition(j: nat)
    ensures (2 * j + 1) % 2 == 1
  {
    DivModUnique(2 * j + 1, 2, j, 1);
  }

  /**
   * The table lists its values in the order they are first used, feature
   * after feature and, within a feature, key after key.
   */
  lemma LayerValuesFirstUse(layer: Layer, anc: Tile, relX: int, relY: int, grid: Grid, parse: string -> Num)
    requires LayerMatches(layer, anc, relX, relY, grid, parse)
    ensures InFirstUseOrder(layer.values, TagValues(anc, relX, relY, grid, parse, WindowCells(grid, relX, relY)))
  {
    var cells := WindowCells(grid, relX, relY);
    TableIsAbsorb(anc, relX, relY, grid, parse, cells);
    AbsorbFirstUse([], TagValues(anc, relX, relY, grid, parse, cells));
    assert layer.values[0..] == layer.values;
  }

  // ---------------------------------------------------------------- the handler

  datatype TileResponse =
    | TileOk(layer: Layer)  // 200 with the encoded tile
    | NoContent             // 204: the DEM tile is not available
    | Failed                // an exception escapes the handler

  /**
   * tileHandler after the path parameters are parsed: find the ancestor
   * three levels up and the window in it, merge (or recall) its DEM tile and
   * build the layer.
   */
  method HandleTile(t: Tile, cache: DemCache, dem5a: Tile -> Fetched, dem10: Tile -> Fetched,
                    parse: string -> Num) returns (resp: TileResponse)
    requires cache.Valid()
    modifies cache
    ensures cache.Valid()
    ensures AncestorWithOffset(t, SCALE_FACTOR - 1).None? ==> resp == Failed && cache.entries == old(cache.entries)
    ensures AncestorWithOffset(t, SCALE_FACTOR - 1).Some? ==>
      var (anc, relX, relY) := AncestorWithOffset(t, SCALE_FACTOR - 1).value;
      var m := if anc in old(cache.entries) then Merged(old(cache.entries)[anc])
               else MergeOf(anc, dem5a, dem10);
      && (m.NoData? ==> resp == NoContent)
      && (m.Threw? ==> resp == Failed)
      && (m.Merged? ==>
            && resp.TileOk? && LayerMatches(resp.layer, anc, relX, relY, m.grid, parse)
            && Distinct(resp.layer.values)
            && forall i :: 0 <= i < |resp.layer.values| ==> ValueUsed(resp.layer.features, i))
      && cache.entries == if anc !in old(cache.entries) && m.Merged? then old(cache.entries)[anc := m.grid]
                          else old(cache.entries)
  {
    var rel := RelativePositionInAncestor(t, SCALE_FACTOR - 1);
    if rel.None? {
      return Failed;
    }
    var (anc, relX, relY) := rel.value;
    Pow2Values();
    var m := cache.GetMerged(anc, dem5a, dem10);
    match m {
      case NoData => resp := NoContent;
      case Threw => resp := Failed;
      case Merged(grid) =>
        var layer := BuildLayer(anc, relX, relY, grid, parse);
        resp := TileOk(layer);
    }
  }
}
