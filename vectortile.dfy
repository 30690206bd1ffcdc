/**
 * The hand-built parts of the Mapbox Vector Tile encoding (specification
 * version 2.1): zig-zag parameter integers (section 4.3.2), command integers
 * (section 4.3.1), the unit-square polygon (section 4.3.4.4), the packed
 * feature id, and the layer record the features end up in.
 */
module VectorTile {
  import opened Wrappers
  import opened JsNumber

  // ---------------------------------------------------------------- zig-zag

  /** `zz(value) = (value << 1) ^ (value >> 31)` in 32-bit arithmetic. */
  function ZigZag(v: int): (r: int)
    ensures InInt32(r)
    ensures -TWO_30 <= v < TWO_30 ==> r == if v >= 0 then 2 * v else -2 * v - 1
  {
    var shifted := ShiftLeftOne(v);  // value << 1
    var sign := ShiftRight(v, 31);   // value >> 31: 0 or -1
    ShiftRightSign(v);
    // x ^ 0 is x, and x ^ -1 is ~x, which is -x - 1 in two's complement.
    if sign == 0 then shifted else -shifted - 1
  }

  /** The decoder's inverse of the zig-zag fold (section 4.3.2: `(n >> 1) ^ -(n & 1)`). */
  function UnZigZag(n: nat): int {
    if n % 2 == 0 then n / 2 else -((n + 1) / 2)
  }

  lemma ZigZagRoundTrip(v: int)
    requires -TWO_30 <= v < TWO_30
    ensures ZigZag(v) >= 0
    ensures UnZigZag(ZigZag(v)) == v
  {
  }

  lemma UnZigZagRoundTrip(n: nat)
    requires n < TWO_31
    ensures ZigZag(UnZigZag(n)) == n
  {
    var h := n / 2;
    DivModUnique(n, 2, h, n % 2);
    if n % 2 == 0 {
      assert UnZigZag(n) == h;
    } else {
      DivModUnique(n + 1, 2, h + 1, 0);
      assert UnZigZag(n) == -(h + 1);
    }
  }

  /** On the 31-bit range the fold is injective, so distinct deltas stay distinct. */
  lemma ZigZagInjective(a: int, b: int)
    requires -TWO_30 <= a < TWO_30 && -TWO_30 <= b < TWO_30
    requires ZigZag(a) == ZigZag(b)
    ensures a == b
  {
    ZigZagRoundTrip(a);
    ZigZagRoundTrip(b);
  }

  lemma ZigZagSmallValues()
    ensures ZigZag(0) == 0 && ZigZag(1) == 2 && ZigZag(-1) == 1
  {
  }

  // ---------------------------------------------------------------- commands

  const MOVE_TO: nat := 1
  const LINE_TO: nat := 2
  const CLOSE_PATH: nat := 7

  /** `(id & 0x7) | (count << 3)`; the two bit fields do not overlap, so `|` is `+`. */
  function CommandInteger(id: nat, count: nat): (n: nat)
    requires id < 8
    ensures n % 8 == id && n / 8 == count
  {
    DivModUnique(id + 8 * count, 8, count, id);
    id + 8 * count
  }

  /**
   * The geometry of the polygon for the cell at local column c and row r:
   * MoveTo(c, r), LineTo by (1, 0), (0, 1), (-1, 0), ClosePath.
   */
  function SquareGeometry(c: int, r: int): (g: seq<int>)
    ensures |g| == 11
    ensures 0 <= c < TWO_30 && 0 <= r < TWO_30 ==> g == [9, 2 * c, 2 * r, 26, 2, 0, 0, 2, 1, 0, 15]
    ensures g[0] == CommandInteger(MOVE_TO, 1) && g[3] == CommandInteger(LINE_TO, 3)
    ensures g[10] == CommandInteger(CLOSE_PATH, 1)
  {
    [ CommandInteger(MOVE_TO, 1), ZigZag(c), ZigZag(r),
      CommandInteger(LINE_TO, 3), ZigZag(1), ZigZag(0),
                                  ZigZag(0), ZigZag(1),
                                  ZigZag(-1), ZigZag(0),
      15 ]
  }

  // ---------------------------------------------------------------- decoding

  datatype Vertex = Vertex(x: int, y: int)

  datatype PathOp = MoveTo(to: Vertex) | LineTo(to: Vertex) | ClosePath

  /**
   * A reference decoder for command streams (section 4.3): reads commands
   * and their zig-zag parameter pairs, moving a cursor that starts at
   * `cursor`; `pending` parameter pairs of command `id` remain. None on a
   * malformed stream.
   */
  function DecodeFrom(g: seq<int>, cursor: Vertex, id: nat, pending: nat): Option<seq<PathOp>>
    decreases |g|
  {
    if pending > 0 then
      if |g| < 2 || g[0] < 0 || g[1] < 0 then None
      else
        var p := Vertex(cursor.x + UnZigZag(g[0]), cursor.y + UnZigZag(g[1]));
        var rest := DecodeFrom(g[2..], p, id, pending - 1);
        if rest.None? then None
        else Some([if id == MOVE_TO then MoveTo(p) else LineTo(p)] + rest.value)
    else if g == [] then Some([])
    else if g[0] < 0 then None
    else
      var cmd, count := g[0] % 8, g[0] / 8;
      if cmd == CLOSE_PATH && count == 1 then
        var rest := DecodeFrom(g[1..], cursor, 0, 0);
        if rest.None? then None else Some([ClosePath] + rest.value)
      else if (cmd == MOVE_TO || cmd == LINE_TO) && count > 0 then
        DecodeFrom(g[1..], cursor, cmd, count)
      else None
  }

  function DecodeGeometry(g: seq<int>): Option<seq<PathOp>> {
    DecodeFrom(g, Vertex(0, 0), 0, 0)
  }

  /**
   * The cell's geometry decodes to a closed ring through the corners
   * (c, r), (c + 1, r), (c + 1, r + 1), (c, r + 1).
   */
  lemma SquareGeometryDecodes(c: int, r: int)
    requires 0 <= c < TWO_30 && 0 <= r < TWO_30
    ensures DecodeGeometry(SquareGeometry(c, r)) == Some(
      [ MoveTo(Vertex(c, r)), LineTo(Vertex(c + 1, r)), LineTo(Vertex(c + 1, r + 1)),
        LineTo(Vertex(c, r + 1)), ClosePath ])
  {
    assert SquareGeometry(c, r) == [9, 2 * c, 2 * r, 26, 2, 0, 0, 2, 1, 0, 15];
    DecodeSquare(c, r, [9, 2 * c, 2 * r, 26, 2, 0, 0, 2, 1, 0, 15]);
  }

  /** The command integer 9 opens the MoveTo to (c, r); the sides follow. */
  lemma DecodeSquare(c: int, r: int, g: seq<int>)
    requires 0 <= c < TWO_30 && 0 <= r < TWO_30
    requires g == [9, 2 * c, 2 * r, 26, 2, 0, 0, 2, 1, 0, 15]
    ensures DecodeFrom(g, Vertex(0, 0), 0, 0) == Some(
      [ MoveTo(Vertex(c, r)), LineTo(Vertex(c + 1, r)), LineTo(Vertex(c + 1, r + 1)),
        LineTo(Vertex(c, r + 1)), ClosePath ])
  {
    DecodeMoveTo(c, r, g[1..]);
    assert g[0] == CommandInteger(MOVE_TO, 1);
  }

  /** The MoveTo's one parameter pair (2c, 2r) zig-zag decodes to (c, r). */
  lemma DecodeMoveTo(c: int, r: int, g: seq<int>)
    requires 0 <= c < TWO_30 && 0 <= r < TWO_30
    requires g == [2 * c, 2 * r, 26, 2, 0, 0, 2, 1, 0, 15]
    ensures DecodeFrom(g, Vertex(0, 0), MOVE_TO, 1) == Some(
      [ MoveTo(Vertex(c, r)), LineTo(Vertex(c + 1, r)), LineTo(Vertex(c + 1, r + 1)),
        LineTo(Vertex(c, r + 1)), ClosePath ])
  {
    var rest := [LineTo(Vertex(c + 1, r)), LineTo(Vertex(c + 1, r + 1)), LineTo(Vertex(c, r + 1)), ClosePath];
    UnZigZagEven(c);
    UnZigZagEven(r);
    var p := Vertex(0 + UnZigZag(g[0]), 0 + UnZigZag(g[1]));
    assert p == Vertex(c, r);
    DecodeLineTo(c, r, g[2..]);
    assert DecodeFrom(g[2..], p, MOVE_TO, 0) == Some(rest);
    assert [MoveTo(p)] + rest == [MoveTo(Vertex(c, r)), LineTo(Vertex(c + 1, r)), LineTo(Vertex(c + 1, r + 1)),
                                   LineTo(Vertex(c, r + 1)), ClosePath];
  }

  lemma UnZigZagEven(n: nat)
    ensures UnZigZag(2 * n) == n
  {
    DivModUnique(2 * n, 2, n, 0);
  }

  /** The command integer 26 opens LineTo with three parameter pairs. */
  lemma DecodeLineTo(c: int, r: int, g: seq<int>)
    requires g == [26, 2, 0, 0, 2, 1, 0, 15]
    ensures DecodeFrom(g, Vertex(c, r), MOVE_TO, 0) == Some(
      [LineTo(Vertex(c + 1, r)), LineTo(Vertex(c + 1, r + 1)), LineTo(Vertex(c, r + 1)), ClosePath])
  {
    DecodeSide1(c, r, g[1..]);
    assert g[0] == CommandInteger(LINE_TO, 3);
  }

  /** Side one: (1, 0), from (c, r) to (c + 1, r). */
  lemma DecodeSide1(c: int, r: int, g: seq<int>)
    requires g == [2, 0, 0, 2, 1, 0, 15]
    ensures DecodeFrom(g, Vertex(c, r), LINE_TO, 3) == Some(
      [LineTo(Vertex(c + 1, r)), LineTo(Vertex(c + 1, r + 1)), LineTo(Vertex(c, r + 1)), ClosePath])
  {
    var rest := [LineTo(Vertex(c + 1, r + 1)), LineTo(Vertex(c, r + 1)), ClosePath];
    assert UnZigZag(2) == 1 && UnZigZag(0) == 0;
    var p := Vertex(c + UnZigZag(g[0]), r + UnZigZag(g[1]));
    assert p == Vertex(c + 1, r);
    DecodeSide2(c, r, g[2..]);
    assert DecodeFrom(g[2..], p, LINE_TO, 2) == Some(rest);
    assert [LineTo(p)] + rest == [LineTo(Vertex(c + 1, r)), LineTo(Vertex(c + 1, r + 1)), LineTo(Vertex(c, r + 1)), ClosePath];
  }

  /** Side two: (0, 1), down to (c + 1, r + 1). */
  lemma DecodeSide2(c: int, r: int, g: seq<int>)
    requires g == [0, 2, 1, 0, 15]
    ensures DecodeFrom(g, Vertex(c + 1, r), LINE_TO, 2) == Some(
      [LineTo(Vertex(c + 1, r + 1)), LineTo(Vertex(c, r + 1)), ClosePath])
  {
    var rest := [LineTo(Vertex(c, r + 1)), ClosePath];
    assert UnZigZag(0) == 0 && UnZigZag(2) == 1;
    var p := Vertex(c + 1 + UnZigZag(g[0]), r + UnZigZag(g[1]));
    assert p == Vertex(c + 1, r + 1);
    DecodeSide3(c, r, g[2..]);
    assert DecodeFrom(g[2..], p, LINE_TO, 1) == Some(rest);
    assert [LineTo(p)] + rest == [LineTo(Vertex(c + 1, r + 1)), LineTo(Vertex(c, r + 1)), ClosePath];
  }

  /** Side three: (-1, 0), back to (c, r + 1). */
  lemma DecodeSide3(c: int, r: int, g: seq<int>)
    requires g == [1, 0, 15]
    ensures DecodeFrom(g, Vertex(c + 1, r + 1), LINE_TO, 1) == Some([LineTo(Vertex(c, r + 1)), ClosePath])
  {
    DecodeClose(Vertex(c, r + 1), g[2..]);
    assert UnZigZag(1) == -1 && UnZigZag(0) == 0;
    assert [LineTo(Vertex(c, r + 1))] + [ClosePath] == [LineTo(Vertex(c, r + 1)), ClosePath];
  }

  /** The command integer 15 is ClosePath and ends the stream. */
  lemma DecodeClose(cursor: Vertex, g: seq<int>)
    requires g == [15]
    ensures DecodeFrom(g, cursor, LINE_TO, 0) == Some([ClosePath])
  {
    assert g[1..] == [];
    assert g[0] == CommandInteger(CLOSE_PATH, 1);
    assert DecodeFrom(g[1..], cursor, 0, 0) == Some([]);
    assert [ClosePath] + [] == [ClosePath];
  }

  /** The vertices a decoded path visits. */
  function Ring(ops: seq<PathOp>): seq<Vertex> {
    if ops == [] then []
    else (if ops[0].ClosePath? then [] else [ops[0].to]) + Ring(ops[1..])
  }

  /** Twice the signed area of a closed ring (surveyor's formula, tile coordinates). */
  function TwiceArea(ring: seq<Vertex>): int {
    if |ring| < 3 then 0 else Shoelace(ring, 0)
  }

  function Shoelace(ring: seq<Vertex>, i: nat): int
    requires i <= |ring| && |ring| > 0
    decreases |ring| - i
  {
    if i == |ring| then 0
    else
      var a, b := ring[i], ring[(i + 1) % |ring|];
      a.x * b.y - b.x * a.y + Shoelace(ring, i + 1)
  }

  /**
   * Section 4.3.4.4: an exterior ring has positive area in tile coordinates
   * (y pointing down). The cell's ring has area one.
   */
  lemma SquareIsExteriorRing(c: int, r: int)
    requires 0 <= c < TWO_30 && 0 <= r < TWO_30
    ensures DecodeGeometry(SquareGeometry(c, r)).Some?
    ensures TwiceArea(Ring(DecodeGeometry(SquareGeometry(c, r)).value)) == 2
  {
    SquareGeometryDecodes(c, r);
    SquareRing(c, r, DecodeGeometry(SquareGeometry(c, r)).value);
    SquareArea(c, r);
  }

  /** The vertices of the decoded square, ClosePath adding none. */
  lemma SquareRing(c: int, r: int, ops: seq<PathOp>)
    requires ops == [ MoveTo(Vertex(c, r)), LineTo(Vertex(c + 1, r)), LineTo(Vertex(c + 1, r + 1)),
                      LineTo(Vertex(c, r + 1)), ClosePath ]
    ensures Ring(ops) == [Vertex(c, r), Vertex(c + 1, r), Vertex(c + 1, r + 1), Vertex(c, r + 1)]
  {
    var v0, v1, v2, v3 := Vertex(c, r), Vertex(c + 1, r), Vertex(c + 1, r + 1), Vertex(c, r + 1);
    var e := [ClosePath];
    var d := [LineTo(v3)] + e;
    var b := [LineTo(v2)] + d;
    var a := [LineTo(v1)] + b;
    assert ops == [MoveTo(v0)] + a;
    RingCons(ClosePath, []);
    assert e == [ClosePath] + [];
    RingCons(LineTo(v3), e);
    RingCons(LineTo(v2), d);
    RingCons(LineTo(v1), b);
    RingCons(MoveTo(v0), a);
  }

  /** Each drawing command adds its end point to the ring; ClosePath adds none. */
  lemma RingCons(op: PathOp, rest: seq<PathOp>)
    ensures Ring([op] + rest) == (if op.ClosePath? then [] else [op.to]) + Ring(rest)
  {
    assert ([op] + rest)[1..] == rest;
  }

  /** The unit square at (c, r), listed clockwise on screen, has twice-area 2. */
  lemma SquareArea(c: int, r: int)
    ensures TwiceArea([Vertex(c, r), Vertex(c + 1, r), Vertex(c + 1, r + 1), Vertex(c, r + 1)]) == 2
  {
    var ring := [Vertex(c, r), Vertex(c + 1, r), Vertex(c + 1, r + 1), Vertex(c, r + 1)];
    assert Shoelace(ring, 4) == 0;
    assert Shoelace(ring, 3) == c * r - c * (r + 1);
    assert Shoelace(ring, 2) == (c + 1) * (r + 1) - c * (r + 1) + c * r - c * (r + 1);
    assert Shoelace(ring, 1) == (c + 1) * (r + 1) - (c + 1) * r + Shoelace(ring, 2);
    assert Shoelace(ring, 0) == c * r - (c + 1) * r + Shoelace(ring, 1);
  }

  // ---------------------------------------------------------------- feature id

  /**
   * `((0xFF & rowIdx) << 8) | (0xFF & colIdx)`. `& 0xFF` keeps the low byte
   * (v mod 256, also for negative 32-bit values); the shifted row byte and the
   * column byte occupy disjoint bits, so `|` is `+`.
   */
  function FeatureId(row: int, col: int): (id: nat)
    ensures id < 65536
  {
    (row % 256) * 256 + col % 256
  }

  /** Within a 256 x 256 grid, distinct cells get distinct ids. */
  lemma FeatureIdInjective(r1: int, c1: int, r2: int, c2: int)
    requires 0 <= r1 < 256 && 0 <= c1 < 256 && 0 <= r2 < 256 && 0 <= c2 < 256
    requires FeatureId(r1, c1) == FeatureId(r2, c2)
    ensures r1 == r2 && c1 == c2
  {
    DivModUnique(FeatureId(r1, c1), 256, r1, c1);
    DivModUnique(FeatureId(r2, c2), 256, r2, c2);
  }

  // ---------------------------------------------------------------- layer

  datatype GeomType = Polygon

  /** A tag value `{intValue: n}`, holding the JavaScript number before encoding. */
  datatype Value = IntValue(n: Num)

  datatype Feature = Feature(id: nat, geomType: GeomType, geometry: seq<int>, tags: seq<nat>)

  datatype Layer = Layer(
    version: nat,
    name: string,
    extent: nat,
    features: seq<Feature>,
    keys: seq<string>,
    values: seq<Value>)
}
