/**
 * Quadtree tile algebra: a tile's position in its parent, the ancestor a
 * number of levels up together with the tile's offset inside it, and the
 * ancestor at a given zoom.
 */
module TileAlgebra {
  import opened Wrappers
  import opened JsNumber

  /** `[x, y, z]`. The source never checks the ranges, so neither does the model. */
  datatype Tile = Tile(x: int, y: int, z: int)

  /** A child's position inside its parent, as a (dx, dy) pair. */
  datatype Quadrant = Quadrant(dx: int, dy: int)

  /** The four children in the order NW, NE, SE, SW, by their offsets. */
  const TruthTable: seq<Quadrant> :=
    [Quadrant(0, 0), Quadrant(1, 0), Quadrant(1, 1), Quadrant(0, 1)]

  function Child(parent: Tile, q: Quadrant): Tile {
    Tile(2 * parent.x + q.dx, 2 * parent.y + q.dy, parent.z + 1)
  }

  /** The candidate children in truth-table order. */
  function Children(parent: Tile): (cs: seq<Tile>)
    ensures |cs| == 4
    ensures forall i :: 0 <= i < 4 ==> cs[i] == Child(parent, TruthTable[i])
  {
    [ Tile(parent.x * 2, parent.y * 2, parent.z + 1),
      Tile(parent.x * 2 + 1, parent.y * 2, parent.z + 1),
      Tile(parent.x * 2 + 1, parent.y * 2 + 1, parent.z + 1),
      Tile(parent.x * 2, parent.y * 2 + 1, parent.z + 1) ]
  }

  /**
   * One step up. The parent is `(x >> 1, y >> 1, z - 1)` (z = 0 is not
   * rejected); the quadrant is looked up among the parent's children and is
   * `undefined` (None) when the tile is not among them, which happens exactly
   * when a coordinate does not survive the 32-bit shift.
   */
  function PositionInParent(t: Tile): (r: (Option<Quadrant>, Tile))
    ensures r.1.z == t.z - 1
    ensures r.0.Some? <==> InInt32(t.x) && InInt32(t.y)
    ensures r.0.Some? ==> r.1 == Tile(t.x / 2, t.y / 2, t.z - 1)
    ensures r.0.Some? ==> r.0.value == Quadrant(t.x % 2, t.y % 2)
    ensures r.0.Some? ==> r.0.value in TruthTable && Child(r.1, r.0.value) == t
  {
    var parent := Tile(ShiftRight(t.x, 1), ShiftRight(t.y, 1), t.z - 1);
    var i := FindIndex(Children(parent), t);
    FindChild(t);
    (if i == -1 then None else Some(TruthTable[i]), parent)
  }

  /** Where findIndex stops among the candidates built from `x >> 1` and `y >> 1`. */
  lemma FindChild(t: Tile)
    ensures var parent := Tile(ShiftRight(t.x, 1), ShiftRight(t.y, 1), t.z - 1);
      var i := FindIndex(Children(parent), t);
      && (i == -1 <==> !(InInt32(t.x) && InInt32(t.y)))
      && (i != -1 ==> parent == Tile(t.x / 2, t.y / 2, t.z - 1) && TruthTable[i] == Quadrant(t.x % 2, t.y % 2))
  {
    ShiftRightOne(t.x);
    ShiftRightOne(t.y);
    if InInt32(t.x) && InInt32(t.y) {
      FindChildInRange(t);
    } else {
      FindChildOutOfRange(t);
    }
  }

  lemma FindChildInRange(t: Tile)
    requires InInt32(t.x) && InInt32(t.y)
    requires ShiftRight(t.x, 1) == t.x / 2 && ShiftRight(t.y, 1) == t.y / 2
    ensures var i := FindIndex(Children(Tile(t.x / 2, t.y / 2, t.z - 1)), t);
      i != -1 && TruthTable[i] == Quadrant(t.x % 2, t.y % 2)
  {
    var px, py, dx, dy := t.x / 2, t.y / 2, t.x % 2, t.y % 2;
    assert t.x == 2 * px + dx && t.y == 2 * py + dy;
    var parent := Tile(px, py, t.z - 1);
    var q := Quadrant(dx, dy);
    var cs := Children(parent);
    var k := QuadrantIndex(q);
    assert cs[k] == Child(parent, q) == t;
    var i := FindIndex(cs, t);
    var qi := TruthTable[i];
    assert Child(parent, qi) == t;
    assert 2 * px + qi.dx == t.x && 2 * py + qi.dy == t.y;
  }

  lemma FindChildOutOfRange(t: Tile)
    requires !(InInt32(t.x) && InInt32(t.y))
    requires -TWO_30 <= ShiftRight(t.x, 1) < TWO_30 && -TWO_30 <= ShiftRight(t.y, 1) < TWO_30
    ensures FindIndex(Children(Tile(ShiftRight(t.x, 1), ShiftRight(t.y, 1), t.z - 1)), t) == -1
  {
    var parent := Tile(ShiftRight(t.x, 1), ShiftRight(t.y, 1), t.z - 1);
    var cs := Children(parent);
    forall j | 0 <= j < 4
      ensures cs[j] != t
    {
      assert cs[j] == Child(parent, TruthTable[j]);
    }
  }

  /** Every offset pair in {0, 1} x {0, 1} has its place in the truth table. */
  lemma QuadrantIndex(q: Quadrant) returns (k: nat)
    requires 0 <= q.dx <= 1 && 0 <= q.dy <= 1
    ensures k < 4 && TruthTable[k] == q
  {
    k := if q.dy == 0 then q.dx else 3 - q.dx;
  }

  /** `v >> 1` lies in the 31-bit range, and is floor(v / 2) for a 32-bit v. */
  lemma ShiftRightOne(v: int)
    ensures -TWO_30 <= ShiftRight(v, 1) < TWO_30
    ensures InInt32(v) ==> ShiftRight(v, 1) == v / 2
  {
    assert Pow2(1) == 2;
    var a := ToInt32(v);
    assert ShiftRight(v, 1) == a / 2;
  }

  /**
   * The quadrants met while climbing k levels from (x, y), nearest the
   * ancestor first: the order `unshift` leaves them in.
   */
  function QuadPath(x: int, y: int, k: nat): (p: seq<Option<Quadrant>>)
    ensures |p| == k
  {
    if k == 0 then []
    else [Some(Quadrant((x / Pow2(k - 1)) % 2, (y / Pow2(k - 1)) % 2))] + QuadPath(x, y, k - 1)
  }

  /**
   * The `reduce` of getRelativePositionInAncestor, from index `idx` on with
   * accumulator (ax, ay): the quadrant at index i contributes its offsets at
   * weight 2^(steps-1-i). Destructuring an `undefined` entry throws (None).
   */
  function Reduce(ps: seq<Option<Quadrant>>, steps: int, idx: nat, ax: int, ay: int): (r: Option<(int, int)>)
    requires idx <= |ps| && (|ps| == 0 || |ps| <= steps)
    ensures r.None? <==> None in ps[idx..]
    decreases |ps| - idx
  {
    if idx == |ps| then Some((ax, ay))
    else
      assert ps[idx..] == [ps[idx]] + ps[idx + 1..];
      match ps[idx]
      case None => None
      case Some(q) =>
        var w := Pow2(steps - 1 - idx);
        Reduce(ps, steps, idx + 1, ax + q.dx * w, ay + q.dy * w)
  }

  /**
   * What climbing `steps` levels gives: for steps <= 0 the tile itself at
   * offset (0, 0); otherwise, for 32-bit coordinates, the ancestor
   * (x >> k, y >> k, z - k) and the offset (x mod 2^k, y mod 2^k); a
   * coordinate outside 32 bits makes the source throw.
   */
  function AncestorWithOffset(t: Tile, steps: int): (r: Option<(Tile, int, int)>)
    ensures steps <= 0 ==> r == Some((t, 0, 0))
    ensures 0 < steps ==> (r.Some? <==> InInt32(t.x) && InInt32(t.y))
    ensures r.Some? && 0 < steps ==>
      var (a, rx, ry) := r.value;
      && a.z == t.z - steps
      && 0 <= rx < Pow2(steps) && 0 <= ry < Pow2(steps)
      && a.x * Pow2(steps) + rx == t.x && a.y * Pow2(steps) + ry == t.y
  {
    if steps <= 0 then Some((t, 0, 0))
    else if !InInt32(t.x) || !InInt32(t.y) then None
    else
      var p := Pow2(steps);
      Some((Tile(t.x / p, t.y / p, t.z - steps), t.x % p, t.y % p))
  }

  /** getRelativePositionInAncestor: climb until the target zoom is reached, then fold the path. */
  method RelativePositionInAncestor(t: Tile, steps: int) returns (r: Option<(Tile, int, int)>)
    ensures r == AncestorWithOffset(t, steps)
  {
    var targetZoom := t.z - steps;
    var current := t;
    var positions: seq<Option<Quadrant>> := [];
    var inRange := InInt32(t.x) && InInt32(t.y);
    while current.z > targetZoom
      invariant current.z <= t.z && (current.z < t.z ==> current.z >= targetZoom)
      invariant |positions| == t.z - current.z
      invariant inRange ==> positions == QuadPath(t.x, t.y, t.z - current.z)
      invariant inRange ==>
        var p := Pow2(t.z - current.z);
        current == Tile(t.x / p, t.y / p, current.z)
      invariant inRange ==> InInt32(current.x) && InInt32(current.y)
      invariant !inRange && positions != [] ==> None in positions
      invariant positions == [] ==> current == t
      decreases current.z - targetZoom
    {
      var i := t.z - current.z;
      var step := PositionInParent(current);
      if inRange {
        DivModPow2Step(t.x, i);
        DivModPow2Step(t.y, i);
      } else if positions == [] {
        assert current == t;
      }
      positions := [step.0] + positions;
      current := step.1;
    }
    var offset := Reduce(positions, steps, 0, 0, 0);
    if inRange && steps > 0 {
      assert current.z == targetZoom;
      ReduceQuadPath(t.x, t.y, steps, 0);
      assert offset == Some((t.x % Pow2(steps), t.y % Pow2(steps)));
    } else if steps > 0 {
      assert positions != [];
      assert positions[0..] == positions;
    }
    r := if offset.None? then None else Some((current, offset.value.0, offset.value.1));
  }

  lemma {:induction false} QuadPathAt(x: int, y: int, k: nat, i: nat)
    requires i < k
    ensures QuadPath(x, y, k)[i] ==
      Some(Quadrant((x / Pow2(k - 1 - i)) % 2, (y / Pow2(k - 1 - i)) % 2))
  {
    if i > 0 {
      QuadPathAt(x, y, k - 1, i - 1);
    }
  }

  /**
   * The fold over the quadrant path yields the low k bits of each coordinate:
   * after the first idx entries the accumulator holds bits k-1 .. k-idx.
   */
  lemma {:induction false} ReduceQuadPath(x: int, y: int, k: nat, idx: nat)
    requires idx <= k
    ensures Reduce(QuadPath(x, y, k), k, idx,
                   x % Pow2(k) - x % Pow2(k - idx), y % Pow2(k) - y % Pow2(k - idx))
         == Some((x % Pow2(k), y % Pow2(k)))
    decreases k - idx
  {
    if idx < k {
      var j := k - 1 - idx;
      QuadPathAt(x, y, k, idx);
      DivModPow2Step(x, j);
      DivModPow2Step(y, j);
      ReduceQuadPath(x, y, k, idx + 1);
    }
  }

  /** Walk down from `a` along a root-to-leaf quadrant path; an `undefined` entry gives None. */
  function Descend(a: Tile, ps: seq<Option<Quadrant>>): Option<Tile>
    decreases |ps|
  {
    if ps == [] then Some(a)
    else if ps[0].None? then None
    else Descend(Child(a, ps[0].value), ps[1..])
  }

  /** Re-descending along the recorded path from the ancestor gives back the tile. */
  lemma {:induction false} DescendQuadPath(x: int, y: int, k: nat, z: int)
    ensures Descend(Tile(x / Pow2(k), y / Pow2(k), z), QuadPath(x, y, k)) == Some(Tile(x, y, z + k))
  {
    if k > 0 {
      DivModPow2Step(x, k - 1);
      DivModPow2Step(y, k - 1);
      DescendQuadPath(x, y, k - 1, z + 1);
    }
  }

  /** The ancestor and the path combine back into the tile (both climbing `steps` levels). */
  lemma AncestorThenDescend(t: Tile, steps: nat)
    requires InInt32(t.x) && InInt32(t.y)
    ensures AncestorWithOffset(t, steps).Some?
    ensures Descend(AncestorWithOffset(t, steps).value.0, QuadPath(t.x, t.y, steps)) == Some(t)
  {
    DescendQuadPath(t.x, t.y, steps, t.z - steps);
  }

  /** A child's ancestor k >= 1 levels up is its parent's ancestor k - 1 levels up. */
  lemma ChildAncestor(t: Tile, k: nat, q: Quadrant)
    requires -TWO_30 <= t.x < TWO_30 && -TWO_30 <= t.y < TWO_30
    requires k >= 1 && q in TruthTable
    ensures AncestorWithOffset(Child(t, q), k).Some?
    ensures var (a, rx, ry) := AncestorWithOffset(Child(t, q), k).value;
      && a == Tile(t.x / Pow2(k - 1), t.y / Pow2(k - 1), t.z + 1 - k)
      && rx % 2 == q.dx && ry % 2 == q.dy
  {
    var c := Child(t, q);
    DivPow2Half(c.x, k);
    DivPow2Half(c.y, k);
    assert c.x / 2 == t.x && c.y / 2 == t.y;
    ModPow2Parity(c.x, k);
    ModPow2Parity(c.y, k);
  }

  /**
   * The four children of a tile share their ancestor k >= 1 levels up, and
   * their offsets in it are pairwise distinct.
   */
  lemma SiblingsShareAncestor(t: Tile, k: nat, q1: Quadrant, q2: Quadrant)
    requires -TWO_30 <= t.x < TWO_30 && -TWO_30 <= t.y < TWO_30
    requires k >= 1 && q1 in TruthTable && q2 in TruthTable && q1 != q2
    ensures AncestorWithOffset(Child(t, q1), k).Some? && AncestorWithOffset(Child(t, q2), k).Some?
    ensures AncestorWithOffset(Child(t, q1), k).value.0 == AncestorWithOffset(Child(t, q2), k).value.0
    ensures AncestorWithOffset(Child(t, q1), k).value.1 != AncestorWithOffset(Child(t, q2), k).value.1
         || AncestorWithOffset(Child(t, q1), k).value.2 != AncestorWithOffset(Child(t, q2), k).value.2
  {
    ChildAncestor(t, k, q1);
    ChildAncestor(t, k, q2);
  }

  /** getParentAtZ: jump straight to the ancestor at `zoom` with one shift; a zoom above the tile's throws (None). */
  function ParentAtZ(t: Tile, zoom: int): (r: Option<Tile>)
    ensures r.None? <==> zoom > t.z
    ensures r.Some? ==> r.value.z == zoom && InInt32(r.value.x) && InInt32(r.value.y)
  {
    var zDiff := t.z - zoom;
    if zDiff < 0 then None
    else Some(Tile(ShiftRight(t.x, zDiff), ShiftRight(t.y, zDiff), t.z - zDiff))
  }

  /**
   * For 32-bit coordinates and fewer than 32 levels, the direct jump and the
   * level-by-level climb reach the same ancestor.
   */
  lemma ParentAtZAgrees(t: Tile, zoom: int)
    requires InInt32(t.x) && InInt32(t.y) && zoom <= t.z < zoom + 32
    ensures ParentAtZ(t, zoom).Some? && AncestorWithOffset(t, t.z - zoom).Some?
    ensures ParentAtZ(t, zoom).value == AncestorWithOffset(t, t.z - zoom).value.0
  {
  }
}
