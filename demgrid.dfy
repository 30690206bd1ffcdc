/**
 * Merging the two elevation tiers of one tile and memoising the result. The
 * fine tier (5 m mesh) is laid over a 256 x 256 grid of "e" (no data); where a
 * fine value is "e" and the coarse tier (10 m mesh) was found, the coarse
 * value at the same position is taken instead.
 */
module DemGrid {
  import opened Wrappers
  import opened TileAlgebra
  import DemText

  /** A grid value: a token of the text, or `undefined` read past the end of a coarse row. */
  datatype Cell = Token(text: string) | Undefined

  const NO_DATA: Cell := Token("e")
  const GRID_SIZE: nat := 256

  type Tokens = seq<seq<string>>
  type Grid = seq<seq<Cell>>

  /** The outcome of getMergedDemData: null (no fine tier), a grid, or an exception thrown. */
  datatype Merge = NoData | Merged(grid: Grid) | Threw

  /** Every grid the merge produces: 256 rows, none shorter than 256. */
  predicate WellFormed(g: Grid) {
    |g| == GRID_SIZE && forall r :: 0 <= r < |g| ==> |g[r]| >= GRID_SIZE
  }

  /** `dem10data[rowIdx][colIdx]`; a column past the end of the row reads as undefined. */
  function CoarseCell(coarse: Tokens, r: int, c: int): (v: Cell)
    ensures v.Token? <==> 0 <= r < |coarse| && 0 <= c < |coarse[r]|
    ensures v.Token? ==> v.text == coarse[r][c]
  {
    if 0 <= r < |coarse| && 0 <= c < |coarse[r]| then Token(coarse[r][c]) else Undefined
  }

  /** The value the merge writes at a position the fine tier visits, and "e" elsewhere. */
  function MergedCell(fine: Tokens, coarse: Option<Tokens>, r: int, c: int): (v: Cell)
    ensures 0 <= r < |fine| && 0 <= c < |fine[r]| && fine[r][c] != "e" ==> v == Token(fine[r][c])
    ensures v == Undefined <==>
      && 0 <= r < |fine| && 0 <= c < |fine[r]| && fine[r][c] == "e" && coarse.Some?
      && !(0 <= r < |coarse.value| && 0 <= c < |coarse.value[r]|)
    ensures v == NO_DATA <==>
      || !(0 <= r < |fine| && 0 <= c < |fine[r]|)
      || (fine[r][c] == "e" && (coarse.None? || CoarseCell(coarse.value, r, c) == NO_DATA))
  {
    if 0 <= r < |fine| && 0 <= c < |fine[r]| then
      if fine[r][c] == "e" && coarse.Some? then CoarseCell(coarse.value, r, c)
      else Token(fine[r][c])
    else NO_DATA
  }

  /**
   * Row r after the first n values of fine row r were written: the initial 256
   * "e" values, overwritten in order, the row growing once a write reaches its end.
   */
  function PartialRow(fine: Tokens, coarse: Option<Tokens>, r: int, n: nat): seq<Cell> {
    seq(if n > GRID_SIZE then n else GRID_SIZE,
        c => if c < n then MergedCell(fine, coarse, r, c) else NO_DATA)
  }

  /** The number of values of row r the fine tier writes. */
  function FineWidth(fine: Tokens, r: int): nat {
    if 0 <= r < |fine| then |fine[r]| else 0
  }

  /**
   * The fine tier makes the merge throw: it has a value in a row past the
   * grid, or an "e" in a row the coarse tier (when found) does not have.
   */
  predicate RowThrows(fine: Tokens, coarse: Option<Tokens>, r: nat)
    requires r < |fine|
  {
    || (r >= GRID_SIZE && |fine[r]| > 0)
    || (coarse.Some? && r >= |coarse.value| && "e" in fine[r])
  }

  predicate MergeThrows(fine: Tokens, coarse: Option<Tokens>) {
    exists r :: 0 <= r < |fine| && RowThrows(fine, coarse, r)
  }

  /** What getMergedDemData computes from the two fetched tiers. */
  function MergeSpec(fine: Option<Tokens>, coarse: Option<Tokens>): (m: Merge)
    ensures m.NoData? <==> fine.None?
    ensures m.Threw? <==> fine.Some? && MergeThrows(fine.value, coarse)
    ensures m.Merged? ==> WellFormed(m.grid)
    // a row is 256 long unless the fine row is longer, and then it is as long as that
    ensures m.Merged? ==> forall r :: 0 <= r < GRID_SIZE ==>
      |m.grid[r]| == if FineWidth(fine.value, r) > GRID_SIZE then FineWidth(fine.value, r) else GRID_SIZE
    ensures m.Merged? ==> forall r :: 0 <= r < |fine.value| && r < GRID_SIZE ==> |fine.value[r]| <= |m.grid[r]|
    // a fine value other than "e" is kept
    ensures m.Merged? ==> forall r, c :: 0 <= r < |fine.value| && r < GRID_SIZE && 0 <= c < |fine.value[r]| && fine.value[r][c] != "e" ==>
      m.grid[r][c] == Token(fine.value[r][c])
    // an "e" takes the coarse value when the coarse tier was found, and stays "e" otherwise
    ensures m.Merged? ==> forall r, c :: 0 <= r < |fine.value| && r < GRID_SIZE && 0 <= c < |fine.value[r]| && fine.value[r][c] == "e" ==>
      m.grid[r][c] == if coarse.Some? then CoarseCell(coarse.value, r, c) else NO_DATA
    // a position the fine tier never visits stays "e"
    ensures m.Merged? ==> forall r, c :: 0 <= r < GRID_SIZE && FineWidth(fine.value, r) <= c < |m.grid[r]| ==>
      m.grid[r][c] == NO_DATA
  {
    if fine.None? then NoData
    else if MergeThrows(fine.value, coarse) then Threw
    else
      Merged(seq(GRID_SIZE, r => PartialRow(fine.value, coarse, r, FineWidth(fine.value, r))))
  }

  /** `output[rowIdx][colIdx] = val`: overwrite in place, or append at the end. */
  function Write(row: seq<Cell>, c: nat, v: Cell): (w: seq<Cell>)
    requires c <= |row|
    ensures |w| == if c == |row| then |row| + 1 else |row|
    ensures w[c] == v && forall k :: 0 <= k < |row| && k != c ==> w[k] == row[k]
  {
    if c == |row| then row + [v] else row[c := v]
  }

  /** The nested loops of getMergedDemData over a fetched fine tier. */
  method MergeTiers(fine: Tokens, coarse: Option<Tokens>) returns (m: Merge)
    ensures m == MergeSpec(Some(fine), coarse)
  {
    var output: Grid := seq(GRID_SIZE, _ => seq(GRID_SIZE, _ => NO_DATA));
    var rowIdx := 0;
    while rowIdx < |fine|
      invariant 0 <= rowIdx <= |fine|
      invariant |output| == GRID_SIZE
      invariant forall r :: 0 <= r < GRID_SIZE ==>
        output[r] == PartialRow(fine, coarse, r, if r < rowIdx then FineWidth(fine, r) else 0)
      invariant forall r :: 0 <= r < rowIdx ==> !RowThrows(fine, coarse, r)
    {
      var row := fine[rowIdx];
      var colIdx := 0;
      while colIdx < |row|
        invariant 0 <= colIdx <= |row|
        invariant |output| == GRID_SIZE
        invariant forall r :: 0 <= r < GRID_SIZE ==>
          output[r] == PartialRow(fine, coarse, r,
            if r < rowIdx then FineWidth(fine, r) else if r == rowIdx then colIdx else 0)
        invariant rowIdx >= GRID_SIZE ==> colIdx == 0
        invariant coarse.Some? && rowIdx >= |coarse.value| ==> "e" !in row[..colIdx]
      {
        var val := Token(row[colIdx]);
        if row[colIdx] == "e" && coarse.Some? {
          if rowIdx >= |coarse.value| {
            assert RowThrows(fine, coarse, rowIdx);
            return Threw;
          }
          val := CoarseCell(coarse.value, rowIdx, colIdx);
        }
        if rowIdx >= GRID_SIZE {
          assert RowThrows(fine, coarse, rowIdx);
          return Threw;
        }
        WriteExtends(fine, coarse, rowIdx, colIdx, output[rowIdx], val);
        output := output[rowIdx := Write(output[rowIdx], colIdx, val)];
        assert row[..colIdx + 1] == row[..colIdx] + [row[colIdx]];
        colIdx := colIdx + 1;
      }
      assert !RowThrows(fine, coarse, rowIdx) by {
        assert row[..colIdx] == row;
      }
      rowIdx := rowIdx + 1;
    }
    assert !MergeThrows(fine, coarse);
    assert output == seq(GRID_SIZE, r => PartialRow(fine, coarse, r, FineWidth(fine, r)));
    m := Merged(output);
  }

  /** Writing value c of row r extends the partial row by one position. */
  lemma WriteExtends(fine: Tokens, coarse: Option<Tokens>, r: nat, c: nat, row: seq<Cell>, v: Cell)
    requires r < |fine| && c < |fine[r]|
    requires row == PartialRow(fine, coarse, r, c)
    requires v == MergedCell(fine, coarse, r, c)
    ensures c <= |row|
    ensures Write(row, c, v) == PartialRow(fine, coarse, r, c + 1)
  {
    var w := Write(row, c, v);
    var p := PartialRow(fine, coarse, r, c + 1);
    assert |w| == |p|;
    forall k | 0 <= k < |w|
      ensures w[k] == p[k]
    {
      if k != c && k < |row| {
        assert w[k] == row[k];
      }
    }
  }

  /** How one fetch of getDemData ends: a body, a response that is not OK (404 among them), or a rejected promise. */
  datatype Fetched = Body(text: string) | NotOk | Rejected

  /** What getDemData gives: the parsed rows, null, or the rejection it passes on. */
  datatype DemData = Rows(tokens: Tokens) | Null | Rejection

  /** getDemData after the fetch: a response that is not OK gives null, a body is parsed. */
  function GetDemData(f: Fetched): (d: DemData)
    ensures d.Rejection? <==> f.Rejected?
    ensures d.Null? <==> f.NotOk?
    ensures d.Rows? ==> d.tokens == DemText.ParseDem(f.text) && |d.tokens| >= 1
  {
    match f
    case Body(text) => Rows(DemText.ParseDem(text))
    case NotOk => Null
    case Rejected => Rejection
  }

  /** A tier as the merge sees it: its rows, or null. */
  function Tier(d: DemData): Option<Tokens> {
    if d.Rows? then Some(d.tokens) else None
  }

  /**
   * `Promise.all` over the two fetches, then the merge: either rejection makes
   * getMergedDemData throw, whatever the other fetch gives.
   */
  function MergeFetched(fine: DemData, coarse: DemData): (m: Merge)
    ensures fine.Rejection? || coarse.Rejection? ==> m == Threw
    ensures !fine.Rejection? && !coarse.Rejection? ==> m == MergeSpec(Tier(fine), Tier(coarse))
    ensures m.NoData? <==> fine.Null? && !coarse.Rejection?
  {
    if fine.Rejection? || coarse.Rejection? then Threw else MergeSpec(Tier(fine), Tier(coarse))
  }

  /** What getMergedDemData yields for a tile that is not cached. */
  function MergeOf(t: Tile, dem5a: Tile -> Fetched, dem10: Tile -> Fetched): Merge {
    MergeFetched(GetDemData(dem5a(t)), GetDemData(dem10(t)))
  }

  /**
   * The module-level cache of merged grids, keyed by tile. Only successful
   * merges are stored, and a stored grid is never replaced.
   */
  class DemCache {
    var entries: map<Tile, Grid>

    ghost predicate Valid()
      reads this
    {
      forall t :: t in entries ==> WellFormed(entries[t])
    }

    constructor ()
      ensures entries == map[]
      ensures Valid()
    {
      entries := map[];
    }

    /** getMergedDemData for tile t; `dem5a` and `dem10` stand for the two fetches. */
    method GetMerged(t: Tile, dem5a: Tile -> Fetched, dem10: Tile -> Fetched) returns (m: Merge)
      requires Valid()
      modifies this
      ensures Valid()
      ensures m.Merged? ==> WellFormed(m.grid)
      ensures t in old(entries) ==> m == Merged(old(entries)[t]) && entries == old(entries)
      ensures t !in old(entries) ==>
        && m == MergeOf(t, dem5a, dem10)
        && entries == if m.Merged? then old(entries)[t := m.grid] else old(entries)
    {
      if t in entries {
        return Merged(entries[t]);
      }
      var fine := GetDemData(dem5a(t));
      var coarse := GetDemData(dem10(t));
      if fine.Rejection? || coarse.Rejection? {
        return Threw;
      }
      if fine.Null? {
        return NoData;
      }
      m := MergeTiers(fine.tokens, Tier(coarse));
      if m.Merged? {
        entries := entries[t := m.grid];
      }
    }
  }
}
