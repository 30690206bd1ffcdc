# dem-vt-proxy, modelled in Dafny

dem-vt-proxy serves the elevation data of the Geospatial Information
Authority of Japan (GSI) as Mapbox vector tiles, and it answers
cross-section queries. GSI publishes elevation ("DEM") tiles as text at two
resolutions: `dem5a` (5 m mesh) and `dem10` (10 m mesh). The proxy does three
things:

- It merges the two resolutions of one tile into a grid of 256 rows, each at
  least 256 values wide, and caches the result.
- For a vector tile (x, y, z), it climbs three levels of the quadtree to the
  DEM tile that covers it. It cuts that tile's 32 x 32 window and emits one
  square polygon per pixel with data. Each polygon is tagged with the
  elevation and with the voxel of the ZFXY grid that holds it.
- For a cross-section, it walks the pixels on a straight line with
  Bresenham's algorithm. It fetches the DEM tiles those pixels fall in, and
  it annotates every pixel with its elevation and voxel index.

The modules follow `src/functions/http.ts`:

| file | module | part of the program |
|---|---|---|
| `wrappers.dfy` | `Wrappers` | `Option` (null / undefined), `findIndex` / `indexOf` |
| `jsnumber.dfy` | `JsNumber` | ToInt32, `>>`, `<<`, `Math.floor` and `Math.round` on numbers with NaN |
| `tiles.dfy` | `TileAlgebra` | `getPositionInParent`, `getRelativePositionInAncestor`, `getParentAtZ` |
| `demtext.dfy` | `DemText` | the text parser of `getDemData` (split, trim, filter) |
| `demgrid.dfy` | `DemGrid` | `getMergedDemData`: the merge of the two tiers and the module-level cache |
| `vectortile.dfy` | `VectorTile` | zig-zag encoding, command integers, the square geometry, feature ids, and a geometry decoder following section 4.3 of the Mapbox Vector Tile Specification 2.1 |
| `tilehandler.dfy` | `TileHandler` | `addValue`, the feature loop of `tileHandler`, and the handler around it |
| `crosssection.dfy` | `CrossSection` | `allPointsOnLine` and `crossSectionHandler` |

**How the code is modelled.**

- **State.** The mutable state of the source is kept as state:
  - the cache is a class `DemCache` whose `entries` map the model updates;
  - the value table of `tileHandler` is a class `ValueTable`.
- **Loops.** They are methods with loop invariants, each proved against a
  specification function: `RelativePositionInAncestor`, `MergeTiers`,
  `BuildLayer`, `AllPointsOnLine`, `LoadTiles` and `AnnotatePoints`.
- **Integers.** They are unbounded. JavaScript's bitwise operators are
  written out: ToInt32 wrap-around, shift counts modulo 32, and `>>`
  rounding towards minus infinity.
- **Thrown exceptions.** They are explicit results: `None`, `Merge.Threw`,
  `TileResponse.Failed` and `CrossSectionResponse.CrossSectionFailed`.
  Four situations throw:
  - The quadrant lookup can fail when a coordinate lies outside the 32-bit
    range, because `>> 1` wraps it. `findIndex` then gives -1, and
    destructuring the resulting `undefined` throws a TypeError.
  - The merge indexes a row that does not exist; the conditions are below.
  - A DEM fetch, or the reading of its body, is rejected. `Promise.all`
    passes the rejection on (http.ts:83-86).
  - `getParentAtZ` is given a zoom above the tile's own.
- **Merge cases.** The merge follows the code as written:
  - The output starts as 256 rows of 256 "e" (http.ts:91).
  - Only a missing row throws. `output[rowIdx]` is missing for a fine row at
    index 256 or beyond, and writing into it throws when that row holds any
    value (http.ts:98).
  - `dem10data[rowIdx]` is missing for a row the coarse tier does not have.
    Reading it throws only for an "e" value, and only when the coarse tier
    was found (http.ts:95-96).
  - A coarse column past the end of an existing row reads as `undefined`
    (http.ts:96).
  - Writing a fine column at the end of an output row appends to it, so a
    fine row longer than 256 makes the output row longer (http.ts:98).
  - Only the "e" values of the fine tier fall back to the coarse tier. Every
    position the fine tier does not visit stays "e".
- **Numbers.** Tag values and elevations are JavaScript numbers, modelled
  as exact reals or NaN (`JsNumber.Num`). `parseFloat` is a parameter
  `parse: string -> Num`, and a cell read as `undefined` gives NaN.
- **Fetches and parameters.** The two DEM fetches are parameters of type
  `Tile -> Fetched`. A fetch gives the body of the response, a response
  that is a 404 or not ok (http.ts:54-59), or a rejection. The handlers
  take the already parsed integers of the path and the query string.
- **Ancestor climb.** `getRelativePositionInAncestor` does not check the
  step count against the tile's zoom (http.ts:131-152): for more steps than
  z it climbs to negative zooms. It fails only through the `findIndex`
  lookup, for coordinates outside the 32-bit range.

## Model

| member | source | states |
|---|---|---|
| Wrappers.FindIndex | src/functions/http.ts:123-125 | `findIndex` / `indexOf` gives -1 exactly when the value is absent. Otherwise it gives the first position that holds the value. |
| TileAlgebra.Children | src/functions/http.ts:107-122 | the four candidate children, in the order of the truth table (0,0), (1,0), (1,1), (0,1) |
| TileAlgebra.PositionInParent | src/functions/http.ts:115-130 | the parent is at zoom z - 1. The quadrant is found exactly when x and y are 32-bit. The parent is then (x div 2, y div 2) and the quadrant is (x mod 2, y mod 2), a truth-table entry whose child is the tile again. Zoom 0 is not rejected. |
| TileAlgebra.FindChild | src/functions/http.ts:116-125 | `findIndex` over the children of `(x >> 1, y >> 1)` finds the tile exactly when x and y are 32-bit, and finds the entry of quadrant (x mod 2, y mod 2) |
| TileAlgebra.ShiftRightOne | src/functions/http.ts:116 | `v >> 1` is `v div 2` for 32-bit v, and always within ±2^30 |
| TileAlgebra.Reduce | src/functions/http.ts:145-150 | the `reduce` over the collected quadrants fails exactly when one of them, from position idx on, is undefined |
| TileAlgebra.AncestorWithOffset | src/functions/http.ts:131-152 | the closed form: none for steps >= 1 unless x and y are 32-bit. Otherwise the ancestor is at zoom z - steps, the offsets are below 2^steps, and ancestor.x * 2^steps + relX == x (likewise for y). steps > z is not rejected. |
| TileAlgebra.RelativePositionInAncestor | src/functions/http.ts:131-152 | the climb loop with `unshift`, then the `reduce`, equals AncestorWithOffset for every tile and every step count |
| TileAlgebra.ReduceQuadPath | src/functions/http.ts:145-150 | folding the quadrants of the climb with weights 2^(steps-1-idx) gives x mod 2^k and y mod 2^k |
| TileAlgebra.QuadPathAt | src/functions/http.ts:135-141 | the i-th quadrant of the climb, after the `unshift`s, is bit k-1-i of x and of y |
| TileAlgebra.DescendQuadPath | src/functions/http.ts:131-152 | descending from (x div 2^k, y div 2^k) along the quadrants of the climb reaches (x, y) again |
| TileAlgebra.AncestorThenDescend | src/functions/http.ts:131-152 | for 32-bit tiles the ancestor exists, and re-descending along the collected quadrants gives back the tile |
| TileAlgebra.ChildAncestor | src/functions/http.ts:115-152 | a child's ancestor k >= 1 levels up exists, it is its parent's ancestor k - 1 levels up, and the low bit of the child's offset is its quadrant |
| TileAlgebra.SiblingsShareAncestor | src/functions/http.ts:115-152 | two different children of one tile share their ancestor and differ in their x or y offset |
| TileAlgebra.ParentAtZ | src/functions/http.ts:316-322 | throws exactly when the zoom is above the tile's. Otherwise the result is at that zoom, with 32-bit coordinates. |
| TileAlgebra.ParentAtZAgrees | src/functions/http.ts:316-322 | for 32-bit tiles and fewer than 32 levels, the direct shift gives the same ancestor as the level-by-level climb |
| JsNumber.ToInt32 | src/functions/http.ts:116 | the result is 32-bit, congruent to the input modulo 2^32, and equal to it on 32-bit inputs |
| JsNumber.ShiftRight | src/functions/http.ts:116 | the result is 32-bit, and it is `v div 2^k` for 32-bit v and k < 32 |
| JsNumber.ShiftRightSign | src/functions/http.ts:154 | `v >> 31` is -1 for negative ToInt32(v) and 0 otherwise |
| JsNumber.ShiftLeftOne | src/functions/http.ts:154 | `v << 1` is 32-bit and doubles v within ±2^30 |
| JsNumber.Floor | src/functions/http.ts:212 | `Math.floor`: NaN stays NaN, otherwise the greatest integer not above the number |
| JsNumber.Round | src/functions/http.ts:211 | `Math.round`: NaN stays NaN, otherwise an integer within half a unit, halves rounded up |
| DemText.Split | src/functions/http.ts:62-65 | `split` with a one-character separator: at least one piece, no piece holds the separator, and joining the pieces gives the text back |
| DemText.SplitJoin | src/functions/http.ts:62-65 | splitting the join of pieces free of the separator gives the pieces back |
| DemText.TrimStart | src/functions/http.ts:66 | the result is a suffix, everything dropped is white space, and it does not start with white space |
| DemText.TrimEnd | src/functions/http.ts:66 | the result is a prefix, everything dropped is white space, and it does not end with white space |
| DemText.Trim | src/functions/http.ts:66 | `trim` gives a text no longer than its input, with no white space at either end |
| DemText.TrimAround | src/functions/http.ts:66 | the trimmed text is a slice of the input, and only white space lies before and after that slice |
| DemText.TrimProperties | src/functions/http.ts:66 | `trim` leaves no white space at either end, adds no character, and leaves a trimmed text unchanged |
| DemText.Tokens | src/functions/http.ts:66-67 | trimming and dropping empty values keeps at most as many values, and every value kept is non-empty, trimmed and free of separators. Which values are kept, and in what order, is stated by TokensSingle and TokensAppend. |
| DemText.TokensSingle | src/functions/http.ts:66-67 | one piece gives its trimmed text, or nothing when that text is empty |
| DemText.TokensAppend | src/functions/http.ts:66-67 | the `map(trim)` / `filter` of a concatenation is the concatenation of the two results, so each piece is trimmed and kept or dropped on its own, in order |
| DemText.ParseLine | src/functions/http.ts:64-67 | one line gives at most as many values as it has comma-separated pieces, and every value is non-empty, trimmed and free of commas and line feeds |
| DemText.ParseDem | src/functions/http.ts:61-68 | the parser gives one row per line of the text, at least one, and row r is the parse of line r. Every value is non-empty, trimmed and free of commas and line feeds. |
| DemText.ParseRender | src/functions/http.ts:61-68 | a grid of clean values written out with commas and line feeds parses back to the same grid |
| DemGrid.GetDemData | src/functions/http.ts:52-69 | a rejected fetch passes the rejection on, a 404 or not-ok response gives null, and a body gives its parsed grid of at least one row |
| DemGrid.MergeFetched | src/functions/http.ts:80-90 | a rejection of either fetch makes `Promise.all` throw. Otherwise the merge of the two tiers, which is null exactly when the fine tier is null. |
| DemGrid.CoarseCell | src/functions/http.ts:96 | `dem10data[rowIdx][colIdx]` is the coarse value exactly when the row and column exist, and `undefined` otherwise |
| DemGrid.MergedCell | src/functions/http.ts:94-98 | a non-"e" fine value is kept. The written value is `undefined` exactly for an "e" whose position the found coarse tier lacks. It is "e" exactly where the fine tier has no value, or for an "e" with no coarse tier or a coarse "e". |
| DemGrid.MergeSpec | src/functions/http.ts:88-100 | null exactly when the fine tier is missing. A TypeError exactly when a fine row past 255 holds a value, or an "e" lies in a row the coarse tier lacks. Otherwise 256 rows of length max(256, fine row length). Non-"e" fine values are kept, and an "e" takes the coarse value only when the coarse tier was found. Positions the fine tier never visits stay "e". |
| DemGrid.Write | src/functions/http.ts:98 | `output[rowIdx][colIdx] = val` overwrites that position only, or appends at the end |
| DemGrid.MergeTiers | src/functions/http.ts:91-100 | the nested loops over the fine tier produce exactly MergeSpec |
| DemGrid.WriteExtends | src/functions/http.ts:92-99 | writing value c of row r extends the partial row by one position |
| DemGrid.DemCache.GetMerged | src/functions/http.ts:72-103 | a cached tile returns its grid and changes nothing. Otherwise the result is the merge of the two fetched tiers, stored only when it is a grid. Every grid returned has 256 rows, each at least 256 values wide. |
| VectorTile.ZigZag | src/functions/http.ts:154 | `zz` is 32-bit, and within ±2^30 it is 2v for v >= 0 and -2v-1 for v < 0 (section 4.3.2 of the Mapbox Vector Tile Specification 2.1) |
| VectorTile.ZigZagRoundTrip | src/functions/http.ts:154 | within ±2^30, `zz` is non-negative and decoding inverts it |
| VectorTile.UnZigZagRoundTrip | src/functions/http.ts:154 | every parameter integer below 2^31 is `zz` of its decoding |
| VectorTile.ZigZagInjective | src/functions/http.ts:154 | `zz` is injective within ±2^30 |
| VectorTile.ZigZagSmallValues | src/functions/http.ts:222-224 | zz(0) = 0, zz(1) = 2 and zz(-1) = 1 |
| VectorTile.CommandInteger | src/functions/http.ts:219-221 | a command integer holds the command id in its low 3 bits and the count above them (section 4.3.1) |
| VectorTile.SquareGeometry | src/functions/http.ts:218-226 | the stream has 11 integers: MoveTo with count 1, LineTo with count 3 and ClosePath with count 1 as command integers. For non-negative columns and rows it is [9, 2c, 2r, 26, 2, 0, 0, 2, 1, 0, 15]. |
| VectorTile.SquareGeometryDecodes | src/functions/http.ts:218-226 | the stream decodes to MoveTo (c, r), LineTo (c+1, r), (c+1, r+1), (c, r+1), then ClosePath |
| VectorTile.SquareRing | src/functions/http.ts:218-226 | the decoded commands trace the four corners of the pixel, starting at (c, r) |
| VectorTile.SquareArea | src/functions/http.ts:218-226 | the shoelace sum over the four corners of a pixel is 2: the square has area 1, with positive orientation |
| VectorTile.SquareIsExteriorRing | src/functions/http.ts:218-226 | the decoded ring has a positive area of 1 (twice the area is 2), a clockwise exterior ring in tile coordinates (section 4.3.4.4) |
| VectorTile.FeatureId | src/functions/http.ts:216 | the packed id is below 65536 |
| VectorTile.FeatureIdInjective | src/functions/http.ts:216 | different (row, column) pairs below 256 get different ids |
| TileHandler.TileSizeValue | src/functions/http.ts:190 | with SCALE_FACTOR = 4 a window is 256 / 8 = 32 pixels wide |
| TileHandler.ValueTable.Add | src/functions/http.ts:176-182 | `addValue` returns an index holding the value. An existing value leaves the table unchanged and gives its first index. A new value is appended at the end. The table never holds a value twice. |
| TileHandler.ValueTable.AddTags | src/functions/http.ts:227-242 | the 14 tags pair key index j with an index holding value j. The table becomes Absorb of its old entries and the seven values. |
| TileHandler.AbsorbContents | src/functions/http.ts:176-182 | repeated `addValue` keeps the old entries at the front, holds exactly the old and the new values, and adds no repeat |
| TileHandler.AbsorbFirstUse | src/functions/http.ts:176-182 | repeated `addValue` appends only values the table lacked, each once, in the order they first occur |
| TileHandler.AbsorbAppend | src/functions/http.ts:176-182 | adding two lists of values one after the other is adding their concatenation |
| TileHandler.TagsMatchGrow | src/functions/http.ts:176-182 | tags stay valid when the table grows at its end |
| TileHandler.CellAt | src/functions/http.ts:204-207 | `demData[rowIdx][colIdx]` is the grid value inside the grid and `undefined` outside it |
| TileHandler.RowCellsBounds | src/functions/http.ts:205-210 | every pixel kept from one raw row is in that row, before column n, and holds data |
| TileHandler.RowCellsOrdered | src/functions/http.ts:205-210 | the pixels kept from one raw row are in increasing column order |
| TileHandler.RowCellsComplete | src/functions/http.ts:205-210 | every pixel of the row before column n that holds data is kept |
| TileHandler.RowsUpToBounds | src/functions/http.ts:201-210 | every pixel kept from the first r raw rows is inside the window, in those rows, and holds data |
| TileHandler.RowsUpToOrdered | src/functions/http.ts:201-210 | the pixels kept from the first r raw rows are in row-major order |
| TileHandler.RowsUpToComplete | src/functions/http.ts:201-210 | every window pixel with data in the first r raw rows is kept |
| TileHandler.WindowCellsExact | src/functions/http.ts:201-210 | a feature is emitted for a window pixel exactly when its value is not "e" |
| TileHandler.ZRes | src/functions/http.ts:199 | `2^25 / 2^z` is positive: 2^(25-z) up to zoom 25, and the inverse of 2^(z-25) beyond it |
| TileHandler.ParseFloat | src/functions/http.ts:211-212 | `parseFloat` of `undefined` is NaN, and of a value it is the parameter `parse` |
| TileHandler.PixelValues | src/functions/http.ts:227-242 | a pixel gives one tag value per key |
| TileHandler.PixelValuesMeaning | src/functions/http.ts:211-242 | the seven tag values. NaN heights give NaN for ele, f_height, f_base and f. ele is the height in centimetres, rounded. f is an integer whose voxel [f_base, f_height) is zRes high and holds the height. x, y and z are the voxel's position at zoom anc.z + 8. |
| TileHandler.VoxelBounds | src/functions/http.ts:212-233 | with f = floor(h / zRes), zRes * f <= h < zRes * (f + 1), and the two differ by zRes |
| TileHandler.TableIsAbsorb | src/functions/http.ts:227-242 | the table the loop builds is the empty table after `addValue` of the tag values of every emitted pixel, in loop order |
| TileHandler.TableDistinct | src/functions/http.ts:176-182 | the value table of a layer never holds a value twice |
| TileHandler.BuildLayer | src/functions/http.ts:201-258 | the double loop gives layer version 2, name "dem", extent 32 and the seven keys. It has one feature per pixel with data, in loop order, with the pixel's id, polygon type, square geometry and matching tags. The value table holds no repeats. Every entry is used by some tag, and the entries appear in the order their values are first used. |
| TileHandler.AddRow | src/functions/http.ts:205-244 | one raw row appends the features of exactly its pixels with data |
| TileHandler.AddPixel | src/functions/http.ts:206-243 | an "e" pixel is skipped, and any other pixel appends its feature |
| TileHandler.LayerIdsDistinct | src/functions/http.ts:214-216 | feature ids are unique within the layer |
| TileHandler.LayerFeatureGeometry | src/functions/http.ts:218-226 | every feature decodes to the unit square at its window pixel, with area 1 |
| TileHandler.LayerFeatureTags | src/functions/http.ts:227-242 | every feature has 14 tags: key indices 0..6 in order at even positions, and valid value indices at odd positions |
| TileHandler.LayerValuesDistinct | src/functions/http.ts:255 | the `values` of the layer hold no repeats |
| TileHandler.LayerValuesUsed | src/functions/http.ts:227-255 | every entry of `values` is referenced by a value position of some feature's tags |
| TileHandler.LayerValuesFirstUse | src/functions/http.ts:176-255 | the entries of `values` appear in the order their values are first used by the features |
| TileHandler.HandleTile | src/functions/http.ts:184-258 | out-of-range coordinates throw with the cache unchanged. Otherwise the ancestor three levels up is merged or recalled: no fine tier gives 204, a TypeError or rejection fails, and a grid gives the layer of the window (relX, relY), whose value table has no repeats and no unused entry. The cache gains the ancestor only on a fresh successful merge. |
| CrossSection.AllPointsOnLine | src/functions/http.ts:292-314 | the loop terminates. It gives max(dx, dy) points, with (x1, y1) last and none when start and end agree. Each point is a king's move towards the end, never staying in place. The k-th point is k + 1 units from the start along the longer axis, inside the bounding box, and within half a unit of the exact line along the shorter one. At an exact half-unit tie the shorter axis has not moved yet, so the points are fixed (LineWalkUnique). |
| CrossSection.LineWalkDistinct | src/functions/http.ts:292-314 | no point repeats, and the start point is not emitted |
| CrossSection.LineWalkUnique | src/functions/http.ts:292-314 | the properties of the walk determine it: two walks between the same endpoints are equal |
| CrossSection.StepBounds | src/functions/http.ts:301-310 | the loop never moves an axis that has reached its end coordinate, and it always moves one axis |
| CrossSection.CountersStep | src/functions/http.ts:302-310 | one pass keeps the error term balanced and advances one unit along the longer axis |
| CrossSection.WalkInInt32 | src/functions/http.ts:292-314 | a walk between 32-bit endpoints stays in the 32-bit range |
| CrossSection.KeepFirst | src/functions/http.ts:338 | the `indexOf` filter keeps each value once, exactly the values present, in order of first occurrence |
| CrossSection.FirstOccurrences | src/functions/http.ts:338 | the deduplicated list has no repeats, the same values, and the order of first occurrence |
| CrossSection.RequestTile | src/functions/http.ts:335-337 | the governing tile is at zoom z - 8, and for a 32-bit point it is the 256 x 256 block of pixels that holds the point |
| CrossSection.PointTiles | src/functions/http.ts:336-337 | the `map` gives one governing tile per point, in order |
| CrossSection.RequestingTiles | src/functions/http.ts:335-339 | the governing tiles at zoom z - 8 have no repeats, are exactly the tiles of the points, and are in the order the points first need them |
| CrossSection.RequestedByWalk | src/functions/http.ts:330-339 | every requested tile holds a point of the walk between the two endpoints |
| CrossSection.Annotate | src/functions/http.ts:362-365 | a point keeps its coordinates. Elevation and voxel index are NaN exactly when the value is not a number. Otherwise the elevation is the height in centimetres rounded, and the voxel [zRes f, zRes (f + 1)) holds the height. |
| CrossSection.CubeOf | src/functions/http.ts:373-380 | the GeoJSON feature of a point is its tile at zoom z with its elevation. fh and fb are NaN exactly when f is, and otherwise fb = zRes * f and fh - fb = zRes. |
| CrossSection.CubeHoldsHeight | src/functions/http.ts:370-380 | the GeoJSON feature of a point is its tile, and its fb <= height < fh with fh - fb = zRes |
| CrossSection.GrewStep | src/functions/http.ts:72-103 | one call of getMergedDemData keeps every cached grid, adds at most its own tile, and adds it only as its merge |
| CrossSection.LoadTiles | src/functions/http.ts:341-349 | cached grids are never replaced, and the cache gains only tiles of the list, each as its merge. 'insufficient DEM data' and a failure name an uncached tile of the list whose merge is null or throws, with every earlier tile loaded. Otherwise every tile is loaded under its (x, y), with its grid as now in the cache. |
| CrossSection.AnnotatePoints | src/functions/http.ts:355-366 | a point outside the 32-bit range throws. Otherwise every point is annotated from its DEM tile, and the tile's key is always among the loaded ones. |
| CrossSection.AnnotateWalk | src/functions/http.ts:351-382 | for a walk whose tiles are loaded, a failure only when an endpoint is outside the 32-bit range. Otherwise the points of the walk, in order, each annotated from its cached tile and turned into its cube. |
| CrossSection.CrossSectionHandler | src/functions/http.ts:330-382 | the cache keeps its grids and gains only tiles the walk needs, each as its merge. 'insufficient DEM data' only when such a tile was uncached and its merge is null. A failure only when its merge throws, or an endpoint is outside the 32-bit range. Success gives the walk of AllPointsOnLine, with each point read from its DEM tile as cached and each cube built from its annotation. |

## Left out

- The HTTP fetch of `getDemData` (`node-fetch`) and the URLs it requests: modelled as the parameters `dem5a` and `dem10`, whose results are a body, a 404 or not-ok response, or a rejection.
- The concurrency of `Promise.all`: the two fetches are two independent inputs, and a rejection of either makes the merge throw. Which rejection is passed on first is not modelled, since both give the same failure.
- Lambda routing in `main`, the TileJSON document of `metaHandler`, and the `parseInt` of path and query parameters: glue code with no logic of the core. The handlers take the parsed integers. A `NaN` coordinate, which would make `allPointsOnLine` loop forever, is not modelled.
- Content negotiation and compression (`@hapi/accept`, `http-encoding`) and the protobuf serialisation `vector_tile.Tile.encode`: foreign libraries. The layer is modelled as a record.
- `tilebelt.tileToGeoJSON`: a foreign, floating-point call. A cube carries its tile in place of the polygon.
- Floating-point arithmetic: `parseFloat` is the parameter `parse`, and numbers are exact reals. Rounding of `parseFloat(val) * 100`, `parseFloat(val) / zRes` and `zRes * (fVal + 1)` is not modelled, and neither is the conversion of non-integral values to the protobuf `intValue` field.
- Integers beyond 2^53, where JavaScript numbers lose precision: coordinates are unbounded integers elsewhere in the model.
- The cache key `${z}/${x}/${y}` and the `join('|')` / `split('|')` / `parseInt` round trip of the cross-section: modelled as the tile itself, because the decimal rendering of integers is injective.
- `serverless.ts` and `src/libs/api-gateway.ts`: deployment configuration, a type alias and a response constructor, with no logic to model.
- The mutual exclusion of concurrent requests in one Lambda instance: requests are modelled one at a time against the cache.
