/** Satellite tiles: which ones the consumer needs for a state, and which ones the
    producer's pyramid loops over. */
module TilePyramid {
  import opened Outcomes
  import opened ActionCode
  import opened CellGeometry

  const EPSILON := 0.00000001
  const BASE_TILE := 20.0
  /** The zoom of each step. */
  const LEVELS: seq<int> := [-8, -6, -4, -2]

  function Pow2(n: nat): (r: real)
    ensures r > 0.0
  {
    if n == 0 then 1.0 else 2.0 * Pow2(n - 1)
  }

  /** `2.0 ** (-zoom)` */
  function Scaling(zoom: int): (r: real)
    ensures r > 0.0
  {
    if zoom <= 0 then Pow2(-zoom) else 1.0 / Pow2(zoom)
  }

  datatype Layout = Layout(originEast: real, originNorth: real, baseWidth: real, baseHeight: real)

  datatype TileRange = TileRange(minX: int, maxX: int, minY: int, maxY: int)

  function TileIndex(offset: real, tile: real): int
    requires tile > 0.0
  {
    (offset / tile).Floor
  }

  ghost predicate Positive(layout: Layout) {
    layout.baseWidth > 0.0 && layout.baseHeight > 0.0
  }

  lemma ScaledPositive(base: real, zoom: int)
    requires base > 0.0
    ensures base * Scaling(zoom) > 0.0
  {
  }

  function TileWidth(layout: Layout, zoom: int): (r: real)
    requires Positive(layout)
    ensures r > 0.0
  {
    ScaledPositive(layout.baseWidth, zoom);
    layout.baseWidth * Scaling(zoom)
  }

  function TileHeight(layout: Layout, zoom: int): (r: real)
    requires Positive(layout)
    ensures r > 0.0
  {
    ScaledPositive(layout.baseHeight, zoom);
    layout.baseHeight * Scaling(zoom)
  }

  function RangeOf(layout: Layout, zoom: int, bounds: Rect): TileRange
    requires Positive(layout)
  {
    var tileWidth, tileHeight := TileWidth(layout, zoom), TileHeight(layout, zoom);
    TileRange(
      TileIndex(bounds.west - layout.originEast, tileWidth),
      TileIndex(bounds.east - EPSILON - layout.originEast, tileWidth),
      TileIndex(bounds.south - layout.originNorth, tileHeight),
      TileIndex(bounds.north - EPSILON - layout.originNorth, tileHeight))
  }

  /** `_tile_range`: at most a 4x4 mosaic, and at least one tile. */
  function RequiredRange(layout: Layout, zoom: int, bounds: Rect): Result<TileRange>
    requires Positive(layout)
  {
    var r := RangeOf(layout, zoom, bounds);
    var columns, rows := r.maxX - r.minX + 1, r.maxY - r.minY + 1;
    if columns < 1 || rows < 1 || columns > 4 || rows > 4 then Failure("invalid satellite mosaic") else Success(r)
  }

  // ---- Tile lists ----

  datatype Tile = Tile(x: int, y: int)

  /** The tiles of one row, west to east. */
  function RowTiles(minX: int, maxX: int, y: int): seq<Tile>
    decreases maxX - minX + 1
  {
    if minX > maxX then [] else [Tile(minX, y)] + RowTiles(minX + 1, maxX, y)
  }

  /** `required_tile_paths`: rows from north to south. */
  function TilesOf(r: TileRange): seq<Tile>
    decreases r.maxY - r.minY + 1
  {
    if r.minY > r.maxY then [] else RowTiles(r.minX, r.maxX, r.maxY) + TilesOf(r.(maxY := r.maxY - 1))
  }

  lemma {:induction false} RowTilesMembers(minX: int, maxX: int, y: int, t: Tile)
    ensures t in RowTiles(minX, maxX, y) <==> minX <= t.x <= maxX && t.y == y
    decreases maxX - minX + 1
  {
    if minX <= maxX { RowTilesMembers(minX + 1, maxX, y, t); }
  }

  /** The list holds exactly the tiles of the range. */
  lemma {:induction false} TilesMembers(r: TileRange, t: Tile)
    ensures t in TilesOf(r) <==> r.minX <= t.x <= r.maxX && r.minY <= t.y <= r.maxY
    decreases r.maxY - r.minY + 1
  {
    if r.minY <= r.maxY {
      RowTilesMembers(r.minX, r.maxX, r.maxY, t);
      TilesMembers(r.(maxY := r.maxY - 1), t);
    }
  }

  /** An index against the tile that holds an offset. */
  lemma IndexAgainst(offset: real, tile: real, x: int)
    requires tile > 0.0
    ensures x <= TileIndex(offset, tile) <==> x as real * tile <= offset
    ensures TileIndex(offset, tile) <= x <==> offset < x as real * tile + tile
  {
    var q, r := offset / tile, x as real;
    assert q * tile == offset;
    QuotientOrder(r, q, tile, r * tile, offset);
    assert (r + 1.0) * tile == r * tile + tile;
    QuotientOrder(q, r + 1.0, tile, offset, r * tile + tile);
  }

  /** A tile and a stretch of one axis, short of its far epsilon, have a point in common. */
  ghost predicate Touches(x: int, tile: real, low: real, high: real) {
    x as real * tile <= high - EPSILON && low < x as real * tile + tile
  }

  /** The required tiles are exactly those the rectangle touches. */
  lemma RequiredTilesAreTouched(layout: Layout, zoom: int, bounds: Rect, t: Tile)
    requires Positive(layout) && RequiredRange(layout, zoom, bounds).Success?
    ensures t in TilesOf(RequiredRange(layout, zoom, bounds).value) <==>
      && Touches(t.x, TileWidth(layout, zoom), bounds.west - layout.originEast, bounds.east - layout.originEast)
      && Touches(t.y, TileHeight(layout, zoom), bounds.south - layout.originNorth, bounds.north - layout.originNorth)
  {
    hide TileWidth, TileHeight, TilesOf, Touches, TileIndex;
    TilesMembers(RequiredRange(layout, zoom, bounds).value, t);
    AxisTouched(t.x, TileWidth(layout, zoom), bounds.west - layout.originEast, bounds.east - layout.originEast);
    AxisTouched(t.y, TileHeight(layout, zoom), bounds.south - layout.originNorth, bounds.north - layout.originNorth);
    assert bounds.east - EPSILON - layout.originEast == (bounds.east - layout.originEast) - EPSILON;
    assert bounds.north - EPSILON - layout.originNorth == (bounds.north - layout.originNorth) - EPSILON;
  }

  lemma AxisTouched(x: int, tile: real, low: real, high: real)
    requires tile > 0.0
    ensures Touches(x, tile, low, high) <==> TileIndex(low, tile) <= x <= TileIndex(high - EPSILON, tile)
  {
    hide TileIndex;
    IndexAgainst(low, tile, x);
    IndexAgainst(high - EPSILON, tile, x);
  }

  // ---- The producer ----

  /** `math.floor((side - 1e-8) / tile_meters)` */
  function PyramidLimit(side: real, zoom: int): int {
    ScaledPositive(BASE_TILE, zoom);
    TileIndex(side - EPSILON, BASE_TILE * Scaling(zoom))
  }

  /** The index loops of `build_pyramid` at one zoom: every tile they visit, south to north. */
  method PyramidTiles(region: Rect, zoom: int) returns (tiles: seq<Tile>)
    ensures forall t :: t in tiles <==>
      0 <= t.x <= PyramidLimit(region.east - region.west, zoom)
        && 0 <= t.y <= PyramidLimit(region.north - region.south, zoom)
  {
    var maxX := PyramidLimit(region.east - region.west, zoom);
    var maxY := PyramidLimit(region.north - region.south, zoom);
    tiles := [];
    var y := 0;
    while y <= maxY
      invariant forall t :: t in tiles <==> 0 <= t.x <= maxX && 0 <= t.y < y && t.y <= maxY
      decreases maxY - y + 1
    {
      var x := 0;
      while x <= maxX
        invariant 0 <= x
        invariant forall t :: t in tiles <==>
          || (0 <= t.x <= maxX && 0 <= t.y < y && t.y <= maxY)
          || (0 <= t.x < x && t.x <= maxX && t.y == y)
        decreases maxX - x + 1
      {
        tiles := tiles + [Tile(x, y)];
        x := x + 1;
      }
      y := y + 1;
    }
  }

  ghost predicate Within(inner: Rect, region: Rect) {
    region.west <= inner.west && inner.east <= region.east && region.south <= inner.south && inner.north <= region.north
  }

  function PyramidLayout(region: Rect): Layout {
    Layout(region.west, region.south, BASE_TILE, BASE_TILE)
  }

  lemma IndexMonotone(a: real, b: real, tile: real)
    requires tile > 0.0 && a <= b
    ensures TileIndex(a, tile) <= TileIndex(b, tile)
  {
    var p, q := a / tile, b / tile;
    assert p * tile == a && q * tile == b;
    QuotientOrder(p, q, tile, a, b);
  }

  lemma IndexNonNegative(a: real, tile: real)
    requires tile > 0.0 && a >= 0.0
    ensures TileIndex(a, tile) >= 0
  {
    IndexMonotone(0.0, a, tile);
  }

  /** Every tile a rectangle inside the region needs is one the pyramid loops visit. */
  lemma RequiredTilesAreBuilt(region: Rect, zoom: int, bounds: Rect, t: Tile)
    requires Within(bounds, region)
    requires RequiredRange(PyramidLayout(region), zoom, bounds).Success?
    requires t in TilesOf(RequiredRange(PyramidLayout(region), zoom, bounds).value)
    ensures 0 <= t.x <= PyramidLimit(region.east - region.west, zoom)
    ensures 0 <= t.y <= PyramidLimit(region.north - region.south, zoom)
  {
    var r := RequiredRange(PyramidLayout(region), zoom, bounds).value;
    TilesMembers(r, t);
    ScaledPositive(BASE_TILE, zoom);
    var tile := BASE_TILE * Scaling(zoom);
    IndexNonNegative(bounds.west - region.west, tile);
    IndexNonNegative(bounds.south - region.south, tile);
    IndexMonotone(bounds.east - EPSILON - region.west, region.east - region.west - EPSILON, tile);
    IndexMonotone(bounds.north - EPSILON - region.south, region.north - region.south - EPSILON, tile);
  }

  // ---- States of the region ----

  lemma CellWithinAxis(length: real, n: nat, c: nat)
    requires length > 0.0 && c < Pow4(n)
    ensures var s := Side(length, n);
      0.0 <= c as real * s && c as real * s + s <= length
  {
    var s, p := Side(length, n), Pow4(n) as real;
    SideTimesCells(length, n);
    CellsIntoTimesSide(length, length, n);
    hide Side;
    var rc := c as real;
    assert rc + 1.0 <= p;
    assert (rc + 1.0) * s == rc * s + s;
    QuotientOrder(0.0, rc, s, 0.0, rc * s);
    QuotientOrder(rc + 1.0, p, s, rc * s + s, length);
  }

  lemma CellsLieInRegion(region: Rect, n: nat, index: Index)
    requires Region(region) && index.row < Pow4(n) && index.column < Pow4(n)
    ensures Within(Cell(region, n, index), region)
  {
    hide Side, Pow4;
    var w, h := Side(region.east - region.west, n), Side(region.north - region.south, n);
    var x, y := index.column as real * w, index.row as real * h;
    CellWithinAxis(region.east - region.west, n, index.column);
    CellWithinAxis(region.north - region.south, n, index.row);
    PlacedCell(region, n, index, x, y, w, h);
  }

  lemma PlacedCell(region: Rect, n: nat, index: Index, x: real, y: real, w: real, h: real)
    requires w == Side(region.east - region.west, n) && h == Side(region.north - region.south, n)
    requires x == index.column as real * w && y == index.row as real * h
    ensures Cell(region, n, index) == Rect(region.west + x, region.west + x + w, region.north - y - h, region.north - y)
  {
  }

  /** For every state of every step, each required tile is built. */
  lemma StateTilesAreBuilt(region: Rect, step: nat, actions: Actions, t: Tile)
    requires Region(region) && step < 4 && Valid(actions) && |actions| == step
    requires RequiredRange(PyramidLayout(region), LEVELS[step], BoundsAlong(region, actions)).Success?
    requires t in TilesOf(RequiredRange(PyramidLayout(region), LEVELS[step], BoundsAlong(region, actions)).value)
    ensures 0 <= t.x <= PyramidLimit(region.east - region.west, LEVELS[step])
    ensures 0 <= t.y <= PyramidLimit(region.north - region.south, LEVELS[step])
  {
    BoundsAreCell(region, actions);
    CodeInvertsGridIndex(actions);
    CellsLieInRegion(region, step, GridIndex(actions));
    RequiredTilesAreBuilt(region, LEVELS[step], BoundsAlong(region, actions), t);
  }

  // ---- The mosaic limit ----

  lemma LevelScaling(step: nat)
    requires step < 4
    ensures BASE_TILE * Scaling(LEVELS[step]) * Pow4(step) as real == 5120.0
  {
    assert Pow2(2) == 4.0 && Pow2(4) == 4.0 * Pow2(2) && Pow2(6) == 4.0 * Pow2(4) && Pow2(8) == 4.0 * Pow2(6);
    assert Pow4(1) == 4 && Pow4(2) == 16 && Pow4(3) == 64;
  }

  /** A stretch at least epsilon and at most three tiles long touches one to four tiles. */
  /** The tiles a rectangle needs at a step, in metres from the region's corner: square tiles of
      5120, 1280, 320 and 80 metres that the rectangle, short of 1e-8 at its far edges, touches. */
  lemma RequiredTilesInMetres(region: Rect, step: nat, bounds: Rect, t: Tile)
    requires step < 4 && RequiredRange(PyramidLayout(region), LEVELS[step], bounds).Success?
    ensures var side := [5120.0, 1280.0, 320.0, 80.0][step];
      var west, south := region.west + t.x as real * side, region.south + t.y as real * side;
      t in TilesOf(RequiredRange(PyramidLayout(region), LEVELS[step], bounds).value) <==>
        && west <= bounds.east - 0.00000001 && bounds.west < west + side
        && south <= bounds.north - 0.00000001 && bounds.south < south + side
  {
    hide Scaling, TilesOf, RequiredRange;
    RequiredTilesAreTouched(PyramidLayout(region), LEVELS[step], bounds, t);
    SideInMetres(step);
  }

  lemma SideInMetres(step: nat)
    requires step < 4
    ensures BASE_TILE * Scaling(LEVELS[step]) == [5120.0, 1280.0, 320.0, 80.0][step]
  {
    LevelScaling(step);
    var tile := BASE_TILE * Scaling(LEVELS[step]);
    hide Scaling;
    assert Pow4(1) == 4 && Pow4(2) == 16 && Pow4(3) == 4 * Pow4(2);
  }

  lemma StretchTouchesFewTiles(start: real, length: real, tile: real)
    requires tile > 0.0 && EPSILON <= length <= 3.0 * tile
    ensures 1 <= TileIndex(start + length - EPSILON, tile) - TileIndex(start, tile) + 1 <= 4
  {
    IndexMonotone(start, start + length - EPSILON, tile);
    var p, q := start / tile, (start + length - EPSILON) / tile;
    assert p * tile == start && q * tile == start + length - EPSILON;
    assert (p + 3.0) * tile == start + 3.0 * tile;
    QuotientOrder(q, p + 3.0, tile, start + length - EPSILON, start + 3.0 * tile);
  }

  lemma StateSideFits(length: real, step: nat)
    requires step < 4 && 64.0 * EPSILON <= length <= 3.0 * 5120.0
    ensures EPSILON <= Side(length, step) <= 3.0 * (BASE_TILE * Scaling(LEVELS[step]))
  {
    LevelScaling(step);
    SideTimesCells(length, step);
    assert Pow4(1) == 4 && Pow4(2) == 16 && Pow4(3) == 64;
    var s, tile, p := Side(length, step), BASE_TILE * Scaling(LEVELS[step]), Pow4(step) as real;
    hide Side;
    assert p * s == length && p * (3.0 * tile) == 15360.0;
    QuotientOrder(s, 3.0 * tile, p, length, 15360.0);
    QuotientOrder(EPSILON, s, p, EPSILON * p, length);
  }

  /** For a square region of side at most three top-level tiles, the mosaic of no state of
      any step is ever refused. */
  lemma MosaicLimitNeverExceeded(region: Rect, step: nat, index: Index)
    requires Region(region) && step < 4 && index.row < Pow4(step) && index.column < Pow4(step)
    requires 64.0 * EPSILON <= region.east - region.west <= 3.0 * 5120.0
    requires 64.0 * EPSILON <= region.north - region.south <= 3.0 * 5120.0
    ensures RequiredRange(PyramidLayout(region), LEVELS[step], Cell(region, step, index)).Success?
  {
    var width, height := region.east - region.west, region.north - region.south;
    StateSideFits(width, step);
    StateSideFits(height, step);
    ScaledPositive(BASE_TILE, LEVELS[step]);
    hide Scaling, Side;
    var cell := Cell(region, step, index);
    var tile := BASE_TILE * Scaling(LEVELS[step]);
    StretchTouchesFewTiles(cell.west - region.west, Side(width, step), tile);
    StretchTouchesFewTiles(cell.south - region.south, Side(height, step), tile);
  }

  /** A cell thinner than epsilon at the region's origin needs a tile before the first. */
  lemma ThinCellIsRefused(side: real, tile: real)
    requires 0.0 < side < EPSILON && tile > 0.0
    ensures TileIndex(side - EPSILON, tile) < 0 == TileIndex(0.0, tile)
  {
    var q := (side - EPSILON) / tile;
    assert q * tile == side - EPSILON;
    assert q >= 0.0 ==> q * tile >= 0.0;
    assert 0.0 / tile == 0.0;
  }

  /** The bottom-left cell of the last step touches the region's origin. */
  lemma OriginCell(region: Rect)
    requires Region(region)
    ensures Pow4(3) == 64
    ensures var cell := Cell(region, 3, Index(63, 0));
      && cell.west == region.west && cell.south == region.south
      && cell.east - cell.west == Side(region.east - region.west, 3)
      && cell.north - cell.south == Side(region.north - region.south, 3)
      && 64.0 * Side(region.east - region.west, 3) == region.east - region.west
      && 64.0 * Side(region.north - region.south, 3) == region.north - region.south
  {
    assert Pow4(1) == 4 && Pow4(2) == 16 && Pow4(3) == 64;
    SideTimesCells(region.east - region.west, 3);
    SideTimesCells(region.north - region.south, 3);
  }

  ghost predicate EveryMosaicFits(region: Rect) {
    forall step: nat, index: Index | step < 4 && index.row < Pow4(step) && index.column < Pow4(step) ::
      RequiredRange(PyramidLayout(region), LEVELS[step], Cell(region, step, index)).Success?
  }

  /** Within three top-level tiles a side, every state's mosaic is accepted if and only if a
      cell of the last step is at least epsilon on both axes. */
  lemma MosaicsFitExactly(region: Rect)
    requires Region(region)
    requires region.east - region.west <= 3.0 * 5120.0 && region.north - region.south <= 3.0 * 5120.0
    ensures EveryMosaicFits(region) <==>
      region.east - region.west >= 64.0 * EPSILON && region.north - region.south >= 64.0 * EPSILON
  {
    if region.east - region.west >= 64.0 * EPSILON && region.north - region.south >= 64.0 * EPSILON {
      forall step: nat, index: Index | step < 4 && index.row < Pow4(step) && index.column < Pow4(step)
        ensures RequiredRange(PyramidLayout(region), LEVELS[step], Cell(region, step, index)).Success?
      {
        MosaicLimitNeverExceeded(region, step, index);
      }
    } else {
      SmallRegionsAreRefused(region);
      OriginCell(region);
    }
  }

  lemma SmallRegionsAreRefused(region: Rect)
    requires Region(region)
    requires region.east - region.west < 64.0 * EPSILON || region.north - region.south < 64.0 * EPSILON
    ensures RequiredRange(PyramidLayout(region), LEVELS[3], Cell(region, 3, Index(63, 0))).Failure?
  {
    OriginCell(region);
    ScaledPositive(BASE_TILE, LEVELS[3]);
    hide Scaling, Side, Cell, Pow4;
    var cell, tile := Cell(region, 3, Index(63, 0)), BASE_TILE * Scaling(LEVELS[3]);
    assert cell.east - EPSILON - region.west == (cell.east - cell.west) - EPSILON;
    assert cell.north - EPSILON - region.south == (cell.north - cell.south) - EPSILON;
    assert cell.east > cell.west && cell.north > cell.south;
    if region.east - region.west < 64.0 * EPSILON {
      ThinCellIsRefused(cell.east - cell.west, tile);
    } else {
      ThinCellIsRefused(cell.north - cell.south, tile);
    }
  }
}
