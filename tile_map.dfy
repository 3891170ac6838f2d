/** The tile map: a grid of tile ids, stored row by row, with pixel coordinates derived from
    a fixed tile size. */
module Tiles {
  import opened JavaTypes

  const TILE_GRASS: int32 := 0
  const TILE_DIRT: int32 := 1
  const TILE_WATER: int32 := 2
  const TILE_PATH: int32 := 3
  const TILE_FARMLAND: int32 := 4
  const TILE_STONE: int32 := 5

  /** `isWalkable`: everything except water and stone. Of the six tile kinds, grass, dirt,
      path and farmland are walkable; an id outside the six is walkable too. */
  predicate IsWalkable(tileId: int32)
    ensures TILE_GRASS <= tileId <= TILE_STONE ==>
      (IsWalkable(tileId) <==> tileId in {TILE_GRASS, TILE_DIRT, TILE_PATH, TILE_FARMLAND})
    ensures !(TILE_GRASS <= tileId <= TILE_STONE) ==> IsWalkable(tileId)
  {
    tileId != TILE_WATER && tileId != TILE_STONE
  }

  /** `isPlantable`: dirt and farmland, both of them walkable tile kinds. */
  predicate IsPlantable(tileId: int32)
    ensures IsPlantable(tileId) ==> IsWalkable(tileId) && TILE_GRASS <= tileId <= TILE_STONE
  {
    tileId == TILE_DIRT || tileId == TILE_FARMLAND
  }

  /** Every plantable tile can be walked on, and a tile is both exactly when it is dirt or
      farmland. */
  lemma PlantableIsWalkable(tileId: int32)
    ensures IsPlantable(tileId) ==> IsWalkable(tileId)
    ensures IsPlantable(tileId) && IsWalkable(tileId) <==> tileId in {TILE_DIRT, TILE_FARMLAND}
  {
  }

  /** The cells `fillRect(x, y, width, height, ...)` visits, before the map's own bounds cut
      them: the loop bounds `x + width` and `y + height` are computed as ints. */
  predicate InRect(col: int, row: int, x: int32, y: int32, width: int32, height: int32)
  {
    x <= col < Wrap(x as int + width) && y <= row < Wrap(y as int + height)
  }

  /** The tile the three `fillRect` calls of `generateDefaultMap` leave at `(col, row)` on a
      grass map: the farmland patch over the two dirt patches over grass. */
  function PatchTile(col: int, row: int): int32
  {
    if InRect(col, row, 3, 12, 5, 4) then TILE_FARMLAND
    else if InRect(col, row, 10, 8, 4, 2) || InRect(col, row, 5, 5, 3, 3) then TILE_DIRT
    else TILE_GRASS
  }

  /** The tile `generateDefaultMap` leaves at `(col, row)`: the two path lines through the
      middle over the patches. */
  function DefaultTile(mapWidth: int32, mapHeight: int32, col: int, row: int): int32
    requires mapWidth >= 0 && mapHeight >= 0
  {
    if row == mapHeight / 2 || col == mapWidth / 2 then TILE_PATH else PatchTile(col, row)
  }

  /** The default map is walkable everywhere, and a cell is plantable exactly when it lies
      in one of the three patches and off both paths. */
  lemma DefaultMapLayout(mapWidth: int32, mapHeight: int32, col: int, row: int)
    requires mapWidth >= 0 && mapHeight >= 0
    ensures IsWalkable(DefaultTile(mapWidth, mapHeight, col, row))
    ensures IsPlantable(DefaultTile(mapWidth, mapHeight, col, row)) <==>
      row != mapHeight / 2 && col != mapWidth / 2 &&
      ((3 <= col < 8 && 12 <= row < 16) || (10 <= col < 14 && 8 <= row < 10) || (5 <= col < 8 && 5 <= row < 8))
  {
  }

  /** A non-zero multiple of `d` is at least `d` away from 0. */
  lemma MulAway(a: int, d: int)
    requires d > 0
    ensures a > 0 ==> a * d >= d
    ensures a < 0 ==> a * d <= -d
  {
    if a > 0 {
      MulAtLeast(d, a);
    } else if a < 0 {
      MulAtLeast(d, -a);
      assert d * (-a) == -(a * d);
    }
  }

  /** Multiplying by a non-negative factor keeps the order. */
  lemma MulMonotone(a: int, b: int, c: int)
    requires a <= b && c > 0
    ensures a * c <= b * c
  {
    MulAtLeast(b - a, c);
    assert b * c - a * c == (b - a) * c;
  }

  /** One axis of the pixel/tile round trip: pixel `t * size + d` of an on-map tile `t`
      does not overflow and divides back to `t`. */
  lemma AxisRoundTrip(t: int32, size: int32, count: int32, d: int)
    requires size > 0 && 0 <= t < count && count as int * size <= MAX && 0 <= d < size
    ensures 0 <= t as int * size && t as int * size + d <= MAX
    ensures JDiv((t as int * size + d) as int32, size) == t
  {
    MulMonotone(t as int + 1, count as int, size as int);
    MulAtLeast(t as int, size as int);
    assert (t as int + 1) * size == t as int * size + size;
    DivOfMulPlus(t as int, size as int, d);
  }

  /** `(q * d + r) / d == q` for a remainder in range. */
  lemma DivOfMulPlus(q: int, d: int, r: int)
    requires d > 0 && 0 <= r < d
    ensures (q * d + r) / d == q
  {
    var n := q * d + r;
    var k := n / d;
    var m := n % d;
    assert n == k * d + m;
    assert (q - k) * d == m - r;
    MulAway(q - k, d);
  }

  /** A non-negative pixel's quotient stays below `count` exactly below `count * size`. */
  lemma QuotientBelow(p: int, size: int, count: int)
    requires p >= 0 && size > 0
    ensures p / size < count <==> p < count * size
  {
    var q := p / size;
    assert p == q * size + p % size;
    if q < count {
      MulMonotone(q + 1, count, size);
      assert (q + 1) * size == q * size + size;
    } else {
      MulMonotone(count, q, size);
    }
  }

  /** A positive magnitude has quotient 0 exactly when it is below the divisor. */
  lemma QuotientZero(a: int, size: int)
    requires a >= 0 && size > 0
    ensures a / size == 0 <==> a < size
  {
    if a < size {
      DivOfMulPlus(0, size, a);
    } else {
      assert a == (a / size) * size + a % size;
    }
  }

  /** One axis of `pixelToTile`: with a positive tile size and a pixel extent that fits in
      an int, the truncated quotient lands in `[0, count)` exactly for the pixels strictly
      between `-size` and `count * size`. */
  lemma AxisInRange(p: int32, size: int32, count: int32)
    requires size > 0 && count > 0 && count as int * size <= MAX
    ensures 0 <= JDiv(p, size) < count <==> -(size as int) < p < count as int * size
  {
    var q := JDiv(p, size) as int;
    if p >= 0 {
      assert q == p as int / size as int;
      QuotientBelow(p as int, size as int, count as int);
    } else {
      var a := Abs(p);
      assert q == -(a / size as int) && a / size as int >= 0;
      QuotientZero(a, size as int);
      assert -(size as int) < p <==> a < size as int;
    }
  }

  class TileMap {
    const tiles: array2<int32>
    const tileWidth: int32
    const tileHeight: int32
    const mapWidth: int32
    const mapHeight: int32

    /** The grid is `mapHeight` rows of `mapWidth` cells. */
    predicate Valid()
    {
      tiles.Length0 == mapHeight as int && tiles.Length1 == mapWidth as int
    }

    /** The first constructor: a `mapHeight` by `mapWidth` grid of grass. Java refuses a
        negative size with `NegativeArraySizeException`. */
    constructor(mapWidth: int32, mapHeight: int32, tileWidth: int32, tileHeight: int32)
      requires mapWidth >= 0 && mapHeight >= 0
      ensures Valid() && fresh(tiles)
      ensures this.mapWidth == mapWidth && this.mapHeight == mapHeight
      ensures this.tileWidth == tileWidth && this.tileHeight == tileHeight
      ensures forall row, col :: 0 <= row < mapHeight && 0 <= col < mapWidth ==> tiles[row, col] == TILE_GRASS
    {
      this.mapWidth := mapWidth;
      this.mapHeight := mapHeight;
      this.tileWidth := tileWidth;
      this.tileHeight := tileHeight;
      tiles := new int32[mapHeight, mapWidth];
      new;
      Fill(TILE_GRASS);
    }

    /** The second constructor: 32 by 32 pixel tiles. */
    constructor WithDefaultTileSize(mapWidth: int32, mapHeight: int32)
      requires mapWidth >= 0 && mapHeight >= 0
      ensures Valid() && fresh(tiles)
      ensures this.mapWidth == mapWidth && this.mapHeight == mapHeight
      ensures tileWidth == 32 && tileHeight == 32
      ensures forall row, col :: 0 <= row < mapHeight && 0 <= col < mapWidth ==> tiles[row, col] == TILE_GRASS
    {
      this.mapWidth := mapWidth;
      this.mapHeight := mapHeight;
      tileWidth := 32;
      tileHeight := 32;
      tiles := new int32[mapHeight, mapWidth];
      new;
      Fill(TILE_GRASS);
    }

    /** `isValidPosition`: a cell of the map, `x` being the column and `y` the row. */
    predicate IsValidPosition(x: int, y: int)
    {
      x >= 0 && x < mapWidth && y >= 0 && y < mapHeight
    }

    /** `getTile`: the stored id, or -1 off the map. */
    function GetTile(x: int32, y: int32): (r: int32)
      requires Valid()
      reads tiles
      ensures !IsValidPosition(x, y) ==> r == -1
      ensures IsValidPosition(x, y) ==> r == tiles[y, x]
    {
      if !IsValidPosition(x, y) then -1 else tiles[y, x]
    }

    /** `setTile`: writes the one cell when it is on the map. */
    method SetTile(x: int32, y: int32, tileId: int32) returns (ok: bool)
      requires Valid()
      modifies tiles
      ensures ok <==> IsValidPosition(x, y)
      ensures forall row, col :: 0 <= row < mapHeight && 0 <= col < mapWidth ==>
        tiles[row, col] == if ok && row == y && col == x then tileId else old(tiles[row, col])
    {
      if !IsValidPosition(x, y) {
        return false;
      }
      tiles[y, x] := tileId;
      return true;
    }

    /** `fill`: every cell becomes `tileId`. */
    method Fill(tileId: int32)
      requires Valid()
      modifies tiles
      ensures forall row, col :: 0 <= row < mapHeight && 0 <= col < mapWidth ==> tiles[row, col] == tileId
    {
      var y := 0;
      while y < mapHeight
        invariant 0 <= y <= mapHeight
        invariant forall row, col :: 0 <= row < y && 0 <= col < mapWidth ==> tiles[row, col] == tileId
      {
        var x := 0;
        while x < mapWidth
          invariant 0 <= x <= mapWidth
          invariant forall row, col :: 0 <= row < y && 0 <= col < mapWidth ==> tiles[row, col] == tileId
          invariant forall col :: 0 <= col < x ==> tiles[y, col] == tileId
        {
          tiles[y, x] := tileId;
          x := x + 1;
        }
        y := y + 1;
      }
    }

    /** `fillRect`: exactly the cells of the rectangle that lie on the map become `tileId`;
        negative rows and columns are skipped, and the rest of the map is untouched. */
    method FillRect(x: int32, y: int32, width: int32, height: int32, tileId: int32)
      requires Valid()
      modifies tiles
      ensures forall row, col :: 0 <= row < mapHeight && 0 <= col < mapWidth ==>
        tiles[row, col] == if InRect(col, row, x, y, width, height) then tileId else old(tiles[row, col])
    {
      var yEnd := Wrap(y as int + height);
      var xEnd := Wrap(x as int + width);
      var ty := y;
      while ty < yEnd && ty < mapHeight
        invariant y <= ty && (y <= mapHeight ==> ty <= mapHeight)
        invariant forall row, col :: 0 <= row < mapHeight && 0 <= col < mapWidth ==>
          tiles[row, col] == if row < ty && InRect(col, row, x, y, width, height) then tileId else old(tiles[row, col])
        decreases mapHeight - ty
      {
        if ty >= 0 {
          var tx := x;
          while tx < xEnd && tx < mapWidth
            invariant x <= tx && (x <= mapWidth ==> tx <= mapWidth)
            invariant forall row, col :: 0 <= row < mapHeight && 0 <= col < mapWidth ==>
              tiles[row, col] == if (row < ty || (row == ty && col < tx)) && InRect(col, row, x, y, width, height)
                then tileId else old(tiles[row, col])
            decreases mapWidth - tx
          {
            if tx >= 0 {
              tiles[ty, tx] := tileId;
            }
            tx := tx + 1;
          }
        }
        ty := ty + 1;
      }
    }

    /** `generateDefaultMap`: grass, three patches, then a horizontal and a vertical path
        through the middle. */
    method GenerateDefaultMap()
      requires Valid()
      modifies tiles
      ensures forall row, col :: 0 <= row < mapHeight && 0 <= col < mapWidth ==>
        tiles[row, col] == DefaultTile(mapWidth, mapHeight, col, row)
    {
      Fill(TILE_GRASS);
      FillRect(5, 5, 3, 3, TILE_DIRT);
      FillRect(10, 8, 4, 2, TILE_DIRT);
      FillRect(3, 12, 5, 4, TILE_FARMLAND);
      var midRow := mapHeight / 2;
      var x := 0;
      while x < mapWidth
        invariant 0 <= x <= mapWidth
        invariant forall row, col :: 0 <= row < mapHeight && 0 <= col < mapWidth ==>
          tiles[row, col] == if row == midRow && col < x then TILE_PATH else PatchTile(col, row)
      {
        var ok := SetTile(x, midRow, TILE_PATH);
        x := x + 1;
      }
      var midCol := mapWidth / 2;
      var y := 0;
      while y < mapHeight
        invariant 0 <= y <= mapHeight
        invariant forall row, col :: 0 <= row < mapHeight && 0 <= col < mapWidth ==>
          tiles[row, col] == if row == midRow || (col == midCol && row < y) then TILE_PATH else PatchTile(col, row)
      {
        var ok := SetTile(midCol, y, TILE_PATH);
        y := y + 1;
      }
    }

    /** `getPixelWidth`. */
    function GetPixelWidth(): int32
    {
      Wrap(mapWidth as int * tileWidth)
    }

    /** `getPixelHeight`. */
    function GetPixelHeight(): int32
    {
      Wrap(mapHeight as int * tileHeight)
    }

    /** `pixelToTile`: truncating division by the tile size, null off the map; a zero tile
        size throws. */
    function PixelToTile(pixelX: int32, pixelY: int32): (r: JResult<(int32, int32)>)
      ensures r.Ok? ==> IsValidPosition(r.value.0, r.value.1)
    {
      if tileWidth == 0 || tileHeight == 0 then Raised
      else
        var tileX := JDiv(pixelX, tileWidth);
        var tileY := JDiv(pixelY, tileHeight);
        if IsValidPosition(tileX, tileY) then Ok((tileX, tileY)) else Null
    }

    /** On a non-empty map with positive tile sizes and a pixel extent that fits in an int,
        `pixelToTile` answers a tile exactly for the pixels strictly between `(-tileWidth, -tileHeight)`
        and `(mapWidth * tileWidth, mapHeight * tileHeight)`, and null for all others. */
    lemma PixelToTileMeaning(pixelX: int32, pixelY: int32)
      requires tileWidth > 0 && tileHeight > 0 && mapWidth > 0 && mapHeight > 0
      requires mapWidth as int * tileWidth <= MAX && mapHeight as int * tileHeight <= MAX
      ensures PixelToTile(pixelX, pixelY).Ok? <==>
        -(tileWidth as int) < pixelX < mapWidth as int * tileWidth &&
        -(tileHeight as int) < pixelY < mapHeight as int * tileHeight
      ensures !PixelToTile(pixelX, pixelY).Raised?
    {
      AxisInRange(pixelX, tileWidth, mapWidth);
      AxisInRange(pixelY, tileHeight, mapHeight);
    }

    /** `tileToPixel`: the top-left pixel of a tile, null off the map. */
    function TileToPixel(tileX: int32, tileY: int32): (r: Option<(int32, int32)>)
      ensures r.Some? <==> IsValidPosition(tileX, tileY)
    {
      if !IsValidPosition(tileX, tileY) then None
      else Some((Wrap(tileX as int * tileWidth), Wrap(tileY as int * tileHeight)))
    }

    /** With positive tile sizes and a pixel size that fits in an int, every pixel of an
        on-map tile maps back to that tile; offsets 0 give `pixelToTile(tileToPixel(t)) == t`. */
    lemma PixelInTile(tileX: int32, tileY: int32, dx: int, dy: int)
      requires tileWidth > 0 && tileHeight > 0 && IsValidPosition(tileX, tileY)
      requires mapWidth as int * tileWidth <= MAX && mapHeight as int * tileHeight <= MAX
      requires 0 <= dx < tileWidth && 0 <= dy < tileHeight
      ensures TileToPixel(tileX, tileY).Some?
      ensures var p := TileToPixel(tileX, tileY).value;
        p.0 as int + dx <= MAX && p.1 as int + dy <= MAX &&
        PixelToTile(p.0 + dx, p.1 + dy) == Ok((tileX, tileY))
    {
      AxisRoundTrip(tileX, tileWidth, mapWidth, dx);
      AxisRoundTrip(tileY, tileHeight, mapHeight, dy);
    }

    /** Truncating division makes tile 0 straddle the origin: the pixels strictly between
        `-tileWidth` and `tileWidth` (so pixel -1 too) all map to column 0, and likewise for
        rows. */
    lemma TileZeroStraddlesOrigin(pixelX: int32, pixelY: int32)
      requires tileWidth > 0 && tileHeight > 0 && mapWidth > 0 && mapHeight > 0
      requires -tileWidth < pixelX < tileWidth && -tileHeight < pixelY < tileHeight
      ensures PixelToTile(pixelX, pixelY) == Ok((0, 0))
    {
      DivOfMulPlus(0, tileWidth as int, Abs(pixelX));
      DivOfMulPlus(0, tileHeight as int, Abs(pixelY));
    }
  }
}
