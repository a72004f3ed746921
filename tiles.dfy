/** The tiled renderer's integer bookkeeping: a `tileSize` grid over a `width` by
    `height` image, numbered row by row, the last row and column clipped to the image. */
module Tiles {
  /** `std::min` and `std::max` on `int`, as the tile and size arithmetic uses them; the
      `double` versions are `FMin` and `FMax` of the bounding boxes. */
  function MinInt(a: int, b: int): (m: int)
    ensures m <= a && m <= b && (m == a || m == b)
  {
    if a < b then a else b
  }

  function MaxInt(a: int, b: int): (m: int)
    ensures m >= a && m >= b && (m == a || m == b)
  {
    if a < b then b else a
  }

  /** A quotient and remainder are determined by the dividend. */
  lemma DivModUnique(n: int, d: int, q: int, r: int)
    requires d > 0 && 0 <= r < d && n == q * d + r
    ensures n / d == q && n % d == r
  {
    var q0, r0 := n / d, n % d;
    assert n == q0 * d + r0;
    assert (q - q0) * d == r0 - r;
    if q > q0 {
      MulMonotone(1, q - q0, d);
    } else if q < q0 {
      MulMonotone(q - q0, -1, d);
    }
  }

  lemma MulMonotone(a: int, b: int, d: int)
    requires a <= b && d >= 0
    ensures a * d <= b * d
  {
    assert b * d - a * d == (b - a) * d;
  }

  lemma MulDistributes(a: int, d: int)
    ensures (a + 1) * d == a * d + d
  {
  }

  /** Integer division by a positive divisor is monotone. */
  lemma DivMonotone(a: int, b: int, d: int)
    requires a <= b && d > 0
    ensures a / d <= b / d
  {
    if a / d > b / d {
      MulDistributes(b / d, d);
      MulMonotone(b / d + 1, a / d, d);
    }
  }

  /** C++ `(n + d - 1) / d` on a non-negative `n` and positive `d` (where truncating and
      Euclidean division agree): the least `q` with `q * d >= n`. */
  function CeilDiv(n: nat, d: nat): (q: nat)
    requires d > 0
    ensures q * d >= n
    ensures q == 0 || (q - 1) * d < n
  {
    var q := (n + d - 1) / d;
    assert n + d - 1 == q * d + (n + d - 1) % d;
    assert (q - 1) * d == q * d - d;
    q
  }

  /** The tile grid of a render: the image size and a positive tile size. */
  datatype Grid = Grid(width: nat, height: nat, tileSize: nat)

  predicate ValidGrid(g: Grid) {
    g.tileSize > 0
  }

  function TilesX(g: Grid): nat
    requires ValidGrid(g)
  {
    CeilDiv(g.width, g.tileSize)
  }

  function TilesY(g: Grid): nat
    requires ValidGrid(g)
  {
    CeilDiv(g.height, g.tileSize)
  }

  function TotalTiles(g: Grid): nat
    requires ValidGrid(g)
  {
    TilesX(g) * TilesY(g)
  }

  /** A half-open pixel rectangle `[xStart, xEnd) × [yStart, yEnd)`. */
  datatype Rect = Rect(xStart: int, yStart: int, xEnd: int, yEnd: int)

  predicate InRect(r: Rect, x: int, y: int) {
    r.xStart <= x < r.xEnd && r.yStart <= y < r.yEnd
  }

  /** A tile index along one axis that is below the count of tiles starts inside the image
      on that axis, at a multiple of the tile size. */
  lemma StartInside(index: nat, extent: nat, ts: nat)
    requires ts > 0 && index < CeilDiv(extent, ts)
    ensures index * ts < extent && (index * ts) % ts == 0
  {
    MulMonotone(index, CeilDiv(extent, ts) - 1, ts);
    DivModUnique(index * ts, ts, index, 0);
  }

  /** Along one axis, a coordinate inside the image lies in tile `coordinate / ts`, which is
      below the count of tiles. */
  lemma CoordinateTile(x: nat, extent: nat, ts: nat)
    requires ts > 0 && x < extent
    ensures x / ts < CeilDiv(extent, ts)
    ensures (x / ts) * ts <= x < (x / ts) * ts + ts
  {
    assert x == (x / ts) * ts + x % ts;
    if x / ts >= CeilDiv(extent, ts) {
      MulMonotone(CeilDiv(extent, ts), x / ts, ts);
    }
  }

  /** The column and row of tile `k` in the grid. */
  function TileColumn(g: Grid, k: nat): (col: nat)
    requires ValidGrid(g) && k < TotalTiles(g)
    ensures col < TilesX(g)
  {
    assert TilesX(g) > 0;
    k % TilesX(g)
  }

  function TileRow(g: Grid, k: nat): (row: nat)
    requires ValidGrid(g) && k < TotalTiles(g)
    ensures row < TilesY(g)
    ensures k == row * TilesX(g) + TileColumn(g, k)
  {
    var tx := TilesX(g);
    assert tx > 0;
    QuotientBelow(k, tx, TilesY(g));
    k / tx
  }

  lemma QuotientBelow(k: nat, tx: nat, ty: nat)
    requires tx > 0 && k < tx * ty
    ensures k / tx < ty && k == (k / tx) * tx + k % tx
  {
    if k / tx >= ty {
      MulMonotone(ty, k / tx, tx);
    }
  }

  /** The rectangle of tile `k`: column `k % tilesX`, row `k / tilesX`, ends clipped to the
      image. It is non-empty, lies inside the image and is at most a tile wide and high. */
  function TileRect(g: Grid, k: nat): (r: Rect)
    requires ValidGrid(g) && k < TotalTiles(g)
    ensures 0 <= r.xStart < r.xEnd <= g.width && 0 <= r.yStart < r.yEnd <= g.height
    ensures r.xEnd - r.xStart <= g.tileSize && r.yEnd - r.yStart <= g.tileSize
    ensures r.xStart % g.tileSize == 0 && r.yStart % g.tileSize == 0
  {
    var ts := g.tileSize;
    var col, row := TileColumn(g, k), TileRow(g, k);
    StartInside(col, g.width, ts);
    StartInside(row, g.height, ts);
    var xStart, yStart := col * ts, row * ts;
    Rect(xStart, yStart, MinInt(xStart + ts, g.width), MinInt(yStart + ts, g.height))
  }

  /** The tile holding pixel `(x, y)`. */
  function TileOf(g: Grid, x: nat, y: nat): nat
    requires ValidGrid(g)
  {
    (y / g.tileSize) * TilesX(g) + x / g.tileSize
  }

  /** Every pixel of the image lies in its tile, which is one of the grid's tiles. */
  lemma PixelInItsTile(g: Grid, x: nat, y: nat)
    requires ValidGrid(g) && x < g.width && y < g.height
    ensures TileOf(g, x, y) < TotalTiles(g)
    ensures InRect(TileRect(g, TileOf(g, x, y)), x, y)
  {
    var ts := g.tileSize;
    CoordinateTile(x, g.width, ts);
    CoordinateTile(y, g.height, ts);
    var col, row := x / ts, y / ts;
    BufferSlot(TilesX(g), TilesY(g), row, col);
    var k := TileOf(g, x, y);
    assert TileColumn(g, k) == col;
    assert k == TileRow(g, k) * TilesX(g) + col;
    DivModUnique(k, TilesX(g), row, col);
  }

  /** A pixel of tile `k` has `k` as its tile. */
  lemma TileOfPixelInTile(g: Grid, k: nat, x: nat, y: nat)
    requires ValidGrid(g) && k < TotalTiles(g) && InRect(TileRect(g, k), x, y)
    ensures TileOf(g, x, y) == k
  {
    var ts := g.tileSize;
    var col, row := TileColumn(g, k), TileRow(g, k);
    DivModUnique(x, ts, col, x - col * ts);
    DivModUnique(y, ts, row, y - row * ts);
  }

  /** Two tiles that share a pixel are the same tile. */
  lemma TilesDisjoint(g: Grid, k1: nat, k2: nat, x: nat, y: nat)
    requires ValidGrid(g) && k1 < TotalTiles(g) && k2 < TotalTiles(g)
    requires InRect(TileRect(g, k1), x, y) && InRect(TileRect(g, k2), x, y)
    ensures k1 == k2
  {
    TileOfPixelInTile(g, k1, x, y);
    TileOfPixelInTile(g, k2, x, y);
  }

  /** A pixel belongs to tile `k` exactly when `k` is its tile: each pixel is covered once. */
  lemma CoveredOnce(g: Grid, k: nat, x: nat, y: nat)
    requires ValidGrid(g) && x < g.width && y < g.height && k < TotalTiles(g)
    ensures InRect(TileRect(g, k), x, y) <==> k == TileOf(g, x, y)
  {
    PixelInItsTile(g, x, y);
    if InRect(TileRect(g, k), x, y) {
      TileOfPixelInTile(g, k, x, y);
    }
  }

  /** The slot of tile pixel `(row, col)` in a `width`-wide row-major tile buffer lies in
      the buffer, and the slot gives the row and column back, so no two pixels share one. */
  lemma BufferSlot(width: nat, height: nat, row: nat, col: nat)
    requires row < height && col < width
    ensures row * width + col < width * height
    ensures (row * width + col) / width == row && (row * width + col) % width == col
  {
    SlotBelow(width, height, row, col);
    DivModUnique(row * width + col, width, row, col);
  }

  /** The slot of tile pixel `(row, col)` lies in the buffer. */
  lemma SlotBelow(width: nat, height: nat, row: nat, col: nat)
    requires row < height && col < width
    ensures row * width + col < width * height
  {
    MulMonotone(row + 1, height, width);
    MulDistributes(row, width);
  }

  /** The camera row of image line `line`: the image is stored top-down, the camera counts
      rows bottom-up. */
  function CameraRow(height: nat, line: nat): (j: nat)
    requires line < height
    ensures j < height && line == height - 1 - j
  {
    height - 1 - line
  }

  /** `static_cast<int>((100.0 * done) / totalTiles)` on the exact quotient. */
  function Progress(done: nat, total: nat): (p: nat)
    requires 0 < total && done <= total
    ensures p <= 100
    ensures p == 100 <==> done == total
  {
    ProgressBounds(done, total);
    (100 * done) / total
  }

  lemma ProgressBounds(done: nat, total: nat)
    requires 0 < total && done <= total
    ensures 0 <= (100 * done) / total <= 100
    ensures (100 * done) / total == 100 <==> done == total
  {
    var p := (100 * done) / total;
    DivMonotone(100 * done, 100 * total, total);
    DivModUnique(100 * total, total, 100, 0);
    if done < total && p >= 100 {
      MulMonotone(100, p, total);
    }
  }

  /** More finished tiles never lower the reported progress. */
  lemma ProgressMonotone(d1: nat, d2: nat, total: nat)
    requires 0 < total && d1 <= d2 <= total
    ensures Progress(d1, total) <= Progress(d2, total)
  {
    DivMonotone(100 * d1, 100 * d2, total);
  }
}
