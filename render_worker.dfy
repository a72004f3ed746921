/** The CPU render worker of the scene-graph item: it claims tiles in index order, fills a
    row-major buffer of packed pixels for each and reports the tile and the progress. */
module RenderWorkers {
  import opened Vec3Math
  import opened Tiles
  import opened Pixels
  import opened Images

  /** The gamma-corrected colour of image column `i` at camera row `j`: the averaged samples
      of `ray_color` through the camera, square-rooted per channel. */
  type Shader = (nat, nat) -> Color

  /** `tileRendered(yStart, xStart, tileWidth, tileHeight, tileData)`. */
  datatype TileEvent = TileEvent(yStart: nat, xStart: nat, tileWidth: nat, tileHeight: nat, pixels: seq<bv32>)

  function EventBlock(e: TileEvent): Block {
    Block(e.yStart, e.xStart, e.tileWidth, e.tileHeight)
  }

  /** The word the worker computes for image pixel `(x, y)` (`y` counted top-down). */
  function Shaded(height: nat, shade: Shader, x: nat, y: nat): bv32
    requires y < height
  {
    PixelOf(shade(x, CameraRow(height, y)))
  }

  /** Image pixel `(x, y)` of the block comes before the pixel in column `m` of block row `n`
      in row-major order. */
  predicate Before(b: Block, n: nat, m: nat, x: nat, y: nat) {
    y < b.yStart + n || (y == b.yStart + n && x < b.xStart + m)
  }

  /** Every block pixel before `(n, m)` holds its shaded word in `data`. */
  ghost predicate PaintedBefore(height: nat, b: Block, shade: Shader, data: seq<bv32>, n: nat, m: nat) {
    b.yStart + b.tileHeight <= height && |data| == b.tileWidth * b.tileHeight
    && forall x: nat, y: nat {:trigger BlockPixel(b, data, x, y)} ::
      InBlock(b, b.tileHeight, x, y) && Before(b, n, m, x, y) ==>
      BlockPixel(b, data, x, y) == Shaded(height, shade, x, y)
  }

  /** Every pixel of the block holds its shaded word. */
  ghost predicate TilePainted(height: nat, b: Block, shade: Shader, data: seq<bv32>) {
    PaintedBefore(height, b, shade, data, b.tileHeight, 0)
  }

  /** Row-major slots keep the order of the pixels. */
  lemma SlotOrder(tileWidth: nat, r1: nat, c1: nat, r2: nat, c2: nat)
    requires c1 < tileWidth && c2 < tileWidth
    requires r1 < r2 || (r1 == r2 && c1 < c2)
    ensures r1 * tileWidth + c1 < r2 * tileWidth + c2
  {
    if r1 < r2 {
      MulMonotone(r1 + 1, r2, tileWidth);
      MulDistributes(r1, tileWidth);
    }
  }

  /** Writing the word of block pixel `(x, y)` into its slot extends the painted prefix by one
      pixel. */
  lemma PaintStep(height: nat, b: Block, shade: Shader, data: seq<bv32>, x: nat, y: nat)
    requires b.yStart <= y < b.yStart + b.tileHeight && b.xStart <= x < b.xStart + b.tileWidth
    requires PaintedBefore(height, b, shade, data, y - b.yStart, x - b.xStart)
    ensures (y - b.yStart) * b.tileWidth + (x - b.xStart) < |data|
    ensures PaintedBefore(height, b, shade,
      data[(y - b.yStart) * b.tileWidth + (x - b.xStart) := Shaded(height, shade, x, y)],
      y - b.yStart, x - b.xStart + 1)
  {
    var n, m := y - b.yStart, x - b.xStart;
    SlotBelow(b.tileWidth, b.tileHeight, n, m);
    var s := n * b.tileWidth + m;
    var d' := data[s := Shaded(height, shade, x, y)];
    forall x': nat, y': nat | InBlock(b, b.tileHeight, x', y') && Before(b, n, m + 1, x', y')
      ensures BlockPixel(b, d', x', y') == Shaded(height, shade, x', y')
    {
      SlotBelow(b.tileWidth, b.tileHeight, y' - b.yStart, x' - b.xStart);
      if Before(b, n, m, x', y') {
        SlotOrder(b.tileWidth, y' - b.yStart, x' - b.xStart, n, m);
        assert BlockPixel(b, data, x', y') == Shaded(height, shade, x', y');
      }
    }
  }

  /** Nothing is painted before the first pixel of the block. */
  lemma PaintStart(height: nat, b: Block, shade: Shader, data: seq<bv32>)
    requires b.yStart + b.tileHeight <= height && |data| == b.tileWidth * b.tileHeight
    ensures PaintedBefore(height, b, shade, data, 0, 0)
  {
  }

  /** A finished block row is the same painted prefix as the start of the next row. */
  lemma NextRow(height: nat, b: Block, shade: Shader, data: seq<bv32>, n: nat)
    requires PaintedBefore(height, b, shade, data, n, b.tileWidth)
    ensures PaintedBefore(height, b, shade, data, n + 1, 0)
  {
  }

  /** The pixel loops of `render` for one tile: a `tileWidth * tileHeight` buffer whose slot
      `tileRow * tileWidth + (i - xStart)` gets the packed colour of column `i` at camera
      row `height - 1 - line`. */
  method RenderTile(height: nat, b: Block, shade: Shader) returns (data: seq<bv32>)
    requires b.yStart + b.tileHeight <= height
    ensures |data| == b.tileWidth * b.tileHeight
    ensures TilePainted(height, b, shade, data)
  {
    var tileData: seq<bv32> := seq(b.tileWidth * b.tileHeight, _ => 0);
    PaintStart(height, b, shade, tileData);
    for line := b.yStart to b.yStart + b.tileHeight
      invariant PaintedBefore(height, b, shade, tileData, line - b.yStart, 0)
    {
      tileData := RenderTileRow(height, b, shade, tileData, line);
      NextRow(height, b, shade, tileData, line - b.yStart);
    }
    data := tileData;
  }

  /** The inner pixel loop of `render`: the slots of image line `line` of the block get
      their packed colours, at camera row `height - 1 - line`. */
  method RenderTileRow(height: nat, b: Block, shade: Shader, tileData: seq<bv32>, line: nat)
    returns (data: seq<bv32>)
    requires b.yStart <= line < b.yStart + b.tileHeight
    requires PaintedBefore(height, b, shade, tileData, line - b.yStart, 0)
    ensures PaintedBefore(height, b, shade, data, line - b.yStart, b.tileWidth)
  {
    data := tileData;
    var j := CameraRow(height, line);
    var tileRow := line - b.yStart;
    for i := b.xStart to b.xStart + b.tileWidth
      invariant PaintedBefore(height, b, shade, data, tileRow, i - b.xStart)
    {
      var pixel := PixelOf(shade(i, j));
      assert pixel == Shaded(height, shade, i, line);
      PaintStep(height, b, shade, data, i, line);
      data := data[tileRow * b.tileWidth + (i - b.xStart) := pixel];
    }
  }

  /** The block of tile `k`: its rectangle's corner and clipped size. */
  function TileBlock(g: Grid, k: nat): (b: Block)
    requires ValidGrid(g) && k < TotalTiles(g)
    ensures Fits(b, g.width, g.height) && b.tileWidth > 0 && b.tileHeight > 0
  {
    var r := TileRect(g, k);
    Block(r.yStart, r.xStart, r.xEnd - r.xStart, r.yEnd - r.yStart)
  }

  /** The pixels of tile `k`'s block are the pixels of its rectangle. */
  lemma TileBlockCovers(g: Grid, k: nat, x: nat, y: nat)
    requires ValidGrid(g) && k < TotalTiles(g)
    ensures InBlock(TileBlock(g, k), TileBlock(g, k).tileHeight, x, y) <==> InRect(TileRect(g, k), x, y)
  {
  }

  /** `e` is what the worker emits for tile `k`: the tile's block and its shaded pixels. */
  ghost predicate IsTileEvent(g: Grid, shade: Shader, k: nat, e: TileEvent) {
    ValidGrid(g) && k < TotalTiles(g) && EventBlock(e) == TileBlock(g, k)
    && TilePainted(g.height, EventBlock(e), shade, e.pixels)
  }

  /** `RenderWorker` of the scene-graph item. */
  class RenderWorker {
    const width: nat
    const height: nat
    const samples: int
    const depth: int
    const tileSize: nat
    var stopRequested: bool

    /** The tile size is raised to at least 8. */
    constructor (width: nat, height: nat, samples: int, depth: int, tileSize: int)
      ensures this.width == width && this.height == height
      ensures this.samples == samples && this.depth == depth
      ensures this.tileSize == MaxInt(8, tileSize) && !stopRequested
    {
      this.width := width;
      this.height := height;
      this.samples := samples;
      this.depth := depth;
      this.tileSize := MaxInt(8, tileSize);
      stopRequested := false;
    }

    /** `stop`: asks the running render to finish after the tiles in hand. */
    method Stop()
      modifies this`stopRequested
      ensures stopRequested
    {
      stopRequested := true;
    }

    function Grid(): Grid
      reads this
    {
      Tiles.Grid(width, height, tileSize)
    }

    /** `render`, with one worker thread. Tile indices are claimed from 0 upwards; before
        each claim the worker looks at the stop flag, whose value at the check before claim
        `n` is `stopped(n)`. Each claimed tile below the count is rendered and reported,
        followed by the progress `100 * done / totalTiles`. */
    method Render(shade: Shader, stopped: nat -> bool) returns (tiles: seq<TileEvent>, progress: seq<nat>)
      requires tileSize > 0
      ensures |tiles| <= TotalTiles(Grid()) && |progress| == |tiles|
      ensures forall k :: 0 <= k < |tiles| ==> IsTileEvent(Grid(), shade, k, tiles[k]) && !stopped(k)
      ensures |tiles| < TotalTiles(Grid()) ==> stopped(|tiles|)
      ensures forall k :: 0 <= k < |progress| ==> progress[k] == Progress(k + 1, TotalTiles(Grid()))
    {
      var g := Grid();
      var totalTiles := TotalTiles(g);
      var nextTile := 0;
      tiles, progress := [], [];
      while !stopped(nextTile)
        invariant nextTile == |tiles| == |progress| <= totalTiles
        invariant forall k :: 0 <= k < |tiles| ==> IsTileEvent(g, shade, k, tiles[k]) && !stopped(k)
        invariant forall k :: 0 <= k < |progress| ==> progress[k] == Progress(k + 1, totalTiles)
        decreases totalTiles - nextTile
      {
        var tileIndex := nextTile;
        if tileIndex >= totalTiles {
          break;
        }
        nextTile := nextTile + 1;
        var b := TileBlock(g, tileIndex);
        var tileData := RenderTile(height, b, shade);
        tiles := tiles + [TileEvent(b.yStart, b.xStart, b.tileWidth, b.tileHeight, tileData)];
        progress := progress + [Progress(nextTile, totalTiles)];
      }
    }
  }

  /** The progress the worker reports never decreases, stays within [0, 100] and reaches 100
      exactly at the last tile. */
  lemma RenderProgress(total: nat, progress: seq<nat>)
    requires 0 < total && |progress| <= total
    requires forall k :: 0 <= k < |progress| ==> progress[k] == Progress(k + 1, total)
    ensures forall i, j :: 0 <= i <= j < |progress| ==> progress[i] <= progress[j]
    ensures forall k :: 0 <= k < |progress| ==> progress[k] <= 100
    ensures forall k :: 0 <= k < |progress| ==> (progress[k] == 100 <==> k == total - 1)
  {
    forall i, j | 0 <= i <= j < |progress|
      ensures progress[i] <= progress[j]
    {
      ProgressMonotone(i + 1, j + 1, total);
    }
  }
}
