/** The legacy `QOpenGLWidget` renderer: its worker reports every scanline of a 16-pixel tile
    separately, and the widget copies each scanline into its image and throttles repaints. */
module LegacyWidgets {
  import opened Tiles
  import opened Pixels
  import opened Images
  import opened RenderWorkers

  /** The fixed tile size of the legacy worker. */
  const LegacyTileSize: nat := 16

  /** `tileRendered(line, xStart, tileRowData)`. */
  datatype RowEvent = RowEvent(line: nat, xStart: nat, pixels: seq<bv32>)

  /** The shaded words of `count` pixels of image line `line` from column `xStart` on. */
  function RowPixels(height: nat, shade: Shader, line: nat, xStart: nat, count: nat): (row: seq<bv32>)
    requires line < height
    ensures |row| == count
  {
    seq(count, c requires 0 <= c => Shaded(height, shade, xStart + c, line))
  }

  /** The pixel loop for one scanline of a tile: a buffer of `xEnd - xStart` words, slot
      `i - xStart` holding the packed colour of column `i` at camera row `height - 1 - line`. */
  method RenderRow(height: nat, line: nat, xStart: nat, count: nat, shade: Shader) returns (row: seq<bv32>)
    requires line < height
    ensures row == RowPixels(height, shade, line, xStart, count)
  {
    var tileRowData: seq<bv32> := seq(count, _ => 0);
    var j := CameraRow(height, line);
    for i := xStart to xStart + count
      invariant |tileRowData| == count
      invariant forall c :: 0 <= c < i - xStart ==> tileRowData[c] == Shaded(height, shade, xStart + c, line)
    {
      var pixel := PixelOf(shade(i, j));
      assert pixel == Shaded(height, shade, i, line);
      tileRowData := tileRowData[i - xStart := pixel];
    }
    row := tileRowData;
  }

  /** The first `n` scanline events of the block, top to bottom: scanline `r` is image line
      `yStart + r` from column `xStart`, `tileWidth` shaded words long. */
  function BlockRowEvents(height: nat, shade: Shader, b: Block, n: nat): (rows: seq<RowEvent>)
    requires b.yStart + n <= height
    ensures |rows| == n
  {
    if n == 0 then []
    else
      var line := b.yStart + n - 1;
      BlockRowEvents(height, shade, b, n - 1) + [RowEvent(line, b.xStart, RowPixels(height, shade, line, b.xStart, b.tileWidth))]
  }

  /** The scanline loop of one tile: each line from `yStart` to `yStart + tileHeight` is shaded
      and reported in turn. */
  method RenderTileRows(height: nat, b: Block, shade: Shader) returns (tileRows: seq<RowEvent>)
    requires b.yStart + b.tileHeight <= height
    ensures tileRows == BlockRowEvents(height, shade, b, b.tileHeight)
  {
    tileRows := [];
    for line := b.yStart to b.yStart + b.tileHeight
      invariant tileRows == BlockRowEvents(height, shade, b, line - b.yStart)
    {
      var tileRowData := RenderRow(height, line, b.xStart, b.tileWidth, shade);
      tileRows := tileRows + [RowEvent(line, b.xStart, tileRowData)];
    }
  }

  /** The blocks of the first `t` tiles, in index order. */
  function TileBlocks(g: Grid, t: nat): (blocks: seq<Block>)
    requires ValidGrid(g) && t <= TotalTiles(g)
    ensures |blocks| == t
  {
    seq(t, k requires 0 <= k < t => TileBlock(g, k))
  }

  /** Every block lies in rows `[0, height)`. */
  predicate BlocksInRows(height: nat, blocks: seq<Block>) {
    forall i :: 0 <= i < |blocks| ==> blocks[i].yStart + blocks[i].tileHeight <= height
  }

  /** The scanline events of the blocks, block after block. */
  function RowsOfBlocks(height: nat, shade: Shader, blocks: seq<Block>): seq<RowEvent>
    requires BlocksInRows(height, blocks)
  {
    if blocks == [] then []
    else
      var last := blocks[|blocks| - 1];
      RowsOfBlocks(height, shade, blocks[..|blocks| - 1]) + BlockRowEvents(height, shade, last, last.tileHeight)
  }

  /** The scanline events of the first `t` tiles, in order. */
  function RowEventsUpTo(g: Grid, shade: Shader, t: nat): seq<RowEvent>
    requires ValidGrid(g) && t <= TotalTiles(g)
  {
    RowsOfBlocks(g.height, shade, TileBlocks(g, t))
  }

  /** Pixel `(x, y)` lies in one of the blocks. */
  predicate Covered(blocks: seq<Block>, x: nat, y: nat) {
    |blocks| > 0 && (Covered(blocks[..|blocks| - 1], x, y) || InBlock(blocks[|blocks| - 1], blocks[|blocks| - 1].tileHeight, x, y))
  }

  /** The legacy `RenderWorker`. */
  class LegacyRenderWorker {
    const width: int
    const height: int
    const samples: int
    const depth: int
    var stopRequested: bool

    constructor (width: int, height: int, samples: int, depth: int)
      ensures this.width == width && this.height == height
      ensures this.samples == samples && this.depth == depth && !stopRequested
    {
      this.width := width;
      this.height := height;
      this.samples := samples;
      this.depth := depth;
      stopRequested := false;
    }

    /** `stop`. */
    method Stop()
      modifies this`stopRequested
      ensures stopRequested
    {
      stopRequested := true;
    }

    /** `render` with one worker thread, for a non-negative image size: tiles of 16 are claimed
        from 0 upwards while `stopped(n)`, the stop flag before claim `n`, is clear. Each tile
        sends its scanlines top to bottom and then the progress `100 * done / totalTiles`. */
    method Render(shade: Shader, stopped: nat -> bool) returns (rows: seq<RowEvent>, progress: seq<nat>, tilesDone: nat)
      requires width >= 0 && height >= 0
      ensures var g := Grid(width, height, LegacyTileSize);
        tilesDone <= TotalTiles(g) && |progress| == tilesDone
        && rows == RowEventsUpTo(g, shade, tilesDone)
        && (forall k :: 0 <= k < tilesDone ==> !stopped(k))
        && (tilesDone < TotalTiles(g) ==> stopped(tilesDone))
        && (forall k :: 0 <= k < |progress| ==> progress[k] == Progress(k + 1, TotalTiles(g)))
    {
      var g := Grid(width, height, LegacyTileSize);
      var totalTiles := TotalTiles(g);
      var nextTile := 0;
      rows, progress := [], [];
      while !stopped(nextTile)
        invariant nextTile == |progress| <= totalTiles
        invariant rows == RowEventsUpTo(g, shade, nextTile)
        invariant forall k :: 0 <= k < nextTile ==> !stopped(k)
        invariant forall k :: 0 <= k < |progress| ==> progress[k] == Progress(k + 1, totalTiles)
        decreases totalTiles - nextTile
      {
        var tileIndex := nextTile;
        if tileIndex >= totalTiles {
          break;
        }
        nextTile := nextTile + 1;
        var b := TileBlock(g, tileIndex);
        var tileRows := RenderTileRows(height, b, shade);
        assert TileBlocks(g, nextTile)[..tileIndex] == TileBlocks(g, tileIndex);
        rows := rows + tileRows;
        progress := progress + [Progress(nextTile, totalTiles)];
      }
      tilesDone := nextTile;
    }
  }

  /** The checks of `updateTile`: the line and start column lie in the image, the data is not
      empty and fits in the rest of the line. */
  predicate RowAccepted(width: nat, height: nat, line: int, xStart: int, size: nat) {
    0 <= line < height && 0 <= xStart < width && size > 0 && xStart + size <= width
  }

  /** The image after `updateTile(line, xStart, pixels)`. */
  function ApplyRow(img: seq<bv32>, width: nat, height: nat, line: int, xStart: int, pixels: seq<bv32>): (r: seq<bv32>)
    requires |img| == width * height
    ensures |r| == |img|
  {
    if RowAccepted(width, height, line, xStart, |pixels|) then
      ScanlineFits(width, height, line, xStart, |pixels|);
      Splice(img, line * width + xStart, pixels)
    else img
  }

  /** A pixel of an accepted scanline holds its word of the scanline afterwards; every other
      pixel, and every pixel when the scanline is refused, is as it was. */
  lemma ApplyRowAt(img: seq<bv32>, width: nat, height: nat, line: int, xStart: int, pixels: seq<bv32>, x: nat, y: nat)
    requires |img| == width * height && x < width && y < height
    ensures ApplyRow(img, width, height, line, xStart, pixels)[Slot(width, height, x, y)]
      == if RowAccepted(width, height, line, xStart, |pixels|) && y == line && xStart <= x < xStart + |pixels|
         then pixels[x - xStart] else img[Slot(width, height, x, y)]
  {
    if RowAccepted(width, height, line, xStart, |pixels|) {
      ScanlineMeaning(img, width, height, line, xStart, pixels, x, y);
    }
  }

  /** The image after the scanline events are handled in order. */
  function ApplyRows(img: seq<bv32>, width: nat, height: nat, rows: seq<RowEvent>): (r: seq<bv32>)
    requires |img| == width * height
    ensures |r| == |img|
  {
    if rows == [] then img
    else
      var e := rows[|rows| - 1];
      ApplyRow(ApplyRows(img, width, height, rows[..|rows| - 1]), width, height, e.line, e.xStart, e.pixels)
  }

  /** Handling `a + b` is handling `a`, then `b`. */
  lemma {:induction false} ApplyRowsAppend(img: seq<bv32>, width: nat, height: nat, a: seq<RowEvent>, b: seq<RowEvent>)
    requires |img| == width * height
    ensures ApplyRows(img, width, height, a + b) == ApplyRows(ApplyRows(img, width, height, a), width, height, b)
  {
    if b != [] {
      var n := |b| - 1;
      assert (a + b)[..|a + b| - 1] == a + b[..n];
      assert (a + b)[|a + b| - 1] == b[n];
      ApplyRowsAppend(img, width, height, a, b[..n]);
    } else {
      assert a + b == a;
    }
  }

  /** A word of `RowPixels` is the shaded word of its column. */
  lemma RowPixelsAt(height: nat, shade: Shader, line: nat, xStart: nat, count: nat, c: nat)
    requires line < height && c < count
    ensures RowPixels(height, shade, line, xStart, count)[c] == Shaded(height, shade, xStart + c, line)
  {
  }

  /** After the first `n` scanline events of a block are handled, the pixels of those
      scanlines hold their shaded words and every other pixel is as it was. */
  lemma {:induction false} BlockRowsMeaning(width: nat, height: nat, shade: Shader, img: seq<bv32>, b: Block, n: nat, x: nat, y: nat)
    requires |img| == width * height && Fits(b, width, height) && b.tileWidth > 0 && n <= b.tileHeight
    requires x < width && y < height
    ensures ApplyRows(img, width, height, BlockRowEvents(height, shade, b, n))[Slot(width, height, x, y)]
      == if InBlock(b, n, x, y) then Shaded(height, shade, x, y) else img[Slot(width, height, x, y)]
  {
    if n > 0 {
      LastBlockRow(width, height, shade, img, b, n);
      BlockRowsMeaning(width, height, shade, img, b, n - 1, x, y);
      BlockRowStep(width, height, shade, ApplyRows(img, width, height, BlockRowEvents(height, shade, b, n - 1)), b, n, x, y);
    }
  }

  /** Handling the first `n` scanline events of a block is handling the first `n - 1` and then
      scanline `n - 1`, which passes the checks of `updateTile`. */
  lemma LastBlockRow(width: nat, height: nat, shade: Shader, img: seq<bv32>, b: Block, n: nat)
    requires |img| == width * height && Fits(b, width, height) && b.tileWidth > 0 && 0 < n <= b.tileHeight
    ensures var line := b.yStart + n - 1;
      RowAccepted(width, height, line, b.xStart, b.tileWidth)
      && ApplyRows(img, width, height, BlockRowEvents(height, shade, b, n))
         == ApplyRow(ApplyRows(img, width, height, BlockRowEvents(height, shade, b, n - 1)), width, height,
                     line, b.xStart, RowPixels(height, shade, line, b.xStart, b.tileWidth))
  {
    var line := b.yStart + n - 1;
    var rows, px := BlockRowEvents(height, shade, b, n), RowPixels(height, shade, line, b.xStart, b.tileWidth);
    assert rows == BlockRowEvents(height, shade, b, n - 1) + [RowEvent(line, b.xStart, px)];
    assert rows[..n - 1] == BlockRowEvents(height, shade, b, n - 1);
    assert rows[n - 1] == RowEvent(line, b.xStart, px);
  }

  /** Handling scanline `n - 1` of a block makes the pixels of that scanline hold their
      shaded words and leaves every other pixel as it was. */
  lemma BlockRowStep(width: nat, height: nat, shade: Shader, img: seq<bv32>, b: Block, n: nat, x: nat, y: nat)
    requires |img| == width * height && Fits(b, width, height) && b.tileWidth > 0 && 0 < n <= b.tileHeight
    requires x < width && y < height
    ensures var line := b.yStart + n - 1;
      ApplyRow(img, width, height, line, b.xStart, RowPixels(height, shade, line, b.xStart, b.tileWidth))[Slot(width, height, x, y)]
      == if InBlock(b, n, x, y) && !InBlock(b, n - 1, x, y) then Shaded(height, shade, x, y) else img[Slot(width, height, x, y)]
  {
    var line := b.yStart + n - 1;
    var px := RowPixels(height, shade, line, b.xStart, b.tileWidth);
    assert RowAccepted(width, height, line, b.xStart, |px|);
    ApplyRowAt(img, width, height, line, b.xStart, px, x, y);
    if y == line && b.xStart <= x < b.xStart + b.tileWidth {
      RowPixelsAt(height, shade, line, b.xStart, b.tileWidth, x - b.xStart);
      assert InBlock(b, n, x, y) && !InBlock(b, n - 1, x, y);
    } else {
      assert !(InBlock(b, n, x, y) && !InBlock(b, n - 1, x, y));
    }
  }

  /** After the scanline events of a list of fitting blocks are handled, each pixel of one of
      the blocks holds its shaded word and every other pixel is as it was. */
  lemma {:induction false} BlocksMeaning(width: nat, height: nat, shade: Shader, img: seq<bv32>, blocks: seq<Block>, x: nat, y: nat)
    requires |img| == width * height && x < width && y < height
    requires forall i :: 0 <= i < |blocks| ==> Fits(blocks[i], width, height) && blocks[i].tileWidth > 0
    ensures BlocksInRows(height, blocks)
    ensures ApplyRows(img, width, height, RowsOfBlocks(height, shade, blocks))[Slot(width, height, x, y)]
      == if Covered(blocks, x, y) then Shaded(height, shade, x, y) else img[Slot(width, height, x, y)]
  {
    if blocks != [] {
      var n := |blocks| - 1;
      var prefix, last := blocks[..n], blocks[n];
      assert forall i :: 0 <= i < |prefix| ==> prefix[i] == blocks[i];
      BlocksMeaning(width, height, shade, img, prefix, x, y);
      var before := RowsOfBlocks(height, shade, prefix);
      ApplyRowsAppend(img, width, height, before, BlockRowEvents(height, shade, last, last.tileHeight));
      BlockRowsMeaning(width, height, shade, ApplyRows(img, width, height, before), last, last.tileHeight, x, y);
    }
  }

  /** The blocks of the first `t` tiles cover exactly the pixels whose tile is below `t`. */
  lemma {:induction false} TileBlocksCover(g: Grid, t: nat, x: nat, y: nat)
    requires ValidGrid(g) && t <= TotalTiles(g) && x < g.width && y < g.height
    ensures Covered(TileBlocks(g, t), x, y) <==> TileOf(g, x, y) < t
  {
    if t > 0 {
      assert TileBlocks(g, t)[..t - 1] == TileBlocks(g, t - 1);
      TileBlocksCover(g, t - 1, x, y);
      TileBlockCovers(g, t - 1, x, y);
      CoveredOnce(g, t - 1, x, y);
    }
  }

  /** The blocks of a grid's tiles fit in the image and are not empty. */
  lemma TileBlocksFit(g: Grid, t: nat)
    requires ValidGrid(g) && t <= TotalTiles(g)
    ensures forall i :: 0 <= i < t ==> Fits(TileBlocks(g, t)[i], g.width, g.height) && TileBlocks(g, t)[i].tileWidth > 0
  {
  }

  /** After the scanlines of the first `t` tiles are handled, each pixel of those tiles holds
      its shaded word and every other pixel is as it was. */
  lemma RowsUpToMeaning(g: Grid, shade: Shader, img: seq<bv32>, t: nat, x: nat, y: nat)
    requires ValidGrid(g) && t <= TotalTiles(g)
    requires |img| == g.width * g.height && x < g.width && y < g.height
    ensures ApplyRows(img, g.width, g.height, RowEventsUpTo(g, shade, t))[Slot(g.width, g.height, x, y)]
      == if TileOf(g, x, y) < t then Shaded(g.height, shade, x, y) else img[Slot(g.width, g.height, x, y)]
  {
    TileBlocksFit(g, t);
    BlocksMeaning(g.width, g.height, shade, img, TileBlocks(g, t), x, y);
    TileBlocksCover(g, t, x, y);
  }

  /** After a complete legacy render every pixel of a black image holds its shaded word. */
  lemma LegacyFullRender(g: Grid, shade: Shader, x: nat, y: nat)
    requires ValidGrid(g) && x < g.width && y < g.height
    ensures ApplyRows(seq(g.width * g.height, _ => Black), g.width, g.height, RowEventsUpTo(g, shade, TotalTiles(g)))
      [Slot(g.width, g.height, x, y)] == Shaded(g.height, shade, x, y)
  {
    PixelInItsTile(g, x, y);
    RowsUpToMeaning(g, shade, seq(g.width * g.height, _ => Black), TotalTiles(g), x, y);
  }

  /** Scanline event `e` carries pixel `(x, y)`. */
  predicate RowCovers(e: RowEvent, x: nat, y: nat) {
    e.line == y && e.xStart <= x < e.xStart + |e.pixels|
  }

  /** How many of the scanline events carry pixel `(x, y)`. */
  function Emissions(rows: seq<RowEvent>, x: nat, y: nat): nat {
    if rows == [] then 0
    else Emissions(rows[..|rows| - 1], x, y) + (if RowCovers(rows[|rows| - 1], x, y) then 1 else 0)
  }

  /** How many of the blocks contain pixel `(x, y)`. */
  function BlockCount(blocks: seq<Block>, x: nat, y: nat): nat {
    if blocks == [] then 0
    else
      var last := blocks[|blocks| - 1];
      BlockCount(blocks[..|blocks| - 1], x, y) + (if InBlock(last, last.tileHeight, x, y) then 1 else 0)
  }

  /** Every event that carries pixel `(x, y)` carries its shaded word. */
  ghost predicate EmitsShaded(height: nat, shade: Shader, rows: seq<RowEvent>, x: nat, y: nat)
    requires y < height
  {
    forall k :: 0 <= k < |rows| && RowCovers(rows[k], x, y) ==>
      rows[k].pixels[x - rows[k].xStart] == Shaded(height, shade, x, y)
  }

  lemma {:induction false} EmissionsAppend(a: seq<RowEvent>, b: seq<RowEvent>, x: nat, y: nat)
    ensures Emissions(a + b, x, y) == Emissions(a, x, y) + Emissions(b, x, y)
    decreases |b|
  {
    if b == [] {
      assert a + b == a;
    } else {
      var n := |b| - 1;
      assert (a + b)[..|a + b| - 1] == a + b[..n];
      assert (a + b)[|a + b| - 1] == b[n];
      EmissionsAppend(a, b[..n], x, y);
    }
  }

  /** The scanlines of the first `n` lines of a block carry pixel `(x, y)` once if it lies in
      those lines of the block and never otherwise, always with its shaded word. */
  lemma {:induction false} BlockEmissions(height: nat, shade: Shader, b: Block, n: nat, x: nat, y: nat)
    requires b.yStart + n <= height && y < height
    ensures Emissions(BlockRowEvents(height, shade, b, n), x, y) == if InBlock(b, n, x, y) then 1 else 0
    ensures EmitsShaded(height, shade, BlockRowEvents(height, shade, b, n), x, y)
  {
    if n > 0 {
      var rows := BlockRowEvents(height, shade, b, n);
      var prev := BlockRowEvents(height, shade, b, n - 1);
      var line := b.yStart + n - 1;
      assert rows[..|rows| - 1] == prev;
      BlockEmissions(height, shade, b, n - 1, x, y);
      if RowCovers(rows[n - 1], x, y) {
        RowPixelsAt(height, shade, line, b.xStart, b.tileWidth, x - b.xStart);
      }
      forall k | 0 <= k < |rows| && RowCovers(rows[k], x, y)
        ensures rows[k].pixels[x - rows[k].xStart] == Shaded(height, shade, x, y)
      {
        if k < n - 1 {
          assert rows[k] == prev[k];
        }
      }
    }
  }

  /** The scanlines of a list of blocks carry pixel `(x, y)` once for each block containing
      it, always with its shaded word. */
  lemma {:induction false} BlocksEmissions(height: nat, shade: Shader, blocks: seq<Block>, x: nat, y: nat)
    requires BlocksInRows(height, blocks) && y < height
    ensures Emissions(RowsOfBlocks(height, shade, blocks), x, y) == BlockCount(blocks, x, y)
    ensures EmitsShaded(height, shade, RowsOfBlocks(height, shade, blocks), x, y)
  {
    if blocks != [] {
      var last := blocks[|blocks| - 1];
      var prefix := blocks[..|blocks| - 1];
      var before, after := RowsOfBlocks(height, shade, prefix), BlockRowEvents(height, shade, last, last.tileHeight);
      BlocksEmissions(height, shade, prefix, x, y);
      BlockEmissions(height, shade, last, last.tileHeight, x, y);
      EmissionsAppend(before, after, x, y);
      var rows := before + after;
      forall k | 0 <= k < |rows| && RowCovers(rows[k], x, y)
        ensures rows[k].pixels[x - rows[k].xStart] == Shaded(height, shade, x, y)
      {
        if k < |before| {
          assert rows[k] == before[k];
        } else {
          assert rows[k] == after[k - |before|];
        }
      }
    }
  }

  /** Pixel `(x, y)` lies in the block of exactly one of the first `t` tiles when its tile is
      among them, and in none otherwise. */
  lemma {:induction false} TileBlocksCount(g: Grid, t: nat, x: nat, y: nat)
    requires ValidGrid(g) && t <= TotalTiles(g) && x < g.width && y < g.height
    ensures BlockCount(TileBlocks(g, t), x, y) == if TileOf(g, x, y) < t then 1 else 0
  {
    if t > 0 {
      assert TileBlocks(g, t)[..t - 1] == TileBlocks(g, t - 1);
      TileBlocksCount(g, t - 1, x, y);
      TileBlockCovers(g, t - 1, x, y);
      CoveredOnce(g, t - 1, x, y);
    }
  }

  /** Events of which exactly one carries pixel `(x, y)` have one index that does. */
  lemma {:induction false} SingleEmission(rows: seq<RowEvent>, x: nat, y: nat)
    requires Emissions(rows, x, y) == 1
    ensures exists k :: 0 <= k < |rows| && RowCovers(rows[k], x, y)
    ensures forall k1, k2 ::
              0 <= k1 < |rows| && 0 <= k2 < |rows| && RowCovers(rows[k1], x, y) && RowCovers(rows[k2], x, y)
              ==> k1 == k2
  {
    var n := |rows| - 1;
    var prefix := rows[..n];
    if RowCovers(rows[n], x, y) {
      NoEmission(prefix, x, y);
      assert forall k :: 0 <= k < n ==> rows[k] == prefix[k];
    } else {
      SingleEmission(prefix, x, y);
      var k :| 0 <= k < |prefix| && RowCovers(prefix[k], x, y);
      assert rows[k] == prefix[k];
      assert forall k :: 0 <= k < n ==> rows[k] == prefix[k];
    }
  }

  /** Events none of which carries pixel `(x, y)`. */
  lemma {:induction false} NoEmission(rows: seq<RowEvent>, x: nat, y: nat)
    requires Emissions(rows, x, y) == 0
    ensures forall k :: 0 <= k < |rows| ==> !RowCovers(rows[k], x, y)
  {
    if rows != [] {
      var prefix := rows[..|rows| - 1];
      NoEmission(prefix, x, y);
      assert forall k :: 0 <= k < |prefix| ==> rows[k] == prefix[k];
    }
  }

  /** A complete legacy render reports every pixel of the image in exactly one scanline
      event, and that event carries the pixel's shaded word. */
  lemma LegacyEmitsEachPixelOnce(g: Grid, shade: Shader, x: nat, y: nat)
    requires ValidGrid(g) && x < g.width && y < g.height
    ensures var rows := RowEventsUpTo(g, shade, TotalTiles(g));
      && (exists k :: 0 <= k < |rows| && RowCovers(rows[k], x, y))
      && (forall k1, k2 ::
            0 <= k1 < |rows| && 0 <= k2 < |rows| && RowCovers(rows[k1], x, y) && RowCovers(rows[k2], x, y)
            ==> k1 == k2)
      && (forall k :: 0 <= k < |rows| && RowCovers(rows[k], x, y) ==>
            rows[k].pixels[x - rows[k].xStart] == Shaded(g.height, shade, x, y))
  {
    var t := TotalTiles(g);
    TileBlocksFit(g, t);
    BlocksEmissions(g.height, shade, TileBlocks(g, t), x, y);
    PixelInItsTile(g, x, y);
    TileBlocksCount(g, t, x, y);
    SingleEmission(RowEventsUpTo(g, shade, t), x, y);
  }

  /** The repaint throttle: a repaint is requested when at least 16 ms have passed since the
      last one. */
  predicate RepaintDue(elapsedMs: int, lastUpdateMs: int) {
    elapsedMs - lastUpdateMs >= 16
  }

  /** `RenderWidget` with its CPU-side state. */
  class RenderWidget {
    var width: int
    var height: int
    var samples: int
    var depth: int
    /** `m_image`: `imageWidth * imageHeight` pixel words, row by row. */
    var image: array<bv32>
    var imageWidth: nat
    var imageHeight: nat
    var worker: LegacyRenderWorker?
    var isRendering: bool
    var lastUpdateMs: int
    var repaintRequests: int
    var textureDirty: bool

    ghost predicate Valid()
      reads this
    {
      image.Length == imageWidth * imageHeight
    }

    /** The defaults and an 800 by 450 black image. */
    constructor ()
      ensures Valid() && width == 800 && height == 450 && samples == 10 && depth == 10
      ensures imageWidth == 800 && imageHeight == 450 && fresh(image)
      ensures forall j :: 0 <= j < image.Length ==> image[j] == Black
      ensures worker == null && !isRendering && lastUpdateMs == 0 && repaintRequests == 0 && textureDirty
    {
      width, height, samples, depth := 800, 450, 10, 10;
      image := new bv32[800 * 450](_ => Black);
      imageWidth, imageHeight := 800, 450;
      worker := null;
      isRendering, lastUpdateMs, repaintRequests, textureDirty := false, 0, 0, true;
    }

    /** `setResolution`, stored as given. */
    method SetResolution(w: int, h: int)
      modifies this`width, this`height
      ensures width == w && height == h
    {
      width, height := w, h;
    }

    /** `setSamples`. */
    method SetSamples(s: int)
      modifies this`samples
      ensures samples == s
    {
      samples := s;
    }

    /** `setDepth`. */
    method SetDepth(d: int)
      modifies this`depth
      ensures depth == d
    {
      depth := d;
    }

    /** `startRender`: nothing while rendering; otherwise a black image of the render size (a
        null, empty image when a dimension is not positive), a clean throttle and a new
        worker. */
    method StartRender()
      requires Valid()
      modifies this`image, this`imageWidth, this`imageHeight, this`textureDirty, this`lastUpdateMs,
        this`repaintRequests, this`worker, this`isRendering
      ensures Valid()
      ensures old(isRendering) ==> unchanged(this)
      ensures !old(isRendering) ==>
        fresh(image) && BlackImage()
        && textureDirty && lastUpdateMs == 0 && repaintRequests == 0 && isRendering
        && worker != null && fresh(worker) && worker.width == width && worker.height == height
        && worker.samples == samples && worker.depth == depth
    {
      if isRendering {
        return;
      }
      ResetImage();
      textureDirty := true;
      lastUpdateMs := 0;
      repaintRequests := 0;
      worker := new LegacyRenderWorker(width, height, samples, depth);
      isRendering := true;
    }

    /** A black image of the render size, or a null, empty image when a dimension is not
        positive. */
    ghost predicate BlackImage()
      reads this, image
    {
      (forall j :: 0 <= j < image.Length ==> image[j] == Black)
      && if width > 0 && height > 0 then imageWidth == width && imageHeight == height
         else imageWidth == 0 && imageHeight == 0
    }

    /** The new `m_image` of `startRender`. */
    method ResetImage()
      modifies this`image, this`imageWidth, this`imageHeight
      ensures Valid() && fresh(image) && BlackImage()
    {
      var w, h := if width > 0 && height > 0 then width else 0, if width > 0 && height > 0 then height else 0;
      image := new bv32[w * h](_ => Black);
      imageWidth, imageHeight := w, h;
    }

    /** `stopRender`: a running render with a worker asks the worker to stop and clears the
        flag; the worker itself stays. */
    method StopRender()
      modifies this`isRendering, worker
      ensures worker == old(worker)
      ensures old(isRendering && worker != null) ==> !isRendering && worker.stopRequested
      ensures !old(isRendering && worker != null) ==> isRendering == old(isRendering)
    {
      if isRendering && worker != null {
        worker.Stop();
        isRendering := false;
      }
    }

    /** `updateTile` at `elapsedMs` on the throttle timer: a scanline that passes the checks is
        copied into the image, which is marked dirty, and a repaint is counted once 16 ms have
        passed since the last; any other scanline changes nothing. */
    method UpdateTile(line: int, xStart: int, pixelData: seq<bv32>, elapsedMs: int)
      requires Valid()
      modifies this`textureDirty, this`lastUpdateMs, this`repaintRequests, image
      ensures Valid()
      ensures image[..] == ApplyRow(old(image[..]), imageWidth, imageHeight, line, xStart, pixelData)
      ensures !RowAccepted(imageWidth, imageHeight, line, xStart, |pixelData|) ==>
        textureDirty == old(textureDirty) && lastUpdateMs == old(lastUpdateMs)
        && repaintRequests == old(repaintRequests)
      ensures RowAccepted(imageWidth, imageHeight, line, xStart, |pixelData|) ==>
        textureDirty
        && (RepaintDue(elapsedMs, old(lastUpdateMs)) ==>
              lastUpdateMs == elapsedMs && repaintRequests == old(repaintRequests) + 1)
        && (!RepaintDue(elapsedMs, old(lastUpdateMs)) ==>
              lastUpdateMs == old(lastUpdateMs) && repaintRequests == old(repaintRequests))
    {
      if line < 0 || line >= imageHeight {
        return;
      }
      if xStart < 0 || xStart >= imageWidth {
        return;
      }
      if |pixelData| == 0 {
        return;
      }
      if xStart + |pixelData| > imageWidth {
        return;
      }
      CopyRow(line, xStart, pixelData);
      textureDirty := true;
      Throttle(elapsedMs);
    }

    /** The `memcpy` of an accepted scanline into `m_image`. */
    method CopyRow(line: nat, xStart: nat, pixelData: seq<bv32>)
      requires Valid() && RowAccepted(imageWidth, imageHeight, line, xStart, |pixelData|)
      modifies image
      ensures image[..] == ApplyRow(old(image[..]), imageWidth, imageHeight, line, xStart, pixelData)
    {
      ScanlineFits(imageWidth, imageHeight, line, xStart, |pixelData|);
      CopyInto(image, line * imageWidth + xStart, pixelData);
    }

    /** The repaint throttle of `updateTile`: a repaint is counted, and its time kept, once
        16 ms have passed since the last. */
    method Throttle(elapsedMs: int)
      modifies this`lastUpdateMs, this`repaintRequests
      ensures RepaintDue(elapsedMs, old(lastUpdateMs)) ==>
        lastUpdateMs == elapsedMs && repaintRequests == old(repaintRequests) + 1
      ensures !RepaintDue(elapsedMs, old(lastUpdateMs)) ==>
        lastUpdateMs == old(lastUpdateMs) && repaintRequests == old(repaintRequests)
    {
      if elapsedMs - lastUpdateMs >= 16 {
        lastUpdateMs := elapsedMs;
        repaintRequests := repaintRequests + 1;
      }
    }

    /** `onWorkerFinished`: one more repaint, rendering over, no worker. */
    method OnWorkerFinished()
      modifies this`repaintRequests, this`isRendering, this`worker
      ensures repaintRequests == old(repaintRequests) + 1 && !isRendering && worker == null
    {
      repaintRequests := repaintRequests + 1;
      isRendering := false;
      worker := null;
    }
  }
}
