/** A `QImage` in `Format_ARGB32` as a row-major buffer of pixel words, and the scanline
    copies that write tiles into it. */
module Images {
  import opened Tiles

  /** `img` with `src` written over it from slot `off` on. */
  function Splice(img: seq<bv32>, off: nat, src: seq<bv32>): (r: seq<bv32>)
    requires off + |src| <= |img|
    ensures |r| == |img|
  {
    seq(|img|, i requires 0 <= i < |img| => if off <= i < off + |src| then src[i - off] else img[i])
  }

  /** A slot of the spliced image holds the source word inside the copied range and the old
      word elsewhere. */
  lemma SpliceAt(img: seq<bv32>, off: nat, src: seq<bv32>, j: nat)
    requires off + |src| <= |img| && j < |img|
    ensures Splice(img, off, src)[j] == if off <= j < off + |src| then src[j - off] else img[j]
  {
  }

  /** `std::memcpy(dest + off, src, |src|)` into a pixel buffer. */
  method CopyInto(dest: array<bv32>, off: nat, src: seq<bv32>)
    requires off + |src| <= dest.Length
    modifies dest
    ensures dest[..] == Splice(old(dest[..]), off, src)
  {
    for i := 0 to |src|
      invariant forall j :: 0 <= j < dest.Length ==>
        dest[j] == if off <= j < off + i then src[j - off] else old(dest[j])
    {
      dest[off + i] := src[i];
    }
    forall j | 0 <= j < dest.Length
      ensures dest[j] == Splice(old(dest[..]), off, src)[j]
    {
      SpliceAt(old(dest[..]), off, src, j);
    }
  }

  /** The placement of a `tileWidth` by `tileHeight` block of pixels at `(xStart, yStart)` in
      a `width` by `height` image. */
  datatype Block = Block(yStart: nat, xStart: nat, tileWidth: nat, tileHeight: nat)

  predicate Fits(b: Block, width: nat, height: nat) {
    b.xStart + b.tileWidth <= width && b.yStart + b.tileHeight <= height
  }

  /** The image after the first `n` scanlines of the block have been copied in, scanline
      `row` of the block coming from `data[row * tileWidth ..]`. */
  function BlitRows(img: seq<bv32>, width: nat, height: nat, b: Block, data: seq<bv32>, n: nat): (r: seq<bv32>)
    requires |img| == width * height && Fits(b, width, height)
    requires |data| == b.tileWidth * b.tileHeight && n <= b.tileHeight
    ensures |r| == |img|
  {
    if n == 0 then img
    else Splice(BlitRows(img, width, height, b, data, n - 1), RowStart(width, height, b, n - 1), RowData(b, data, n - 1))
  }

  /** The slot where scanline `row` of the block starts. */
  function RowStart(width: nat, height: nat, b: Block, row: nat): (off: nat)
    requires Fits(b, width, height) && row < b.tileHeight
    ensures off + b.tileWidth <= width * height
  {
    RowFits(width, height, b, row);
    (b.yStart + row) * width + b.xStart
  }

  /** Scanline `row` of the block's data. */
  function RowData(b: Block, data: seq<bv32>, row: nat): (line: seq<bv32>)
    requires |data| == b.tileWidth * b.tileHeight && row < b.tileHeight
    ensures |line| == b.tileWidth
  {
    RowOfData(b.tileWidth, b.tileHeight, row);
    data[row * b.tileWidth..row * b.tileWidth + b.tileWidth]
  }

  /** Scanline `row` of a fitting block lies inside the image. */
  lemma RowFits(width: nat, height: nat, b: Block, row: nat)
    requires Fits(b, width, height) && row < b.tileHeight
    ensures (b.yStart + row) * width + b.xStart + b.tileWidth <= width * height
  {
    MulMonotone(b.yStart + row + 1, height, width);
    MulDistributes(b.yStart + row, width);
  }

  /** Row `row` of a row-major block of data is a whole slice of the data. */
  lemma RowOfData(tileWidth: nat, tileHeight: nat, row: nat)
    requires row < tileHeight
    ensures row * tileWidth + tileWidth <= tileWidth * tileHeight
  {
    MulMonotone(row + 1, tileHeight, tileWidth);
    MulDistributes(row, tileWidth);
  }

  /** The slot of pixel `(x, y)` in a `width` by `height` image. */
  function Slot(width: nat, height: nat, x: nat, y: nat): (j: nat)
    requires x < width && y < height
    ensures j < width * height
  {
    SlotBelow(width, height, y, x);
    y * width + x
  }

  /** Pixel `(x, y)` lies in the first `n` scanlines of the block. */
  predicate InBlock(b: Block, n: nat, x: nat, y: nat) {
    b.yStart <= y < b.yStart + n && b.xStart <= x < b.xStart + b.tileWidth
  }

  /** The tile pixel the block places at image pixel `(x, y)`. */
  function BlockPixel(b: Block, data: seq<bv32>, x: nat, y: nat): bv32
    requires |data| == b.tileWidth * b.tileHeight && InBlock(b, b.tileHeight, x, y)
  {
    SlotBelow(b.tileWidth, b.tileHeight, y - b.yStart, x - b.xStart);
    data[(y - b.yStart) * b.tileWidth + (x - b.xStart)]
  }

  /** After `n` scanlines are copied, a pixel of the first `n` rows of the block holds its
      tile pixel and every other pixel is as it was. */
  lemma {:induction false} BlitRowsMeaning(img: seq<bv32>, width: nat, height: nat, b: Block,
                                           data: seq<bv32>, n: nat, x: nat, y: nat)
    requires |img| == width * height && Fits(b, width, height)
    requires |data| == b.tileWidth * b.tileHeight && n <= b.tileHeight
    requires x < width && y < height
    ensures BlitRows(img, width, height, b, data, n)[Slot(width, height, x, y)]
      == if InBlock(b, n, x, y) then BlockPixel(b, data, x, y) else img[Slot(width, height, x, y)]
  {
    if n > 0 {
      var prev := BlitRows(img, width, height, b, data, n - 1);
      var off, line := RowStart(width, height, b, n - 1), RowData(b, data, n - 1);
      var j := Slot(width, height, x, y);
      BlitRowsMeaning(img, width, height, b, data, n - 1, x, y);
      ScanlineStep(width, height, b, data, n - 1, x, y);
      SpliceAt(prev, off, line, j);
    }
  }

  /** Copying scanline `row` of the block changes exactly the pixels of that scanline. */
  lemma ScanlineStep(width: nat, height: nat, b: Block, data: seq<bv32>, row: nat, x: nat, y: nat)
    requires Fits(b, width, height) && |data| == b.tileWidth * b.tileHeight && row < b.tileHeight
    requires x < width && y < height
    ensures var off, j := RowStart(width, height, b, row), Slot(width, height, x, y);
      (off <= j < off + b.tileWidth <==> y == b.yStart + row && b.xStart <= x < b.xStart + b.tileWidth)
      && (off <= j < off + b.tileWidth ==> RowData(b, data, row)[j - off] == BlockPixel(b, data, x, y))
  {
    var off, j := RowStart(width, height, b, row), Slot(width, height, x, y);
    InScanline(width, b.yStart + row, b.xStart, b.tileWidth, x, y);
    if y == b.yStart + row && b.xStart <= x < b.xStart + b.tileWidth {
      assert j - off == x - b.xStart;
      RowDataAt(b, data, row, x - b.xStart);
    }
  }

  lemma RowDataAt(b: Block, data: seq<bv32>, row: nat, c: nat)
    requires |data| == b.tileWidth * b.tileHeight && row < b.tileHeight && c < b.tileWidth
    ensures RowData(b, data, row)[c] == BlockPixel(b, data, b.xStart + c, b.yStart + row)
  {
    SlotBelow(b.tileWidth, b.tileHeight, row, c);
    RowOfData(b.tileWidth, b.tileHeight, row);
  }

  /** The slots of scanline `row` from `xStart` on, `count` of them, are the pixels of that
      row in those columns. */
  lemma InScanline(width: nat, row: nat, xStart: nat, count: nat, x: nat, y: nat)
    requires xStart + count <= width && x < width
    ensures row * width + xStart <= y * width + x < row * width + xStart + count
        <==> y == row && xStart <= x < xStart + count
  {
    if y < row {
      MulMonotone(y + 1, row, width);
      MulDistributes(y, width);
    } else if y > row {
      MulMonotone(row + 1, y, width);
      MulDistributes(row, width);
    }
  }

  /** A scanline that fits in its row of the image lies inside the image. */
  lemma ScanlineFits(width: nat, height: nat, line: nat, xStart: nat, count: nat)
    requires line < height && xStart + count <= width
    ensures line * width + xStart + count <= width * height
  {
    RowFits(width, height, Block(line, xStart, count, 1), 0);
  }

  /** Copying one scanline of `src` to `(xStart, line)` is a block of height one. */
  lemma SpliceIsOneRow(img: seq<bv32>, width: nat, height: nat, line: nat, xStart: nat, src: seq<bv32>)
    requires |img| == width * height && line < height && xStart + |src| <= width
    ensures line * width + xStart + |src| <= |img|
    ensures Splice(img, line * width + xStart, src)
      == BlitRows(img, width, height, Block(line, xStart, |src|, 1), src, 1)
  {
    var b := Block(line, xStart, |src|, 1);
    RowFits(width, height, b, 0);
    assert RowData(b, src, 0) == src[0..|src|] == src;
  }

  /** After one scanline is copied, a pixel of that scanline holds its word of `src` and
      every other pixel is as it was. */
  lemma ScanlineMeaning(img: seq<bv32>, width: nat, height: nat, line: nat, xStart: nat, src: seq<bv32>, x: nat, y: nat)
    requires |img| == width * height && line < height && xStart + |src| <= width
    requires x < width && y < height
    ensures line * width + xStart + |src| <= |img|
    ensures Splice(img, line * width + xStart, src)[Slot(width, height, x, y)]
      == if y == line && xStart <= x < xStart + |src| then src[x - xStart] else img[Slot(width, height, x, y)]
  {
    var b := Block(line, xStart, |src|, 1);
    SpliceIsOneRow(img, width, height, line, xStart, src);
    BlitRowsMeaning(img, width, height, b, src, 1, x, y);
  }

  /** The row-by-row copy of `onTileRendered`: every scanline of the block is `memcpy`d from
      its slice of `data`. */
  method BlitBlock(image: array<bv32>, width: nat, height: nat, b: Block, data: seq<bv32>)
    requires image.Length == width * height && Fits(b, width, height)
    requires |data| == b.tileWidth * b.tileHeight
    modifies image
    ensures image[..] == BlitRows(old(image[..]), width, height, b, data, b.tileHeight)
  {
    for row := 0 to b.tileHeight
      invariant image[..] == BlitRows(old(image[..]), width, height, b, data, row)
    {
      CopyInto(image, RowStart(width, height, b, row), RowData(b, data, row));
    }
  }
}
