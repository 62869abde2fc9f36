/**
 * `getPixelsFromImgData`: down-samples an RGBA pixel buffer into a packed
 * `Pixels` structure, one bit per `pixelRatio` x `pixelRatio` block.
 *
 * A source pixel is ink when its alpha is at least `opacityThreshold` and its
 * red + green + blue is at most `lightThreshold`. A cell whose block holds an
 * ink pixel gets its bit set (fill 0, tag masks) or cleared (fill -1, mask
 * images and shapes); every other bit keeps its `generatePixels` value. The
 * blocks of the last column and the last row are clipped to
 * `width % pixelRatio || pixelRatio` (and the same for height) pixels.
 */
module Extract {
  import opened Bits
  import opened Js
  import opened Grid

  type Byte = b: int | 0 <= b < 256

  /** A canvas `ImageData`: four bytes (r, g, b, a) per pixel, row by row. */
  datatype ImageData = ImageData(width: nat, height: nat, data: seq<Byte>)

  predicate WellFormed(img: ImageData)
  {
    |img.data| == 4 * img.width * img.height
  }

  lemma MulLe(a: int, b: int, c: nat)
    requires a <= b
    ensures a * c <= b * c
  {
  }

  lemma MulSucc(a: int, b: int)
    ensures (a + 1) * b == a * b + b
  {
  }

  /** The index of the first (red) byte of pixel (px, py). */
  function PixelPos(img: ImageData, px: int, py: int): int
  {
    4 * (py * img.width + px)
  }

  /** All four bytes of pixel (px, py) exist. */
  lemma PixelIndex(img: ImageData, px: int, py: int)
    requires WellFormed(img) && 0 <= px < img.width && 0 <= py < img.height
    ensures 0 <= PixelPos(img, px, py) && PixelPos(img, px, py) + 3 < |img.data|
  {
    MulLe(py + 1, img.height, img.width);
    assert py * img.width + px < (py + 1) * img.width;
  }

  /** The pixel whose bytes start at pos is opaque enough and dark enough. */
  predicate InkAt(img: ImageData, opacityThreshold: int, lightThreshold: int, pos: int)
    requires 0 <= pos && pos + 3 < |img.data|
  {
    img.data[pos + 3] >= opacityThreshold && img.data[pos] as int + img.data[pos + 1] as int + img.data[pos + 2] as int <= lightThreshold
  }

  /** Pixel (px, py) is ink. */
  predicate Inked(img: ImageData, opacityThreshold: int, lightThreshold: int, px: int, py: int)
  {
    && WellFormed(img) && 0 <= px < img.width && 0 <= py < img.height
    && (PixelIndex(img, px, py); InkAt(img, opacityThreshold, lightThreshold, PixelPos(img, px, py)))
  }

  /** The size of a clipped edge block: `size % pixelRatio || pixelRatio`. */
  function Edge(size: nat, r: Ratio): (e: int)
    ensures 1 <= e <= r
  {
    if size % r != 0 then size % r else r
  }

  /** How many source pixels block k spans along a side of `size` pixels. */
  function BlockLen(size: nat, r: Ratio, k: int): int
  {
    if k == Cells(size, r) - 1 then Edge(size, r) else r
  }

  /** Every block lies inside the image. */
  lemma BlockInside(size: nat, r: Ratio, k: int, d: int)
    requires 0 <= k < Cells(size, r) && 0 <= d < BlockLen(size, r, k)
    ensures 0 <= k * r + d < size
  {
    var c := Cells(size, r);
    MulLe(0, k, r);
    if k < c - 1 {
      MulLe(k + 1, c - 1, r);
    } else if size % r != 0 {
      assert size == (size / r) * r + size % r;
      assert c == size / r + 1;
    } else {
      assert size == (size / r) * r;
      assert c == size / r;
    }
  }

  /**
   * The blocks tile the image: pixel px belongs to the block of cell
   * `floor(px / r)`, and to no other.
   */
  lemma BlockCovers(size: nat, r: Ratio, px: int)
    requires 0 <= px < size
    ensures var k := px / r;
      && 0 <= k < Cells(size, r) && 0 <= px - k * r < BlockLen(size, r, k)
      && forall k' :: 0 <= k' < Cells(size, r) && k' * r <= px < k' * r + BlockLen(size, r, k') ==> k' == k
  {
    BlockOf(size, r, px);
    forall k' | 0 <= k' < Cells(size, r) && k' * r <= px < k' * r + BlockLen(size, r, k')
      ensures k' == px / r
    {
      BlockOf(size, r, px);
      var k := px / r;
      if k' < k {
        BlockBefore(size, r, k', k);
      } else if k' > k {
        BlockBefore(size, r, k, k');
      }
    }
  }

  /** Pixel px lies in the block of cell `floor(px / r)`. */
  lemma BlockOf(size: nat, r: Ratio, px: int)
    requires 0 <= px < size
    ensures var k := px / r;
      0 <= k < Cells(size, r) && 0 <= px - k * r < BlockLen(size, r, k)
  {
    var k := px / r;
    var c := Cells(size, r);
    assert px == k * r + px % r;
    MulLe(0, k, r);
    if k >= c {
      MulLe(c, k, r);
    }
    if k == c - 1 && size % r != 0 {
      assert size == (size / r) * r + size % r;
      assert c == size / r + 1;
    }
  }

  /** A block ends no later than where any later block starts. */
  lemma BlockBefore(size: nat, r: Ratio, a: int, b: int)
    requires a < b
    ensures a * r + BlockLen(size, r, a) <= b * r
  {
    MulLe(a + 1, b, r);
    assert (a + 1) * r == a * r + r;
  }

  /** Source pixel (dx, dy) of the block of cell (row, col) is ink. */
  predicate InkIn(img: ImageData, opacityThreshold: int, lightThreshold: int, r: Ratio, row: int, col: int, dy: int, dx: int)
  {
    Inked(img, opacityThreshold, lightThreshold, col * r + dx, row * r + dy)
  }

  /** Some pixel of the clipped block of cell (row, col) is ink. */
  ghost predicate CellInked(img: ImageData, opacityThreshold: int, lightThreshold: int, r: Ratio, row: int, col: int)
  {
    exists dy, dx :: 0 <= dy < BlockLen(img.height, r, row) && 0 <= dx < BlockLen(img.width, r, col)
      && InkIn(img, opacityThreshold, lightThreshold, r, row, col, dy, dx)
  }

  /** The value the bit of cell (row, col) ends with. */
  ghost predicate ExtractBit(img: ImageData, r: Ratio, cut: bool, opacityThreshold: int, lightThreshold: int,
                             fill: Fill, forTag: bool, row: int, col: int)
  {
    if col < Cells(img.width, r) && CellInked(img, opacityThreshold, lightThreshold, r, row, col)
    then fill == Clear
    else BlankCell(img.width, r, cut, fill, forTag, col)
  }

  /**
   * p is what `getPixelsFromImgData` returns: the image's own width and
   * height, the shape `generatePixels` gives them, and every bit as
   * `ExtractBit` says.
   */
  ghost predicate IsExtraction(p: Pixels, img: ImageData, r: Ratio, cut: bool, opacityThreshold: int, lightThreshold: int,
                               fill: Fill, forTag: bool)
  {
    && p.width == img.width && p.height == img.height
    && |p.data| == Cells(img.height, r)
    && (forall row :: 0 <= row < |p.data| ==> |p.data[row]| == CeilDiv(Cells(img.width, r), 32))
    && (forall row, col :: 0 <= row < |p.data| && 0 <= col < 32 * |p.data[row]| ==>
          (CellAt(p.data, row, col, Zero()) <==> ExtractBit(img, r, cut, opacityThreshold, lightThreshold, fill, forTag, row, col)))
  }

  /** Two rows structures of the same shape that agree on every cell are equal. */
  lemma RowsExt(a: Rows, b: Rows)
    requires |a| == |b| && forall row :: 0 <= row < |a| ==> |a[row]| == |b[row]|
    requires forall row, col :: 0 <= row < |a| && 0 <= col < 32 * |a[row]| ==>
               (CellAt(a, row, col, Zero()) <==> CellAt(b, row, col, Zero()))
    ensures a == b
  {
    forall row | 0 <= row < |a|
      ensures a[row] == b[row]
    {
      forall w | 0 <= w < |a[row]|
        ensures a[row][w] == b[row][w]
      {
        forall k | 0 <= k < 32
          ensures a[row][w][k] == b[row][w][k]
        {
          var col := 32 * w + k;
          assert col / 32 == w && col % 32 == k;
          assert CellAt(a, row, col, Zero()) <==> CellAt(b, row, col, Zero());
        }
      }
    }
  }

  /** The structure `IsExtraction` describes, built cell by cell. */
  ghost function Extraction(img: ImageData, r: Ratio, cut: bool, opacityThreshold: int, lightThreshold: int,
                            fill: Fill, forTag: bool): Pixels
  {
    Pixels(img.width, img.height,
      seq(Cells(img.height, r), row =>
        seq(CeilDiv(Cells(img.width, r), 32), w =>
          seq(32, k => ExtractBit(img, r, cut, opacityThreshold, lightThreshold, fill, forTag, row, 32 * w + k)))))
  }

  /** `Extraction` meets the contract of `getPixelsFromImgData`, so it is what the method returns. */
  lemma ExtractionIs(p: Pixels, img: ImageData, r: Ratio, cut: bool, opacityThreshold: int, lightThreshold: int,
                     fill: Fill, forTag: bool)
    requires IsExtraction(p, img, r, cut, opacityThreshold, lightThreshold, fill, forTag)
    ensures p == Extraction(img, r, cut, opacityThreshold, lightThreshold, fill, forTag)
  {
    var e := Extraction(img, r, cut, opacityThreshold, lightThreshold, fill, forTag);
    forall row, col | 0 <= row < |e.data| && 0 <= col < 32 * |e.data[row]|
      ensures CellAt(e.data, row, col, Zero()) <==> ExtractBit(img, r, cut, opacityThreshold, lightThreshold, fill, forTag, row, col)
    {
      var w, k := col / 32, col % 32;
      assert col == 32 * w + k;
      assert CellAt(e.data, row, col, Zero()) == e.data[row][w][k];
    }
    ExtractionUnique(p, e, img, r, cut, opacityThreshold, lightThreshold, fill, forTag);
  }

  /** The contract of `getPixelsFromImgData` pins its result down completely. */
  lemma ExtractionUnique(p: Pixels, q: Pixels, img: ImageData, r: Ratio, cut: bool, opacityThreshold: int,
                         lightThreshold: int, fill: Fill, forTag: bool)
    requires IsExtraction(p, img, r, cut, opacityThreshold, lightThreshold, fill, forTag)
    requires IsExtraction(q, img, r, cut, opacityThreshold, lightThreshold, fill, forTag)
    ensures p == q
  {
    RowsExt(p.data, q.data);
  }

  /**
   * Against the structure `generatePixels` starts from, the bit of a cell
   * changes exactly when the cell is a real cell (not row padding) whose
   * block holds an ink pixel; it is then set for fill 0 and cleared for
   * fill -1.
   */
  lemma ExtractionChanges(p: Pixels, img: ImageData, r: Ratio, cut: bool, opacityThreshold: int,
                          lightThreshold: int, fill: Fill, forTag: bool, row: int, col: int)
    requires IsExtraction(p, img, r, cut, opacityThreshold, lightThreshold, fill, forTag)
    requires 0 <= row < |p.data| && 0 <= col < 32 * |p.data[row]|
    ensures var blank := Blank(img.width, img.height, r, cut, fill, forTag).data;
      && ((CellAt(p.data, row, col, Zero()) != CellAt(blank, row, col, Zero()))
          <==> (col < Cells(img.width, r) && CellInked(img, opacityThreshold, lightThreshold, r, row, col)))
      && ((col < Cells(img.width, r) && CellInked(img, opacityThreshold, lightThreshold, r, row, col))
          ==> (CellAt(p.data, row, col, Zero()) <==> fill == Clear))
  {
    BlankCells(img.width, img.height, r, cut, fill, forTag, Zero());
  }

  /** `1 << -(pixelX + 1)` shifts by `31 - pixelX mod 32`. */
  lemma NegShift(px: int)
    requires px >= 0
    ensures ShiftCount(-(px + 1)) == 31 - px % 32
  {
    var q, m := px / 32, px % 32;
    assert -(px + 1) == 32 * (-q - 1) + (31 - m);
  }

  /** The source's byte offset of pixel (col * r + x, row * r + y). */
  lemma OffsetIdentity(row: int, r: int, width: int, col: int, y: int, x: int)
    ensures row * r * (4 * width) + 4 * (col * r) + y * (4 * width) + 4 * x
            == 4 * ((row * r + y) * width + (col * r + x))
  {
    assert row * r * (4 * width) == 4 * (row * r * width);
    assert y * (4 * width) == 4 * (y * width);
    assert (row * r + y) * width == row * r * width + y * width;
  }

  /** The byte offset the scan reaches for pixel (dx, dy) of a block addresses that pixel. */
  lemma ScanIndex(img: ImageData, r: Ratio, row: int, col: int, dy: int, dx: int, outerOffset: int, pos: int)
    requires WellFormed(img)
    requires 0 <= row < Cells(img.height, r) && 0 <= col < Cells(img.width, r)
    requires 0 <= dy < BlockLen(img.height, r, row) && 0 <= dx < BlockLen(img.width, r, col)
    requires outerOffset == row * r * (4 * img.width) + 4 * (col * r)
    requires pos == outerOffset + dy * (4 * img.width) + 4 * dx
    ensures 0 <= col * r + dx < img.width && 0 <= row * r + dy < img.height
    ensures pos == PixelPos(img, col * r + dx, row * r + dy)
    ensures 0 <= pos && pos + 3 < |img.data|
  {
    BlockInside(img.width, r, col, dx);
    BlockInside(img.height, r, row, dy);
    PixelIndex(img, col * r + dx, row * r + dy);
    OffsetIdentity(row, r, img.width, col, dy, dx);
  }

  /**
   * The inner scan of one cell: rows of the clipped block top to bottom,
   * pixels left to right, stopping at the first ink pixel (the source's
   * `break outer`). Byte offsets are computed as the source does.
   */
  method ScanBlock(img: ImageData, opacityThreshold: int, lightThreshold: int, dataXLength: int, outerOffset: int,
                   xLength: int, yLength: int, ghost r: Ratio, ghost row: int, ghost col: int)
    returns (found: bool)
    requires WellFormed(img) && dataXLength == 4 * img.width
    requires 0 <= row < Cells(img.height, r) && 0 <= col < Cells(img.width, r)
    requires xLength == BlockLen(img.width, r, col) && yLength == BlockLen(img.height, r, row)
    requires outerOffset == row * r * dataXLength + 4 * (col * r)
    ensures found <==> CellInked(img, opacityThreshold, lightThreshold, r, row, col)
  {
    var y := 0;
    while y < yLength
      invariant 0 <= y <= yLength
      invariant forall dy, dx :: 0 <= dy < y && 0 <= dx < xLength ==> !InkIn(img, opacityThreshold, lightThreshold, r, row, col, dy, dx)
    {
      var x := 0;
      var offset := outerOffset + y * dataXLength;
      ghost var dy := y;
      y := y + 1;
      while x < xLength
        invariant 0 <= x <= xLength
        invariant forall dx :: 0 <= dx < x ==> !InkIn(img, opacityThreshold, lightThreshold, r, row, col, dy, dx)
      {
        var pos := offset + 4 * x;
        ghost var dx := x;
        x := x + 1;
        ScanIndex(img, r, row, col, dy, dx, outerOffset, pos);
        var opacity: int := img.data[pos + 3];
        if opacity < opacityThreshold {
          continue;
        }
        var light := img.data[pos] as int + img.data[pos + 1] as int + img.data[pos + 2] as int;
        if light > lightThreshold {
          continue;
        }
        assert InkIn(img, opacityThreshold, lightThreshold, r, row, col, dy, dx);
        return true;
      }
      assert forall d :: 0 <= d < xLength ==> !InkIn(img, opacityThreshold, lightThreshold, r, row, col, dy, d);
    }
    return false;
  }

  /** The bit of cell (row, col) once the cells before (pixelY, pixelX), in row-major order, have been scanned. */
  ghost predicate Progress(img: ImageData, r: Ratio, cut: bool, opacityThreshold: int, lightThreshold: int,
                           fill: Fill, forTag: bool, pixelY: int, pixelX: int, row: int, col: int)
  {
    if col < Cells(img.width, r) && (row < pixelY || (row == pixelY && col < pixelX))
       && CellInked(img, opacityThreshold, lightThreshold, r, row, col)
    then fill == Clear
    else BlankCell(img.width, r, cut, fill, forTag, col)
  }

  /** Every stored cell of g holds its `Progress` value. */
  ghost predicate ProgressHolds(g: Rows, img: ImageData, r: Ratio, cut: bool, opacityThreshold: int, lightThreshold: int,
                                fill: Fill, forTag: bool, pixelY: int, pixelX: int)
  {
    forall row, col :: 0 <= row < |g| && 0 <= col < 32 * |g[row]| ==>
      (CellAt(g, row, col, Zero()) <==> Progress(img, r, cut, opacityThreshold, lightThreshold, fill, forTag, pixelY, pixelX, row, col))
  }

  /** Clearing (`&= ~bit`) or setting (`|= bit`) the bit `1 << -(pixelX + 1)` changes bit `pixelX mod 32` only. */
  lemma MarkWord(wd: Word, pixelX: int, fill: Fill)
    requires pixelX >= 0
    ensures var bit := Shl(One(), ShiftCount(-(pixelX + 1)));
      var marked := if fill == Set then And(wd, Not(bit)) else Or(wd, bit);
      forall k :: 0 <= k < 32 ==> (marked[k] <==> if k == pixelX % 32 then fill == Clear else wd[k])
  {
    NegShift(pixelX);
  }

  /** g with word w of row `row` replaced by wd. */
  function SetWord(g: Rows, row: int, w: int, wd: Word): (g': Rows)
    requires 0 <= row < |g| && 0 <= w < |g[row]|
    ensures |g'| == |g| && forall i :: 0 <= i < |g| ==> |g'[i]| == |g[i]|
  {
    var words: seq<Word> := g[row][w := wd];
    g[row := words]
  }

  /** Replacing one word changes exactly the cells the word's bits say. */
  lemma CellUpdate(g: Rows, row0: int, col0: int, wd: Word, v: bool)
    requires Stored(g, row0, col0)
    requires forall k :: 0 <= k < 32 ==> (wd[k] <==> if k == col0 % 32 then v else g[row0][col0 / 32][k])
    ensures var g' := SetWord(g, row0, col0 / 32, wd);
      forall row, col :: (CellAt(g', row, col, Zero()) <==>
           if row == row0 && col == col0 then v else CellAt(g, row, col, Zero()))
  {
    var g' := SetWord(g, row0, col0 / 32, wd);
    forall row, col
      ensures CellAt(g', row, col, Zero()) <==> if row == row0 && col == col0 then v else CellAt(g, row, col, Zero())
    {
      assert col == 32 * (col / 32) + col % 32;
      assert col0 == 32 * (col0 / 32) + col0 % 32;
      if row == row0 && col / 32 == col0 / 32 {
        assert WordAt(g', row, col / 32, Zero()) == wd;
      } else {
        assert WordAt(g', row, col / 32, Zero()) == WordAt(g, row, col / 32, Zero());
      }
    }
  }

  /** The scan of cell (pixelY, pixelX) moves the progress on by one cell. */
  lemma ProgressStep(g: Rows, g': Rows, img: ImageData, r: Ratio, cut: bool, opacityThreshold: int, lightThreshold: int,
                     fill: Fill, forTag: bool, pixelY: int, pixelX: int, nextY: int, nextX: int)
    requires 0 <= pixelX < Cells(img.width, r)
    requires (nextY, nextX) == (pixelY, pixelX + 1) || (pixelX == Cells(img.width, r) - 1 && (nextY, nextX) == (pixelY + 1, 0))
    requires ProgressHolds(g, img, r, cut, opacityThreshold, lightThreshold, fill, forTag, pixelY, pixelX)
    requires |g'| == |g| && forall row :: 0 <= row < |g| ==> |g'[row]| == |g[row]|
    requires forall row, col :: (CellAt(g', row, col, Zero()) <==>
               if row == pixelY && col == pixelX
               then Progress(img, r, cut, opacityThreshold, lightThreshold, fill, forTag, nextY, nextX, row, col)
               else CellAt(g, row, col, Zero()))
    ensures ProgressHolds(g', img, r, cut, opacityThreshold, lightThreshold, fill, forTag, nextY, nextX)
  {
    forall row, col | 0 <= row < |g'| && 0 <= col < 32 * |g'[row]|
      ensures CellAt(g', row, col, Zero()) <==> Progress(img, r, cut, opacityThreshold, lightThreshold, fill, forTag, nextY, nextX, row, col)
    {
      if !(row == pixelY && col == pixelX) {
        assert Progress(img, r, cut, opacityThreshold, lightThreshold, fill, forTag, nextY, nextX, row, col)
           <==> Progress(img, r, cut, opacityThreshold, lightThreshold, fill, forTag, pixelY, pixelX, row, col);
      }
    }
  }

  lemma CountdownBounds(pixelCount: int, pxl: nat, pyl: nat, pixelY: int, pixelX: int)
    requires pixelCount + pixelY * pxl + pixelX == pxl * pyl
    requires 0 <= pixelY && 0 <= pixelX && (pixelX < pxl || pixelX == 0)
    ensures pixelCount > 0 ==> pixelX < pxl && pixelY < pyl
    ensures pixelCount <= 0 ==> pxl == 0 || pixelY >= pyl
  {
    if pixelCount > 0 && pixelY >= pyl {
      MulLe(pyl, pixelY, pxl);
    }
    if pixelCount <= 0 && pxl > 0 && pixelY < pyl {
      MulLe(pixelY + 1, pyl, pxl);
    }
  }

  /**
   * `getPixelsFromImgData`: scans the cells in row-major order with a
   * countdown of `pixelXLength * pixelYLength`, and for each cell whose
   * clipped block holds an ink pixel clears (fill -1) or sets (fill 0) its
   * bit. The result keeps the image's width and height.
   */
  method GetPixelsFromImgData(img: ImageData, r: Ratio, cut: bool, opacityThreshold: int, lightThreshold: int,
                              fill: Fill, forTag: bool)
    returns (p: Pixels)
    requires WellFormed(img)
    ensures IsExtraction(p, img, r, cut, opacityThreshold, lightThreshold, fill, forTag)
  {
    var width, height := img.width, img.height;
    var pixels := GeneratePixels(width, height, r, cut, fill, forTag);
    var pixelsData := pixels.data;
    var dataXLength := 4 * width;
    var pixelXLength := CeilDiv(width, r);
    var pixelYLength := CeilDiv(height, r);
    var pixelCount := pixelXLength * pixelYLength;
    var pixelX, pixelY := 0, 0;
    var edgeXLength := Edge(width, r);
    var edgeYLength := Edge(height, r);
    BlankCells(width, height, r, cut, fill, forTag, Zero());
    while pixelCount > 0
      invariant 0 <= pixelY && 0 <= pixelX && (pixelX < pixelXLength || pixelX == 0)
      invariant pixelCount + pixelY * pixelXLength + pixelX == pixelXLength * pixelYLength
      invariant |pixelsData| == pixelYLength
      invariant forall row :: 0 <= row < pixelYLength ==> |pixelsData[row]| == CeilDiv(pixelXLength, 32)
      invariant ProgressHolds(pixelsData, img, r, cut, opacityThreshold, lightThreshold, fill, forTag, pixelY, pixelX)
    {
      CountdownBounds(pixelCount, pixelXLength, pixelYLength, pixelY, pixelX);
      pixelCount := pixelCount - 1;
      var outerOffset := pixelY * r * dataXLength + 4 * (pixelX * r);
      var xLength := if pixelX == pixelXLength - 1 then edgeXLength else r;
      var yLength := if pixelY == pixelYLength - 1 then edgeYLength else r;
      var xIndex := Quot(pixelX, 32);
      assert xIndex == pixelX / 32 < CeilDiv(pixelXLength, 32);
      var found := ScanBlock(img, opacityThreshold, lightThreshold, dataXLength, outerOffset, xLength, yLength, r, pixelY, pixelX);
      var nextX, nextY := pixelX + 1, pixelY;
      if nextX == pixelXLength {
        nextX, nextY := 0, pixelY + 1;
        MulSucc(pixelY, pixelXLength);
      }
      var before := pixelsData;
      if found {
        pixelsData := MarkCell(pixelsData, pixelY, pixelX, xIndex, fill);
      } else {
        assert Stored(before, pixelY, pixelX);
      }
      ProgressStep(before, pixelsData, img, r, cut, opacityThreshold, lightThreshold, fill, forTag, pixelY, pixelX, nextY, nextX);
      pixelX, pixelY := nextX, nextY;
    }
    CountdownBounds(pixelCount, pixelXLength, pixelYLength, pixelY, pixelX);
    p := Pixels(width, height, pixelsData);
    ProgressDone(p.data, img, r, cut, opacityThreshold, lightThreshold, fill, forTag, pixelY, pixelX);
  }

  /**
   * One marking of the main loop: `pixelsData[pixelY][xIndex] &= ~bit` for
   * fill -1 or `|= bit` for fill 0, `bit` being `1 << -(pixelX + 1)`.
   * Cell (pixelY, pixelX) becomes clear exactly when fill is -1; no other
   * cell changes.
   */
  method MarkCell(g: Rows, pixelY: int, pixelX: int, xIndex: int, fill: Fill) returns (g': Rows)
    requires Stored(g, pixelY, pixelX) && xIndex == pixelX / 32
    ensures |g'| == |g| && forall row :: 0 <= row < |g| ==> |g'[row]| == |g[row]|
    ensures forall row, col :: (CellAt(g', row, col, Zero()) <==>
              if row == pixelY && col == pixelX then fill == Clear else CellAt(g, row, col, Zero()))
  {
    var bit := Shl(One(), ShiftCount(-(pixelX + 1)));
    var wd := g[pixelY][xIndex];
    MarkWord(wd, pixelX, fill);
    if fill == Set {
      wd := And(wd, Not(bit));
    } else {
      wd := Or(wd, bit);
    }
    g' := SetWord(g, pixelY, xIndex, wd);
    CellUpdate(g, pixelY, pixelX, wd, fill == Clear);
  }

  /** Once every cell has been scanned, each stored cell holds its extracted value. */
  lemma ProgressDone(g: Rows, img: ImageData, r: Ratio, cut: bool, opacityThreshold: int, lightThreshold: int,
                     fill: Fill, forTag: bool, pixelY: int, pixelX: int)
    requires ProgressHolds(g, img, r, cut, opacityThreshold, lightThreshold, fill, forTag, pixelY, pixelX)
    requires |g| == Cells(img.height, r) && (pixelY >= |g| || Cells(img.width, r) == 0)
    ensures forall row, col :: 0 <= row < |g| && 0 <= col < 32 * |g[row]| ==>
      (CellAt(g, row, col, Zero()) <==> ExtractBit(img, r, cut, opacityThreshold, lightThreshold, fill, forTag, row, col))
  {
    forall row, col | 0 <= row < |g| && 0 <= col < 32 * |g[row]|
      ensures CellAt(g, row, col, Zero()) <==> ExtractBit(img, r, cut, opacityThreshold, lightThreshold, fill, forTag, row, col)
    {
      assert Progress(img, r, cut, opacityThreshold, lightThreshold, fill, forTag, pixelY, pixelX, row, col)
         <==> ExtractBit(img, r, cut, opacityThreshold, lightThreshold, fill, forTag, row, col);
    }
  }
}
