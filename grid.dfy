/**
 * The bit-packed `Pixels` structure shared by the occupancy grid and by tag
 * masks: `ceil(height / pixelRatio)` rows, each of
 * `ceil(ceil(width / pixelRatio) / 32)` words, one bit per cell of
 * `pixelRatio` x `pixelRatio` device pixels.
 */
module Grid {
  import opened Bits
  import opened Js

  type Rows = seq<seq<Word>>

  /** Surface size in device pixels, and the packed rows. */
  datatype Pixels = Pixels(width: int, height: int, data: Rows)

  /** The two fill values the source allows: `0` (every bit clear) and `-1` (every bit set). */
  datatype Fill = Clear | Set

  function FillWord(f: Fill): Word
  {
    if f == Set then Ones() else Zero()
  }

  /** The down-sampling ratio after the constructor's `Math.round(Math.max(pixelRatio, 1))`. */
  type Ratio = r: int | r >= 1 witness 1

  /** What a missing row or word reads as: free under `cut`, blocked otherwise. */
  function Out(cut: bool): Word
  {
    if cut then Zero() else Ones()
  }

  /** Word w of row `row`, or `out` where the row or the word does not exist. */
  function WordAt(g: Rows, row: int, w: int, out: Word): Word
  {
    if 0 <= row < |g| && 0 <= w < |g[row]| then g[row][w] else out
  }

  /** Cell (row, col) has a word in g. */
  predicate Stored(g: Rows, row: int, col: int)
  {
    0 <= row < |g| && 0 <= col / 32 < |g[row]|
  }

  /** The bit for cell (row, col), reading `out` beyond the stored words. */
  predicate CellAt(g: Rows, row: int, col: int, out: Word)
  {
    WordAt(g, row, col / 32, out)[col % 32]
  }

  /** Reading through `WordAt` at a stored cell sees the stored bit. */
  lemma CellAtStored(g: Rows, row: int, col: int, out: Word)
    requires Stored(g, row, col)
    ensures CellAt(g, row, col, out) <==> g[row][col / 32][col % 32]
  {
  }

  /** The cell count along one side: `Math.ceil(size / pixelRatio)`. */
  function Cells(size: nat, r: Ratio): nat
  {
    CeilDiv(size, r)
  }

  /**
   * The value of a row's last word: `fill`, except that for the grid
   * (`forTag` false) the padding bits past the last cell are cleared under
   * `cut` and set otherwise.
   */
  function TailFill(fill: Fill, forTag: bool, cut: bool, tailOffset: int): Word
    requires 0 <= tailOffset < 32
  {
    if forTag || tailOffset == 0 then FillWord(fill)
    else if cut then And(FillWord(fill), Shl(Ones(), ShiftCount(32 - tailOffset)))
    else Or(FillWord(fill), Shr(Ones(), ShiftCount(tailOffset)))
  }

  /** Bit k of the last word: `fill` for the cells, the padding policy past them. */
  lemma TailFillBits(fill: Fill, forTag: bool, cut: bool, t: int, k: int)
    requires 0 <= t < 32 && 0 <= k < 32
    ensures TailFill(fill, forTag, cut, t)[k] <==>
              if forTag || t == 0 || k < t then fill == Set else !cut
  {
    var f := FillWord(fill);
    assert f[k] <==> fill == Set;
    if !forTag && t != 0 {
      if cut {
        assert ShiftCount(32 - t) == 32 - t;
        assert Shl(Ones(), 32 - t)[k] <==> k < t;
        assert TailFill(fill, forTag, cut, t) == And(f, Shl(Ones(), 32 - t));
      } else {
        assert ShiftCount(t) == t;
        assert Shr(Ones(), t)[k] <==> k >= t;
        assert TailFill(fill, forTag, cut, t) == Or(f, Shr(Ones(), t));
      }
    }
  }

  /** The value every bit of a freshly generated cell at column col holds. */
  predicate BlankCell(width: nat, r: Ratio, cut: bool, fill: Fill, forTag: bool, col: int)
  {
    if forTag || col < Cells(width, r) then fill == Set else !cut
  }

  function BlankRow(len: nat, fill: Fill, tail: Word): seq<Word>
  {
    var f := FillWord(fill);
    seq(len, k => if k == len - 1 then tail else f)
  }

  /** What `generatePixels(width, height, fill, forTag)` returns. */
  function Blank(width: nat, height: nat, r: Ratio, cut: bool, fill: Fill, forTag: bool): Pixels
  {
    var cols := Cells(width, r);
    var row := BlankRow(CeilDiv(cols, 32), fill, TailFill(fill, forTag, cut, cols % 32));
    Pixels(width, height, seq(Cells(height, r), _ => row))
  }

  /**
   * The shape and the content of a generated structure: every cell holds
   * `fill`, and the padding past the last cell of a grid row is clear under
   * `cut` and set otherwise.
   */
  lemma BlankCells(width: nat, height: nat, r: Ratio, cut: bool, fill: Fill, forTag: bool, out: Word)
    ensures var p := Blank(width, height, r, cut, fill, forTag);
      && p.width == width && p.height == height
      && |p.data| == Cells(height, r)
      && (forall row :: 0 <= row < |p.data| ==> |p.data[row]| == CeilDiv(Cells(width, r), 32))
      && (forall row, col :: 0 <= row < |p.data| && 0 <= col < 32 * |p.data[row]| ==>
            (CellAt(p.data, row, col, out) <==> BlankCell(width, r, cut, fill, forTag, col)))
  {
    var p := Blank(width, height, r, cut, fill, forTag);
    var cols := Cells(width, r);
    var len := CeilDiv(cols, 32);
    forall row, col | 0 <= row < |p.data| && 0 <= col < 32 * |p.data[row]|
      ensures CellAt(p.data, row, col, out) <==> BlankCell(width, r, cut, fill, forTag, col)
    {
      var w := p.data[row][col / 32];
      assert CellAt(p.data, row, col, out) == w[col % 32];
      if col / 32 == len - 1 {
        TailFillBits(fill, forTag, cut, cols % 32, col % 32);
      } else {
        assert w == FillWord(fill);
      }
    }
  }

  /** `generatePixels`: builds the rows one by one. */
  method GeneratePixels(width: nat, height: nat, r: Ratio, cut: bool, fill: Fill, forTag: bool)
    returns (p: Pixels)
    ensures p == Blank(width, height, r, cut, fill, forTag)
  {
    var pixelXLength := CeilDiv(width, r);
    var pixelYLength := CeilDiv(height, r);
    var data: Rows := [];
    var len := CeilDiv(pixelXLength, 32);
    var tailOffset := pixelXLength % 32;
    var tailFill := TailFill(fill, forTag, cut, tailOffset);
    for i := 0 to pixelYLength
      invariant |data| == i
      invariant forall k :: 0 <= k < i ==> data[k] == BlankRow(len, fill, tailFill)
    {
      var f := FillWord(fill);
      var xData := seq(len, _ => f);
      if len > 0 {
        xData := xData[len - 1 := tailFill];
      }
      assert forall k :: 0 <= k < len ==> xData[k] == BlankRow(len, fill, tailFill)[k];
      data := data + [xData];
    }
    p := Pixels(width, height, data);
  }
}
