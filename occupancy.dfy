/**
 * The collision test and the merge of `tryPlaceTag`, word by word as the
 * source computes them, and what they mean cell by cell.
 *
 * A mask placed at device position (x, y) starts at grid cell column
 * `X = floor(x / r)` and row `Y = floor(y / r)`. Mask word j of mask row i is
 * compared with the 32 grid cells starting at column `X + 32 * j`, which
 * straddle grid words `floor(X / 32) + j` and `floor(X / 32) + j + 1`.
 */
module Occupancy {
  import opened Bits
  import opened Js
  import opened Grid

  /** Bit c of a mask row; false outside the row's stored words. */
  predicate RowBit(maskRow: seq<Word>, c: int)
  {
    0 <= c && c / 32 < |maskRow| && maskRow[c / 32][c % 32]
  }

  /** Bit c of mask row i; false outside the mask. */
  predicate MaskBit(mask: Rows, i: int, c: int)
  {
    0 <= i < |mask| && RowBit(mask[i], c)
  }

  /**
   * The 32 grid cells seen by a mask word whose first column sits `off`
   * bits into grid word `w`:
   * `current << offset | (next & fix) >>> 32 - offset`, with `off` the
   * source's `pixelsX % 32` (negative when pixelsX is).
   */
  function Window(g: Rows, row: int, w: int, off: int, out: Word): Word
    requires -32 < off < 32
  {
    var fix := if off != 0 then Ones() else Zero();
    Combine(WordAt(g, row, w, out), And(WordAt(g, row, w + 1, out), fix), off)
  }

  /** `(window & maskWord) !== 0`: the two words share a set bit. */
  predicate Overlap(window: Word, maskWord: Word)
  {
    And(window, maskWord) != Zero()
  }

  /** `current << offset | next >>> 32 - offset` */
  function Combine(current: Word, next: Word, off: int): Word
  {
    Or(Shl(current, ShiftCount(off)), Shr(next, ShiftCount(32 - off)))
  }

  /**
   * Mask word j of row i meets a set grid bit when the mask's first cell is
   * grid cell (pixelsX, pixelsY).
   */
  predicate Collides(g: Rows, mask: Rows, pixelsX: int, pixelsY: int, cut: bool, i: int, j: int)
    requires 0 <= i < |mask| && 0 <= j < |mask[i]|
  {
    Overlap(Window(g, pixelsY + i, pixelsX / 32 + j, Rem(pixelsX, 32), Out(cut)), mask[i][j])
  }

  /** The check phase of `tryPlaceTag` passes: no mask word collides. */
  predicate Fits(g: Rows, mask: Rows, pixelsX: int, pixelsY: int, cut: bool)
  {
    forall i, j :: 0 <= i < |mask| && 0 <= j < |mask[i]| ==> !Collides(g, mask, pixelsX, pixelsY, cut, i, j)
  }

  /**
   * Grid word `xx + j` of a target row after the mask words before index n
   * have been merged: it receives `target << 32 - offset` from mask word
   * j - 1 (only when offset is not 0) and then `target >>> offset` from mask
   * word j.
   */
  function MergeWord(before: Word, maskRow: seq<Word>, j: int, off: int, n: int): Word
    requires -32 < off < 32 && n <= |maskRow|
  {
    var low := if off != 0 && 0 <= j - 1 < n then Or(before, Shl(maskRow[j - 1], ShiftCount(32 - off))) else before;
    if 0 <= j < n then Or(low, Shr(maskRow[j], ShiftCount(off))) else low
  }

  /** A grid row after the first n words of its mask row have been merged at word xx. */
  function MergeRow(row: seq<Word>, maskRow: seq<Word>, xx: int, off: int, n: int): (m: seq<Word>)
    requires -32 < off < 32 && n <= |maskRow|
    ensures |m| == |row|
  {
    seq(|row|, w requires 0 <= w < |row| => MergeWord(row[w], maskRow, w - xx, off, n))
  }

  /** The grid after the mask rows before n have been merged at cell (pixelsX, pixelsY). */
  function PlacedRows(g: Rows, mask: Rows, pixelsX: int, pixelsY: int, n: int): (p: Rows)
    ensures |p| == |g|
    ensures forall row :: 0 <= row < |g| ==> |p[row]| == |g[row]|
  {
    seq(|g|, row requires 0 <= row < |g| =>
      if 0 <= row - pixelsY < n && row - pixelsY < |mask|
      then MergeRow(g[row], mask[row - pixelsY], pixelsX / 32, Rem(pixelsX, 32), |mask[row - pixelsY]|)
      else g[row])
  }

  /** The grid after the merge phase of `tryPlaceTag`. */
  function Placed(g: Rows, mask: Rows, pixelsX: int, pixelsY: int): Rows
  {
    PlacedRows(g, mask, pixelsX, pixelsY, |mask|)
  }

  lemma DivMod32(q: int, m: int)
    requires 0 <= m < 32
    ensures (32 * q + m) / 32 == q && (32 * q + m) % 32 == m
  {
  }

  /**
   * Bit k of `current << offset | (next & fix) >>> 32 - offset` is bit
   * k + offset of the pair (current, next), with the offset taken mod 32.
   */
  lemma CombineBit(current: Word, next: Word, off: int, k: int)
    requires -32 < off < 32 && 0 <= k < 32
    ensures var o := ShiftCount(off);
      Combine(current, And(next, if off != 0 then Ones() else Zero()), off)[k] <==>
        if k + o < 32 then current[k + o] else next[k + o - 32]
  {
    var o := ShiftCount(off);
    if off != 0 {
      assert o != 0;
      assert ShiftCount(32 - off) == 32 - o;
    }
  }

  /**
   * Bit k of the window for mask word j is the grid cell the mask's column
   * `32 * j + k` lands on, reading `out` beyond the stored words.
   */
  lemma WindowBit(g: Rows, row: int, pixelsX: int, j: int, out: Word, k: int)
    requires 0 <= k < 32
    ensures Window(g, row, pixelsX / 32 + j, Rem(pixelsX, 32), out)[k] <==> CellAt(g, row, pixelsX + 32 * j + k, out)
  {
    RemShift(pixelsX);
    var o := pixelsX % 32;
    var w := pixelsX / 32 + j;
    var col := pixelsX + 32 * j + k;
    assert col == 32 * w + (o + k);
    CombineBit(WordAt(g, row, w, out), WordAt(g, row, w + 1, out), Rem(pixelsX, 32), k);
    if o + k < 32 {
      DivMod32(w, o + k);
    } else {
      assert col == 32 * (w + 1) + (o + k - 32);
      DivMod32(w + 1, o + k - 32);
    }
  }

  /**
   * Mask bit c of row i is set and lands on a set grid cell (or, beyond the
   * grid, on a word that reads as set).
   */
  predicate Hit(g: Rows, mask: Rows, pixelsX: int, pixelsY: int, cut: bool, i: int, c: int)
  {
    MaskBit(mask, i, c) && CellAt(g, pixelsY + i, pixelsX + c, Out(cut))
  }

  /** Mask word j of row i collides exactly when one of its 32 bits hits. */
  lemma CollidesIff(g: Rows, mask: Rows, pixelsX: int, pixelsY: int, cut: bool, i: int, j: int)
    requires 0 <= i < |mask| && 0 <= j < |mask[i]|
    ensures Collides(g, mask, pixelsX, pixelsY, cut, i, j) <==>
              exists c :: 32 * j <= c < 32 * j + 32 && Hit(g, mask, pixelsX, pixelsY, cut, i, c)
  {
    var win := Window(g, pixelsY + i, pixelsX / 32 + j, Rem(pixelsX, 32), Out(cut));
    OverlapIff(win, mask[i][j]);
    forall k | 0 <= k < 32
      ensures (win[k] && mask[i][j][k]) <==> Hit(g, mask, pixelsX, pixelsY, cut, i, 32 * j + k)
    {
      WindowBit(g, pixelsY + i, pixelsX, j, Out(cut), k);
      DivMod32(j, k);
    }
    if Collides(g, mask, pixelsX, pixelsY, cut, i, j) {
      var k :| 0 <= k < 32 && win[k] && mask[i][j][k];
      assert Hit(g, mask, pixelsX, pixelsY, cut, i, 32 * j + k);
    }
    if c :| 32 * j <= c < 32 * j + 32 && Hit(g, mask, pixelsX, pixelsY, cut, i, c) {
      assert c == 32 * j + (c - 32 * j);
      assert win[c - 32 * j] && mask[i][j][c - 32 * j];
    }
  }

  /**
   * The check phase passes exactly when no set mask bit lands on a set grid
   * cell, where cells beyond the grid read as `Out(cut)`.
   */
  lemma FitsIff(g: Rows, mask: Rows, pixelsX: int, pixelsY: int, cut: bool)
    ensures Fits(g, mask, pixelsX, pixelsY, cut) <==> forall i, c :: !Hit(g, mask, pixelsX, pixelsY, cut, i, c)
  {
    if Fits(g, mask, pixelsX, pixelsY, cut) {
      forall i, c | MaskBit(mask, i, c)
        ensures !Hit(g, mask, pixelsX, pixelsY, cut, i, c)
      {
        var j := c / 32;
        CollidesIff(g, mask, pixelsX, pixelsY, cut, i, j);
      }
    } else {
      var i, j :| 0 <= i < |mask| && 0 <= j < |mask[i]| && Collides(g, mask, pixelsX, pixelsY, cut, i, j);
      CollidesIff(g, mask, pixelsX, pixelsY, cut, i, j);
    }
  }

  /** Bit b of a merged word, in terms of the two mask words that can reach it. */
  lemma MergeWordParts(before: Word, maskRow: seq<Word>, j: int, off: int, o: int, b: int)
    requires -32 < off < 32 && 0 <= o < 32 && 0 <= b < 32
    requires ShiftCount(off) == o && (off != 0 <==> o != 0) && (o != 0 ==> ShiftCount(32 - off) == 32 - o)
    ensures MergeWord(before, maskRow, j, off, |maskRow|)[b] <==>
              || before[b]
              || (b < o && 0 <= j - 1 < |maskRow| && maskRow[j - 1][32 + b - o])
              || (b >= o && 0 <= j < |maskRow| && maskRow[j][b - o])
  {
    var n := |maskRow|;
    var lowOn := off != 0 && 0 <= j - 1 < n;
    var low := if lowOn then Or(before, Shl(maskRow[j - 1], ShiftCount(32 - off))) else before;
    assert low[b] <==> before[b] || (lowOn && b < o && maskRow[j - 1][32 + b - o]);
  }

  /** Bit b of a merged word is set when it was before or mask column c = 32 j + b - o lands on it. */
  lemma MergeWordColumn(before: Word, maskRow: seq<Word>, j: int, off: int, o: int, b: int, c: int)
    requires -32 < off < 32 && 0 <= o < 32 && 0 <= b < 32
    requires ShiftCount(off) == o && (off != 0 <==> o != 0) && (o != 0 ==> ShiftCount(32 - off) == 32 - o)
    requires c == 32 * j + b - o
    ensures MergeWord(before, maskRow, j, off, |maskRow|)[b] <==> before[b] || RowBit(maskRow, c)
  {
    MergeWordParts(before, maskRow, j, off, o, b);
    if b >= o {
      RowBitAt(maskRow, c, j, b - o);
    } else {
      RowBitAt(maskRow, c, j - 1, 32 + b - o);
    }
  }

  /** The bit of grid column col after the merge, in terms of the mask column `col - pixelsX` that lands on it. */
  lemma MergeWordBit(before: Word, maskRow: seq<Word>, pixelsX: int, col: int)
    ensures MergeWord(before, maskRow, col / 32 - pixelsX / 32, Rem(pixelsX, 32), |maskRow|)[col % 32]
            <==> before[col % 32] || RowBit(maskRow, col - pixelsX)
  {
    ShiftOfRem(pixelsX);
    ColSplit(col);
    MergeWordColumn(before, maskRow, col / 32 - pixelsX / 32, Rem(pixelsX, 32), pixelsX % 32, col % 32, col - pixelsX);
  }

  /** The shift counts the merge uses for an offset `pixelsX % 32`, in terms of `pixelsX mod 32`. */
  lemma ShiftOfRem(p: int)
    ensures var off, o := Rem(p, 32), p % 32;
      && -32 < off < 32 && ShiftCount(off) == o && (off != 0 <==> o != 0)
      && (o != 0 ==> ShiftCount(32 - off) == 32 - o)
      && p == 32 * (p / 32) + o
  {
    RemShift(p);
  }

  /** Column c = 32 q + m of a mask row is bit m of its word q. */
  lemma RowBitAt(maskRow: seq<Word>, c: int, q: int, m: int)
    requires 0 <= m < 32 && c == 32 * q + m
    ensures RowBit(maskRow, c) <==> 0 <= q < |maskRow| && maskRow[q][m]
  {
    DivMod32(q, m);
  }

  /**
   * After the merge, a stored grid cell is set exactly when it was set before
   * or a set mask bit lands on it: bits are only added, every mask bit that
   * lands on a stored word is written, and nothing else changes.
   */
  lemma PlacedCell(g: Rows, mask: Rows, pixelsX: int, pixelsY: int, row: int, col: int)
    requires Stored(g, row, col)
    ensures Placed(g, mask, pixelsX, pixelsY)[row][col / 32][col % 32] <==>
              g[row][col / 32][col % 32] || MaskBit(mask, row - pixelsY, col - pixelsX)
  {
    var i := row - pixelsY;
    var w, b := col / 32, col % 32;
    var p := Placed(g, mask, pixelsX, pixelsY);
    PlacedWord(g, mask, pixelsX, pixelsY, row, w);
    if 0 <= i < |mask| {
      MergeWordBit(g[row][w], mask[i], pixelsX, col);
      assert p[row][w][b] <==> g[row][w][b] || RowBit(mask[i], col - pixelsX);
    } else {
      assert p[row][w] == g[row][w];
      assert !MaskBit(mask, i, col - pixelsX);
    }
  }

  lemma ColSplit(col: int)
    ensures col == 32 * (col / 32) + col % 32
  {
  }

  /** Word w of a grid row after the merge: merged when the row meets a mask row, else as it was. */
  lemma PlacedWord(g: Rows, mask: Rows, pixelsX: int, pixelsY: int, row: int, w: int)
    requires 0 <= row < |g| && 0 <= w < |g[row]|
    ensures var i := row - pixelsY;
      Placed(g, mask, pixelsX, pixelsY)[row][w]
      == if 0 <= i < |mask| then MergeWord(g[row][w], mask[i], w - pixelsX / 32, Rem(pixelsX, 32), |mask[i]|) else g[row][w]
  {
  }

  /**
   * The merge writes only the mask's rows, and in them only the words from
   * `floor(pixelsX / 32)` to `floor(pixelsX / 32) + len`, where len is the
   * mask row's word count.
   */
  lemma PlacedFrame(g: Rows, mask: Rows, pixelsX: int, pixelsY: int, row: int, w: int)
    requires 0 <= row < |g| && 0 <= w < |g[row]|
    requires var i := row - pixelsY;
      !(0 <= i < |mask| && 0 <= w - pixelsX / 32 <= |mask[i]|)
    ensures Placed(g, mask, pixelsX, pixelsY)[row][w] == g[row][w]
  {
  }

  /**
   * Under the bounded policy a set mask bit that lands outside the stored
   * words always collides, so the tag is refused.
   */
  lemma BoundedOffGridRefused(g: Rows, mask: Rows, pixelsX: int, pixelsY: int, i: int, c: int)
    requires MaskBit(mask, i, c) && !Stored(g, pixelsY + i, pixelsX + c)
    ensures !Fits(g, mask, pixelsX, pixelsY, false)
  {
    assert Hit(g, mask, pixelsX, pixelsY, false, i, c);
    FitsIff(g, mask, pixelsX, pixelsY, false);
  }

  /**
   * Under the cut policy a mask bit that lands outside the stored words
   * never collides, and the merge leaves the grid's shape as it was, so
   * such a bit is dropped.
   */
  lemma CutOffGridIgnored(g: Rows, mask: Rows, pixelsX: int, pixelsY: int, i: int, c: int)
    requires !Stored(g, pixelsY + i, pixelsX + c)
    ensures !Hit(g, mask, pixelsX, pixelsY, true, i, c)
  {
  }

  /**
   * On a grid fresh from `generatePixels(width, height, 0, false)` under the
   * cut policy every cell and every padding bit is clear, so any mask fits
   * anywhere: the first placement always succeeds.
   */
  lemma EmptyGridFits(width: nat, height: nat, r: Ratio, mask: Rows, pixelsX: int, pixelsY: int)
    ensures Fits(Blank(width, height, r, true, Clear, false).data, mask, pixelsX, pixelsY, true)
  {
    var g := Blank(width, height, r, true, Clear, false).data;
    BlankCells(width, height, r, true, Clear, false, Zero());
    forall i, c | MaskBit(mask, i, c)
      ensures !Hit(g, mask, pixelsX, pixelsY, true, i, c)
    {
      var row, col := pixelsY + i, pixelsX + c;
      if Stored(g, row, col) {
        assert !BlankCell(width, r, true, Clear, false, col);
        assert 0 <= col < 32 * |g[row]|;
      }
    }
    FitsIff(g, mask, pixelsX, pixelsY, true);
  }

  /**
   * Once a mask has been merged, the same mask at the same place is refused
   * as soon as one of its set bits landed on a stored word.
   */
  lemma PlacedRefusesRepeat(g: Rows, mask: Rows, pixelsX: int, pixelsY: int, cut: bool, i: int, c: int)
    requires MaskBit(mask, i, c) && Stored(g, pixelsY + i, pixelsX + c)
    ensures !Fits(Placed(g, mask, pixelsX, pixelsY), mask, pixelsX, pixelsY, cut)
  {
    var p := Placed(g, mask, pixelsX, pixelsY);
    var row, col := pixelsY + i, pixelsX + c;
    PlacedCell(g, mask, pixelsX, pixelsY, row, col);
    assert Stored(p, row, col);
    CellAtStored(p, row, col, Out(cut));
    assert Hit(p, mask, pixelsX, pixelsY, cut, i, c);
    var j := c / 32;
    CollidesIff(p, mask, pixelsX, pixelsY, cut, i, j);
    assert Collides(p, mask, pixelsX, pixelsY, cut, i, j);
  }
}
