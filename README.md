# Tag-cloud packing engine, modelled in Dafny

This project models the packing core of `TagCloud` (`src/tagCloud.ts`). The
engine lays weighted text labels onto a canvas so that they never overlap.
It keeps an occupancy grid of bit-packed 32-bit words, one bit per
`pixelRatio` x `pixelRatio` block of device pixels. It reduces the raster
of each label to a mask of the same layout. It searches expanding rings
around the centre for the first position where the mask meets no set grid
bit, then ORs the mask into the grid there.

The modules follow the parts of the engine:

- `Bits`: 32-bit words as 32 booleans, most significant bit first, with `|`, `&`, `~`, `<<` and `>>>`.
- `Js`: the JavaScript number operations the code relies on. These are `%` and `>> 0`, which truncate toward zero, shift counts taken modulo 32, `Math.ceil` of a quotient, and `Math.round`.
- `Grid`: the `Pixels` structure and `generatePixels`, including the padding bits of a row's last word.
- `Occupancy`: the word-level collision test and merge of `tryPlaceTag`, and what they mean cell by cell.
- `Search`: the sequence of positions `placeTag` tries, and the outcome of trying them in order.
- `Extract`: `getPixelsFromImgData`, the down-sampling of an RGBA buffer into a mask or a grid.
- `Schedule`: the weight bounds, the font size, the angle, and the stable sort by descending weight.
- `Binary`: `binaryStrIfy`.
- `Cloud`: the `TagCloud` class. Its `pixels`, `maxTagWeight` and `minTagWeight` are updated in place by `Shape`, `TryPlaceTag`, `PlaceTag`, `HandleTag` and `Draw`.

The imperative parts of the source are methods with loops: the two loop
nests of `tryPlaceTag`, the ring walk of `placeTag`, the countdown scan of
`getPixelsFromImgData`, the row loop of `generatePixels`, and the bounds loop
and tag loop of `draw`. Each method is proved against a specification
function, and the properties of those functions are proved as lemmas.

Behaviour of the code that a reader might not expect, and that the model
keeps:

- `draw` returns its records in sorted order, heaviest first, not in the caller's order. It also sorts the caller's array in place (`tags.sort`, line 139).
- The record of a tag never carries its placement. `handleTag` builds it with `x: -1, y: -1, rendered: false` and never updates it, even when `placeTag` succeeds.
- The weight bounds live on the instance. They start at `0` and `Infinity`, and they carry over from batch to batch.
- Because the maximum starts at `0`, a batch whose tags all share one negative weight gets the rounded minimum font size, not the rounded midpoint.
- A mask image and a drawn shape are read as a `width` x `width` region (`getImageData(0, 0, width, width)`), so such a grid has `ceil(width / pixelRatio)` rows.
- A tag whose rotated, padded box truncates to width or height 0 passes the size test, but `getImageData` (lines 449-454) throws for an empty region. `handleTag` then throws, and `draw` rejects after changing the bounds, the order of the array and the grid for the tags before it. With `padding: 0`, a text that measures empty does this. The model returns `None` from `HandleTag` and `Draw` in that case.

## Model

| member | source | states |
|---|---|---|
| Bits.Or | src/tagCloud.ts:374-377 | bit k of `a \| b` is set exactly when bit k of a or of b is |
| Bits.Shl | src/tagCloud.ts:363 | `a << s` moves bit k + s to bit k and fills with zeros |
| Bits.Shr | src/tagCloud.ts:374 | `a >>> s` moves bit k - s to bit k and fills with zeros |
| Bits.OverlapIff | src/tagCloud.ts:363 | `(window & word) !== 0` exactly when the two words share a set bit |
| Js.Rem | src/tagCloud.ts:354 | `pixelsX % 32` takes the sign of pixelsX and reconstructs it with the truncated quotient |
| Js.RemShift | src/tagCloud.ts:354-377 | a shift by a negative `pixelsX % 32`, or by 32 minus it, shifts by the Euclidean remainder |
| Js.CeilDiv | src/tagCloud.ts:177-181 | `Math.ceil(a / b)` is the least c with a <= c * b |
| Js.Round | src/tagCloud.ts:212-217 | `Math.round` gives the nearest integer, with halves rounded up |
| Grid.TailFillBits | src/tagCloud.ts:182-183 | in a row's last word, cells hold `fill`; for the grid, padding bits past the last cell are clear under `cut` and set otherwise |
| Grid.TailFill | src/tagCloud.ts:182-183 | the value of a row's last word: `fill`, or for the grid with a partial last word `fill & (-1 << 32 - tailOffset)` under `cut` and `fill \| (-1 >>> tailOffset)` otherwise |
| Grid.Blank | src/tagCloud.ts:176-194 | the structure `generatePixels` returns: the surface size, and `ceil(height/r)` rows of `fill` words whose last word is the tail fill |
| Grid.BlankCells | src/tagCloud.ts:170-195 | `generatePixels` has `ceil(height/r)` rows of `ceil(ceil(width/r)/32)` words; every cell holds `fill`; padding follows the policy |
| Grid.GeneratePixels | src/tagCloud.ts:170-195 | the row loop builds exactly the structure `Blank` describes |
| Occupancy.CombineBit | src/tagCloud.ts:355-363 | bit k of `current << offset \| (next & fix) >>> 32 - offset` is bit k + offset (mod 32) of the word pair |
| Occupancy.WindowBit | src/tagCloud.ts:356-363 | bit k of the window for mask word j is the grid cell at column `pixelsX + 32j + k`, read as `out` beyond the stored words |
| Occupancy.Collides | src/tagCloud.ts:359-363 | mask word j of row i collides: the window read from the grid row, with `out` for missing rows and words, shares a set bit with it |
| Occupancy.Fits | src/tagCloud.ts:358-367 | the check phase passes: no mask word collides |
| Occupancy.CollidesIff | src/tagCloud.ts:358-367 | a mask word collides exactly when one of its set bits lands on a set grid cell |
| Occupancy.FitsIff | src/tagCloud.ts:358-367 | the check phase passes exactly when no set mask bit lands on a set cell, with off-grid cells reading as `out` |
| Occupancy.PlacedRows | src/tagCloud.ts:369-380 | the merge keeps the number of rows and the length of every row |
| Occupancy.Placed | src/tagCloud.ts:369-380 | the grid after the merge phase, every mask row ORed into the grid row it lands on |
| Occupancy.MergeWordBit | src/tagCloud.ts:372-378 | after ORing in `target >>> offset` and `target << 32 - offset`, a grid bit is set iff it was set or the mask bit landing on it is |
| Occupancy.PlacedCell | src/tagCloud.ts:369-380 | after the merge, a stored cell is set iff it was set before or a set mask bit lands on it |
| Occupancy.PlacedFrame | src/tagCloud.ts:369-380 | the merge writes only the mask's rows, and in them only words `floor(pixelsX/32)` to `floor(pixelsX/32) + len` |
| Occupancy.BoundedOffGridRefused | src/tagCloud.ts:357-363 | without `cut`, a set mask bit landing outside the stored words makes the check fail |
| Occupancy.CutOffGridIgnored | src/tagCloud.ts:357-363 | with `cut`, a mask bit landing outside the stored words never collides |
| Occupancy.EmptyGridFits | src/tagCloud.ts:109 | on a fresh `generatePixels(width, height, 0, false)` grid with `cut`, every mask fits everywhere |
| Occupancy.PlacedRefusesRepeat | src/tagCloud.ts:358-380 | once a mask is merged, the same mask at the same place collides if any of its set bits landed on a stored word |
| Search.Dir | src/tagCloud.ts:313-314 | a drawn direction is 1 or -1 |
| Search.StartX | src/tagCloud.ts:299 | the centred start column `(width - pixels.width) / 2 >> 0` |
| Search.StartY | src/tagCloud.ts:300 | the centred start row `(height - pixels.height) / 2 >> 0` |
| Search.EndLen | src/tagCloud.ts:302 | the round limit `max(startX, width - startX, startY, height - startY) / pixelRatio + 1 >> 0` |
| Search.XLeg | src/tagCloud.ts:317-326 | the positions an x leg tries: `rest` strides of `xDir * pixelRatio`, skipping those off the board, or none when y is off the board |
| Search.YLeg | src/tagCloud.ts:329-340 | the positions a y leg tries: `rest` strides of `yDir * pixelRatio`, skipping those off the board, or none when x is off the board |
| Search.Rounds | src/tagCloud.ts:316-344 | the positions tried from round `step` on while `step >> 1 < endLen`: the x leg, then the y half from the leg's end with xDir flipped |
| Search.YPart | src/tagCloud.ts:328-344 | the y leg of a round followed by the rounds after it, with yDir flipped and step + 1 |
| Search.Probes | src/tagCloud.ts:299-344 | every position `placeTag` tries, in order: the centred start, then the rounds from step 1 |
| Search.FirstFit | src/tagCloud.ts:304-345 | the first position in the list at which `tryPlaceTag`'s check passes, or none |
| Search.EndLenPositive | src/tagCloud.ts:302 | on a canvas of non-negative size, endLen is at least 1 |
| Search.FirstFitNone | src/tagCloud.ts:345 | the search finds nothing exactly when no tried position passes the check |
| Search.FirstFitSome | src/tagCloud.ts:307-340 | what the search finds is a tried position that passes while no earlier one does |
| Search.FirstFitAppend | src/tagCloud.ts:316-344 | the first fit of two runs of positions is the first run's fit, or the second run's when the first has none |
| Search.XLegFirst | src/tagCloud.ts:320-326 | an x leg stops at its next on-board position that fits, else goes on with one stride fewer |
| Search.YLegFirst | src/tagCloud.ts:333-340 | a y leg stops at its next on-board position that fits, else goes on with one stride fewer |
| Search.RoundsFirst | src/tagCloud.ts:316-331 | a round finds the x leg's fit when the leg is walked, else continues after the x flip |
| Search.YPartFirst | src/tagCloud.ts:328-344 | the y half finds the y leg's fit when walked, else continues with the flipped y direction and step + 1 |
| Search.ProbesFirst | src/tagCloud.ts:304-311 | the centred start is taken when it fits, else the rounds from step 1 are searched |
| Search.RoundsReachable | src/tagCloud.ts:316-344 | the rounds try at most `Budget` positions, all on the board and on the stride lattice |
| Search.BudgetClosed | src/tagCloud.ts:316-343 | that budget is `(2 endLen - step)(2 endLen + step - 1)` |
| Search.ProbesReachable | src/tagCloud.ts:299-344 | the start is tried first; every later position is on the board and a whole number of `pixelRatio` strides from the start; at most `1 + (2 endLen - 1) 2 endLen` positions are tried |
| Search.EmptyGridTakesStart | src/tagCloud.ts:299-309 | on a fresh grid with `cut`, the search stops at the centred start |
| Search.OutcomeKeeps | src/tagCloud.ts:369-380 | a search keeps the grid's shape and never clears a set cell |
| Extract.Edge | src/tagCloud.ts:479-480 | `size % pixelRatio \|\| pixelRatio` lies between 1 and pixelRatio |
| Extract.BlockInside | src/tagCloud.ts:479-494 | every pixel of every clipped block lies inside the image |
| Extract.BlockCovers | src/tagCloud.ts:479-494 | each pixel belongs to the block of cell `floor(px / r)` and to no other |
| Extract.ScanIndex | src/tagCloud.ts:482-495 | the byte offset the scan computes addresses pixel `(col r + dx, row r + dy)`, and all four bytes exist |
| Extract.ScanBlock | src/tagCloud.ts:488-522 | the inner scan finds an ink pixel exactly when the clipped block holds one |
| Extract.NegShift | src/tagCloud.ts:505-507 | `1 << -(pixelX + 1)` shifts by `31 - pixelX mod 32` |
| Extract.MarkWord | src/tagCloud.ts:504-508 | `&= ~bit` clears and `\|= bit` sets bit `pixelX mod 32` and leaves the rest |
| Extract.MarkCell | src/tagCloud.ts:504-508 | one marking changes cell (pixelY, pixelX) only, clearing it for fill -1 and setting it for fill 0 |
| Extract.CountdownBounds | src/tagCloud.ts:474-528 | while the countdown is positive, (pixelY, pixelX) is a real cell, and it ends past the last row |
| Extract.GetPixelsFromImgData | src/tagCloud.ts:458-535 | the result keeps the image's size and the `generatePixels` shape, and every bit is what `ExtractBit` says |
| Extract.ExtractionUnique | src/tagCloud.ts:458-535 | that contract determines the result completely |
| Extract.ExtractionIs | src/tagCloud.ts:458-535 | the result equals the cell-by-cell `Extraction` |
| Extract.ExtractionChanges | src/tagCloud.ts:467-529 | a bit differs from `generatePixels` iff the cell is real and its block holds ink; then it is set for fill 0 and clear for fill -1 |
| Schedule.WidenBounds | src/tagCloud.ts:129-137 | the bounds only widen, enclose every weight seen, and each is its old value or one of the weights |
| Schedule.Widen | src/tagCloud.ts:129-137 | the bounds after the loop has seen the weights in order, each raising the maximum or lowering the minimum |
| Schedule.FontSizeMonotone | src/tagCloud.ts:209-217 | with `minFontSize <= maxFontSize`, a heavier tag never gets a smaller font |
| Schedule.FontSizeRange | src/tagCloud.ts:209-217 | inside the bounds the size lies between the rounded extremes; the lightest weight gets the minimum and the heaviest the maximum |
| Schedule.FontSize | src/tagCloud.ts:209-217 | `round(minFontSize + (maxFontSize - minFontSize) * (weight - min) / (max - min))` when the spread is positive, else the rounded midpoint |
| Schedule.UniformWeights | src/tagCloud.ts:129-217 | for a fresh cloud and one shared weight w, every size is the rounded midpoint if w >= 0, else the rounded minimum |
| Schedule.AngleIndexRange | src/tagCloud.ts:219 | `(Math.random() * angleCount) >> 0` is a step index below angleCount |
| Schedule.AngleChoices | src/tagCloud.ts:219-223 | without its own angle, a tag gets one of angleCount evenly spaced angles from angleFrom to angleTo inclusive |
| Schedule.AngleFixed | src/tagCloud.ts:220-223 | a tag's own angle is used as it is; angleCount 1 means angleFrom |
| Schedule.Angle | src/tagCloud.ts:219-223 | the tag's own angle, else angleFrom for angleCount 1, else step `(rand * angleCount) >> 0` of angleCount - 1 from angleFrom to angleTo |
| Schedule.InsertMultiset | src/tagCloud.ts:139 | an insertion step of the sort adds exactly the inserted tag |
| Schedule.InsertDescending | src/tagCloud.ts:139 | an insertion step keeps the sequence heaviest first |
| Schedule.InsertOfWeight | src/tagCloud.ts:139 | an insertion step puts a tag after the tags it ties with |
| Schedule.SortDescOrdered | src/tagCloud.ts:139 | the sort returns a permutation, heaviest first |
| Schedule.SortDescStable | src/tagCloud.ts:139 | the sort keeps tags of equal weight in their original order |
| Schedule.SortDescSpec | src/tagCloud.ts:139 | permutation, descending and stable together |
| Schedule.SortDesc | src/tagCloud.ts:139 | `tags.sort((a, b) => b.weight - a.weight)`, a stable sort by descending weight, keeping the length |
| Binary.NonNegativePrint | src/tagCloud.ts:577-579 | a word with its top bit clear prints as its 32 digits, padded with zeros |
| Binary.BinaryStrIfy | src/tagCloud.ts:576-582 | a non-negative number as its binary digits after `32 - length` zeros, a negative one as the digits of `2^32` plus it |
| Binary.NegativePrint | src/tagCloud.ts:581 | a word with its top bit set prints as the digits of `2^32` plus its value |
| Binary.BinaryStrIfyBits | src/tagCloud.ts:576-582 | the output has 32 characters, and character k is '1' iff bit k of the word is set |
| Cloud.RatioOf | src/tagCloud.ts:80 | the ratio is `Math.round(pixelRatio)`, or 1 for a pixelRatio below 1 |
| Cloud.Defaults | src/tagCloud.ts:43-59 | the default options; the light threshold is `((255 * 3) / 2) >> 0` and the ratio they give is 4 |
| Cloud.DefaultGrid | src/tagCloud.ts:43-59 | a default cloud without a mask image starts from 125 rows of 4 words with every bit clear |
| Cloud.Oversized | src/tagCloud.ts:419-421 | the box is taller than `options.height` or wider than `options.width` |
| Cloud.Throws | src/tagCloud.ts:419-454 | a box that passed the size test is empty, so `getImageData` throws |
| Cloud.Result | src/tagCloud.ts:239-247 | the record: text, weight, font size, angle, at (-1, -1), not rendered |
| Cloud.Rejects | src/tagCloud.ts:141-146 | some tag of the sorted batch throws in `handleTag`, so `draw` rejects |
| Cloud.TagCloud.constructor | src/tagCloud.ts:68-110 | bounds start at 0 and Infinity; the grid is `generatePixels(width, height, 0, false)`, or read from the mask image with fill -1 |
| Cloud.TagCloud.Shape | src/tagCloud.ts:152-168 | the grid becomes the drawn shape read with thresholds 2 and 765 and fill -1; with `width` 0 the read throws and the grid stays |
| Cloud.CheckWord | src/tagCloud.ts:361-363 | one word test on the row copy is `Collides` |
| Cloud.CollisionRead | src/tagCloud.ts:359-363 | reading a missing row as `[]` and missing words as `out` gives the window `Collides` uses |
| Cloud.CheckRow | src/tagCloud.ts:359-366 | the inner check loop hits exactly when some word of the mask row collides |
| Cloud.CheckPhase | src/tagCloud.ts:358-367 | the first loop nest succeeds exactly when the mask fits |
| Cloud.MergeStep | src/tagCloud.ts:372-378 | one inner merge turn extends the merged row by one mask word |
| Cloud.MergeInto | src/tagCloud.ts:371-379 | the inner merge loop yields the row with the whole mask row ORed in |
| Cloud.PlacedRowsStep | src/tagCloud.ts:370-379 | merging a mask row into an existing grid row extends the merged grid by one row |
| Cloud.PlacedRowsSkip | src/tagCloud.ts:370 | a mask row with no grid row (`[]`) changes nothing |
| Cloud.MergePhase | src/tagCloud.ts:369-380 | the second loop nest yields `Placed`, whose cells `PlacedCell` describes |
| Cloud.TagCloud.TryPlaceTag | src/tagCloud.ts:348-382 | succeeds iff the mask fits at `(floor(x/r), floor(y/r))`; on success the grid is the merged grid, on failure it is untouched |
| Cloud.TagCloud.WalkX | src/tagCloud.ts:317-326 | an x leg returns the leg's first fit with the mask merged there, or none with the grid untouched and x at the leg's end |
| Cloud.TagCloud.WalkY | src/tagCloud.ts:329-340 | a y leg returns the leg's first fit with the mask merged there, or none with the grid untouched and y at the leg's end |
| Cloud.TagCloud.Round | src/tagCloud.ts:316-344 | one loop turn returns the round's first fit with the mask merged, or continues from the new position, directions and step + 1 with the grid untouched |
| Cloud.TagCloud.PlaceTag | src/tagCloud.ts:293-346 | returns the first fitting probe with the mask merged there, or (-1, -1) with the grid unchanged |
| Cloud.TagCloud.HandleTag | src/tagCloud.ts:197-291 | the record holds the text, weight, interpolated font size and chosen angle, at (-1, -1), not rendered; the grid is unchanged for an oversized box, else `placeTag`'s outcome for the tag's mask; an empty box throws (None) and leaves the grid |
| Cloud.TagCloud.WidenWeights | src/tagCloud.ts:129-137 | the bounds loop leaves the bounds widened over the batch's weights in order |
| Cloud.SortTags | src/tagCloud.ts:139 | the array holds the stable descending sort of its old contents |
| Cloud.TagCloud.HandleAll | src/tagCloud.ts:141-146 | one record per sorted tag, in order, and the grid folded through `handleTag` tag by tag; the first tag that throws stops the loop and the call yields None |
| Cloud.TagCloud.Draw | src/tagCloud.ts:124-150 | an empty batch returns nothing; otherwise the bounds widen, the array is sorted in place, and the tags are handled in sorted order with one record each, or the call rejects (None) when a tag throws, keeping the bounds, the order and the placements before it |
| Cloud.PackedKeeps | src/tagCloud.ts:141-146 | across a batch the grid keeps its shape and no set cell is ever cleared |
| Cloud.PackedStep | src/tagCloud.ts:141-146 | handling the next tag of the loop either ends the fold with the grid as it stands (the tag throws) or places that tag and goes on with the rest |
| Cloud.ResultsOrdered | src/tagCloud.ts:139-149 | the records are a permutation of the batch, heaviest first, and each reads (-1, -1), not rendered |
| Cloud.ResultsFontSizes | src/tagCloud.ts:139-217 | with `minFontSize <= maxFontSize`, record font sizes never grow along the result |

## Left out

- Canvas plumbing is not modelled: creating canvases, appending them to the container, `destory`, `getCtx`, `getOffscreenCtx`, `printPixels`, colours, painting the placed text, and the debug overlay and timers. None of it feeds the packing.
- Text measurement, trigonometry and rasterisation in `getTagPixels` are not modelled. They are the `Render` parameter of `HandleTag` and `Draw`, which gives the truncated box size and the RGBA raster for a text, font size and angle. The oversize test on that box (lines 419-421) is modelled.
- Cloud.TagCloud.HandleTag: requires that the rendering's raster has the box's size and four bytes per pixel. This is what the canvas's `getImageData` guarantees, not a demand of the source.
- Cloud.TagCloud.Draw: requires the same of every rendering, for the same reason.
- Cloud.TagCloud.constructor: with a mask image and `width` 0, the source's read throws inside the image's load handler, so `draw` never settles. The model reads an empty grid instead.
- The merge of partial options over the defaults (`{ ...this.defaultOptions, ...options }`, line 78) is not modelled. The constructor takes the merged options.
- `Math.random` is not modelled as a generator. The three numbers each tag draws are the `Draws` parameter: the angle step, the x direction and the y direction. The colour draw is left out with the colours.
- Loading a mask image asynchronously, the `await this.promised` in `draw`, and a decode failure are not modelled. The constructor takes the decoded image as an optional parameter, and `loadMaskImage` (lines 545-569) becomes reading it with fill -1.
- The grid before a mask image has loaded (`width: 0, height: 0, data: []`) is not modelled, because the constructor sets the grid at once.
- Words are 32 booleans, not JavaScript numbers. Values beyond 32 bits do not arise, because every word the engine stores comes out of a 32-bit operator.
- Positions and sizes are unbounded integers. The model does not capture what `>> 0` does to values beyond the signed 32-bit range.
- The source's `tryPlaceTag` ORs into the row arrays of the grid in place, through the alias `yData`. The model reassigns the grid value, which is the same result, since nothing else refers to those rows.
- `handleTag` ignores the position that `placeTag` returns; the model keeps it in `PlaceTag`'s result and states it there.
- Floating point is modelled by exact reals for font sizes, weights and angles, so rounding error in `minFontSize + (maxFontSize - minFontSize) * ratio` is not captured. NaN weights are not modelled.
- The options `family` and `debug` are not modelled, because they feed only the parts left out above. `padding` is kept in `Options`, but it only feeds the rendering.
