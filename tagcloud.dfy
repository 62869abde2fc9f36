/**
 * The `TagCloud` object: its options, its occupancy grid and its running
 * weight bounds, and the operations that update them in place.
 *
 * Canvas work is not modelled: the image a mask is read from, the text
 * rasterised for a tag, and the random numbers drawn are parameters.
 */
module Cloud {
  import opened Bits
  import opened Js
  import opened Grid
  import opened Occupancy
  import opened Search
  import opened Extract
  import opened Schedule
  import opened Wrappers

  /** The options that drive the packing. */
  datatype Options = Options(
    width: nat, height: nat, pixelRatio: real,
    lightThreshold: int, opacityThreshold: int,
    minFontSize: real, maxFontSize: real,
    angleFrom: real, angleTo: real, angleCount: int,
    cut: bool, padding: real)

  /**
   * The default options: a 500 x 500 board in blocks of 4 pixels, the
   * light threshold `((255 * 3) / 2) >> 0`, fonts from 10 to 100, three
   * angles from -60 to 60, the cut policy and a padding of 10.
   */
  function Defaults(): (o: Options)
    ensures o.lightThreshold == Quot(255 * 3, 2)
    ensures RatioOf(o.pixelRatio) == 4
  {
    Options(500, 500, 4.0, 382, 255, 10.0, 100.0, -60.0, 60.0, 3, true, 10.0)
  }

  /** `Math.round(Math.max(pixelRatio, 1))` */
  function RatioOf(pixelRatio: real): (r: Ratio)
    ensures pixelRatio >= 1.0 ==> r == Round(pixelRatio)
    ensures pixelRatio < 1.0 ==> r == 1
  {
    Round(if pixelRatio >= 1.0 then pixelRatio else 1.0)
  }

  /** A placed tag as `handleTag` reports it. */
  datatype TagData = TagData(text: string, weight: real, fontSize: int, angle: real, x: int, y: int, rendered: bool)

  /** The random numbers drawn for one tag: its angle step, its x direction and its y direction. */
  datatype Draws = Draws(angle: real, xDir: real, yDir: real)

  /** The thresholds a tag's own raster is read with: `getPixelsFromImgData(imgData, 2, 255 * 3)`. */
  const TagOpacity: int := 2
  const TagLight: int := 255 * 3

  /** `pixelHeight > options.height || pixelWidth > options.width`: the tag cannot fit at all. */
  predicate Oversized(o: Options, pixelWidth: int, pixelHeight: int)
  {
    pixelHeight > o.height || pixelWidth > o.width
  }

  /** The search geometry for a mask on a board of the options' size. */
  function GeometryOf(o: Options, r: Ratio, mask: Pixels): Geometry
  {
    Geometry(o.width, o.height, mask.width, mask.height, r)
  }

  /**
   * What the canvas gives for one tag at a font size and an angle: the
   * truncated size of the rotated, padded text box and the RGBA raster of
   * that box.
   */
  datatype Rendering = Rendering(pixelWidth: int, pixelHeight: int, img: ImageData)

  /** The text renderer, as a function of the text, the font size and the angle. */
  type Render = (string, int, real) -> Rendering

  /** A rendering whose raster has the box's size and four bytes per pixel. */
  predicate Renders(shot: Rendering)
  {
    shot.pixelWidth >= 0 && shot.pixelHeight >= 0
    && shot.img.width == shot.pixelWidth && shot.img.height == shot.pixelHeight && WellFormed(shot.img)
  }

  /** The font size `handleTag` gives a tag under the current weight bounds. */
  function TagFontSize(o: Options, b: Weights, t: Tag): int
  {
    FontSize(o.minFontSize, o.maxFontSize, b, t.weight)
  }

  /** The angle `handleTag` gives a tag, with the angle draw d. */
  function TagAngle(o: Options, t: Tag, d: Draws): real
  {
    Angle(t.angle, d.angle, o.angleCount, o.angleFrom, o.angleTo)
  }

  /**
   * The record `handleTag` returns. The position found by `placeTag` is
   * never written into it, so it always reads (-1, -1) and not rendered.
   */
  function Result(o: Options, b: Weights, t: Tag, d: Draws): TagData
  {
    TagData(t.text, t.weight, TagFontSize(o, b, t), TagAngle(o, t, d), -1, -1, false)
  }

  /** The records `draw` returns for the sorted tags ts, with the draws ds. */
  function Results(o: Options, b: Weights, ts: seq<Tag>, ds: seq<Draws>): (rs: seq<TagData>)
    requires |ds| == |ts|
    ensures |rs| == |ts|
  {
    seq(|ts|, i requires 0 <= i < |ts| => Result(o, b, ts[i], ds[i]))
  }

  /** The mask of a tag: its raster read with thresholds 2 and 765, fill 0, as a tag. */
  ghost function TagMask(o: Options, r: Ratio, shot: Rendering): Pixels
  {
    Extraction(shot.img, r, o.cut, TagOpacity, TagLight, Clear, true)
  }

  /**
   * `handleTag` throws: the box passed the size test but is empty, and
   * `getImageData` refuses a region of width or height 0.
   */
  predicate Throws(o: Options, shot: Rendering)
  {
    !Oversized(o, shot.pixelWidth, shot.pixelHeight) && (shot.pixelWidth == 0 || shot.pixelHeight == 0)
  }

  /**
   * The grid after `handleTag`: unchanged for an oversized tag or an empty
   * box, otherwise what `placeTag` leaves with the tag's mask.
   */
  ghost function Handled(o: Options, r: Ratio, g: Rows, shot: Rendering, d: Draws): Rows
  {
    if Oversized(o, shot.pixelWidth, shot.pixelHeight) || Throws(o, shot) then g
    else
      var mask := TagMask(o, r, shot);
      Outcome(g, mask.data, r, o.cut, Probes(GeometryOf(o, r, mask), Dir(d.xDir), Dir(d.yDir))).1
  }

  /** What the canvas gives for tag i of ts, with the draws ds[i]. */
  function ShotAt(o: Options, b: Weights, ts: seq<Tag>, ds: seq<Draws>, render: Render, i: int): Rendering
    requires |ds| == |ts| && 0 <= i < |ts|
  {
    render(ts[i].text, TagFontSize(o, b, ts[i]), TagAngle(o, ts[i], ds[i]))
  }

  /** Some tag of the batch makes `handleTag` throw, so `draw` rejects. */
  predicate Rejects(o: Options, b: Weights, ts: seq<Tag>, ds: seq<Draws>, render: Render)
    requires |ds| == |ts|
  {
    exists i :: 0 <= i < |ts| && Throws(o, ShotAt(o, b, ts, ds, render, i))
  }

  /** The grid after the tags ts have been handled in order, up to the first tag that throws. */
  ghost function Packed(o: Options, r: Ratio, b: Weights, g: Rows, ts: seq<Tag>, ds: seq<Draws>, render: Render): Rows
    requires |ds| == |ts|
    decreases |ts|
  {
    if ts == [] then g
    else
      var shot := ShotAt(o, b, ts, ds, render, 0);
      if Throws(o, shot) then g
      else Packed(o, r, b, Handled(o, r, g, shot, ds[0]), ts[1..], ds[1..], render)
  }

  class TagCloud {
    const options: Options
    /** `options.pixelRatio` after the constructor has rounded it. */
    const ratio: Ratio
    var pixels: Pixels
    var maxTagWeight: real
    var minTagWeight: Bound

    /**
     * Without a mask image the grid is `generatePixels(width, height, 0, false)`;
     * with one it is read from the image (a `width` x `width` region) with
     * fill -1. The weight bounds start at 0 and `Infinity`.
     */
    constructor(o: Options, maskImage: Option<ImageData>)
      requires maskImage.Some? ==> WellFormed(maskImage.value)
      requires maskImage.Some? ==> maskImage.value.width == o.width && maskImage.value.height == o.width
      ensures options == o && ratio == RatioOf(o.pixelRatio)
      ensures maxTagWeight == 0.0 && minTagWeight == Infinity
      ensures maskImage.None? ==> pixels == Blank(o.width, o.height, ratio, o.cut, Clear, false)
      ensures maskImage.Some? ==>
                IsExtraction(pixels, maskImage.value, ratio, o.cut, o.opacityThreshold, o.lightThreshold, Set, false)
    {
      options := o;
      ratio := RatioOf(o.pixelRatio);
      maxTagWeight := 0.0;
      minTagWeight := Infinity;
      new;
      if maskImage.Some? {
        pixels := GetPixelsFromImgData(maskImage.value, ratio, o.cut, o.opacityThreshold, o.lightThreshold, Set, false);
      } else {
        pixels := GeneratePixels(o.width, o.height, ratio, o.cut, Clear, false);
      }
    }

    /**
     * `shape`: the grid becomes the shape drawn on the cleared offscreen
     * canvas, read as a `width` x `width` region with thresholds 2 and 765
     * and fill -1. With `width` 0 the read throws and the grid stays.
     */
    method Shape(img: ImageData) returns (thrown: bool)
      requires WellFormed(img) && img.width == options.width && img.height == options.width
      modifies this`pixels
      ensures thrown <==> options.width == 0
      ensures thrown ==> pixels == old(pixels)
      ensures !thrown ==> IsExtraction(pixels, img, ratio, options.cut, TagOpacity, TagLight, Set, false)
    {
      if options.width == 0 {
        return true;
      }
      pixels := GetPixelsFromImgData(img, ratio, options.cut, TagOpacity, TagLight, Set, false);
      thrown := false;
    }

    /**
     * `tryPlaceTag`: checks every mask word against the grid window under
     * it and fails without touching the grid on the first collision;
     * otherwise ORs the mask into the grid and succeeds.
     */
    method TryPlaceTag(mask: Pixels, x: int, y: int) returns (ok: bool)
      modifies this`pixels
      ensures ok <==> FitsAt(old(pixels.data), mask.data, ratio, options.cut, (x, y))
      ensures pixels == if ok then old(pixels).(data := Placed(old(pixels.data), mask.data, x / ratio, y / ratio))
                        else old(pixels)
    {
      var pixelsX := x / ratio;
      var pixelsY := y / ratio;
      ok := CheckPhase(pixels.data, mask.data, pixelsX, pixelsY, options.cut);
      if ok {
        var grid := MergePhase(pixels.data, mask.data, pixelsX, pixelsY);
        pixels := pixels.(data := grid);
      }
    }

    /**
     * `placeTag`: tries the centred start, then walks the expanding rings
     * until `tryPlaceTag` succeeds, and returns where it did, or (-1, -1)
     * with the grid untouched. The directions are drawn from randX and randY.
     */
    method PlaceTag(mask: Pixels, randX: real, randY: real) returns (x: int, y: int)
      modifies this`pixels
      ensures ((x, y), pixels.data)
              == Outcome(old(pixels.data), mask.data, ratio, options.cut,
                         Probes(GeometryOf(options, ratio, mask), Dir(randX), Dir(randY)))
      ensures pixels.width == old(pixels.width) && pixels.height == old(pixels.height)
    {
      var gm := GeometryOf(options, ratio, mask);
      ghost var g0 := pixels.data;
      ghost var target := FirstFit(g0, mask.data, ratio, options.cut, Probes(gm, Dir(randX), Dir(randY)));
      var startX := StartX(gm);
      var startY := StartY(gm);
      var endLen := EndLen(gm);
      x, y := startX, startY;
      ProbesFirst(g0, mask.data, ratio, options.cut, gm, Dir(randX), Dir(randY));
      var ok := TryPlaceTag(mask, x, y);
      if ok {
        return;
      }
      assert target == FirstFit(g0, mask.data, ratio, options.cut, Rounds(gm, x, y, 1, Dir(randX), Dir(randY), endLen));
      var step := 1;
      var xDir := Dir(randX);
      var yDir := Dir(randY);
      while step / 2 < endLen
        invariant step >= 1
        invariant pixels == old(pixels)
        invariant target == FirstFit(g0, mask.data, ratio, options.cut, Rounds(gm, x, y, step, xDir, yDir, endLen))
        decreases 2 * endLen - step
      {
        var found;
        found, x, y, xDir, yDir, step := Round(mask, gm, x, y, step, xDir, yDir, endLen);
        if found {
          return;
        }
      }
      x, y := -1, -1;
    }

    /**
     * One turn of `placeTag`'s loop: an x leg of `step` strides (jumped when
     * y is off the board), the x direction flipped, a y leg of `step`
     * strides (jumped when x is off the board), the y direction flipped and
     * the step grown by one. On failure the search goes on from the new
     * position, directions and step.
     */
    method Round(mask: Pixels, gm: Geometry, x0: int, y0: int, step0: nat, xDir0: int, yDir0: int, endLen: int)
      returns (found: bool, x: int, y: int, xDir: int, yDir: int, step: nat)
      requires gm == GeometryOf(options, ratio, mask) && step0 / 2 < endLen
      modifies this`pixels
      ensures var f := FirstFit(old(pixels.data), mask.data, ratio, options.cut, Rounds(gm, x0, y0, step0, xDir0, yDir0, endLen));
        if found then f == Some((x, y)) && pixels == old(pixels).(data := Placed(old(pixels.data), mask.data, x / ratio, y / ratio))
        else pixels == old(pixels) && step == step0 + 1
             && f == FirstFit(old(pixels.data), mask.data, ratio, options.cut, Rounds(gm, x, y, step, xDir, yDir, endLen))
    {
      ghost var g0 := pixels.data;
      x, y, xDir, yDir, step := x0, y0, xDir0, yDir0, step0;
      if y < -mask.height || y > options.height {
        x := x + xDir * ratio * step;
      } else {
        found, x := WalkX(mask, gm, x, y, xDir * ratio, step);
        if found {
          RoundsFirst(g0, mask.data, ratio, options.cut, gm, x0, y0, step0, xDir0, yDir0, endLen, x, xDir);
          return;
        }
      }
      xDir := -xDir;
      RoundsFirst(g0, mask.data, ratio, options.cut, gm, x0, y0, step0, xDir0, yDir0, endLen, x, xDir);
      ghost var x1, xDir1 := x, xDir;
      if x < -mask.width || x > options.width {
        y := y + yDir * ratio * step;
      } else {
        found, y := WalkY(mask, gm, x, y, yDir * ratio, step);
        if found {
          YPartFirst(g0, mask.data, ratio, options.cut, gm, x1, y0, step0, xDir1, yDir0, endLen, y, yDir, step);
          return;
        }
      }
      yDir := -yDir;
      step := step + 1;
      YPartFirst(g0, mask.data, ratio, options.cut, gm, x1, y0, step0, xDir1, yDir0, endLen, y, yDir, step);
      found := false;
    }

    /**
     * One x leg of `placeTag`: `count` strides of `stride` device pixels,
     * skipping positions off the board, stopping at the first that
     * `tryPlaceTag` accepts.
     */
    method WalkX(mask: Pixels, gm: Geometry, x0: int, y: int, stride: int, count: nat) returns (found: bool, x: int)
      requires gm == GeometryOf(options, ratio, mask)
      modifies this`pixels
      ensures var f := FirstFit(old(pixels.data), mask.data, ratio, options.cut, XLeg(gm, x0, y, stride, count));
        if found then f == Some((x, y)) && pixels == old(pixels).(data := Placed(old(pixels.data), mask.data, x / ratio, y / ratio))
        else f.None? && pixels == old(pixels) && x == x0 + stride * count
    {
      ghost var g0 := pixels.data;
      ghost var target := FirstFit(g0, mask.data, ratio, options.cut, XLeg(gm, x0, y, stride, count));
      var rest := count;
      x := x0;
      while rest != 0
        invariant pixels == old(pixels)
        invariant target == FirstFit(g0, mask.data, ratio, options.cut, XLeg(gm, x, y, stride, rest))
        invariant x + stride * rest == x0 + stride * count
      {
        XLegFirst(g0, mask.data, ratio, options.cut, gm, x, y, stride, rest);
        StrideStep(x, stride, rest);
        rest := rest - 1;
        x := x + stride;
        if x < -mask.width || x > options.width {
          continue;
        }
        var ok := TryPlaceTag(mask, x, y);
        if ok {
          return true, x;
        }
      }
      return false, x;
    }

    /** One y leg of `placeTag`, as `WalkX` with the axes swapped. */
    method WalkY(mask: Pixels, gm: Geometry, x: int, y0: int, stride: int, count: nat) returns (found: bool, y: int)
      requires gm == GeometryOf(options, ratio, mask)
      modifies this`pixels
      ensures var f := FirstFit(old(pixels.data), mask.data, ratio, options.cut, YLeg(gm, x, y0, stride, count));
        if found then f == Some((x, y)) && pixels == old(pixels).(data := Placed(old(pixels.data), mask.data, x / ratio, y / ratio))
        else f.None? && pixels == old(pixels) && y == y0 + stride * count
    {
      ghost var g0 := pixels.data;
      ghost var target := FirstFit(g0, mask.data, ratio, options.cut, YLeg(gm, x, y0, stride, count));
      var rest := count;
      y := y0;
      while rest != 0
        invariant pixels == old(pixels)
        invariant target == FirstFit(g0, mask.data, ratio, options.cut, YLeg(gm, x, y, stride, rest))
        invariant y + stride * rest == y0 + stride * count
      {
        YLegFirst(g0, mask.data, ratio, options.cut, gm, x, y, stride, rest);
        StrideStep(y, stride, rest);
        rest := rest - 1;
        y := y + stride;
        if y < -mask.height || y > options.height {
          continue;
        }
        var ok := TryPlaceTag(mask, x, y);
        if ok {
          return true, y;
        }
      }
      return false, y;
    }

    /**
     * `handleTag`: picks the font size from the current weight bounds and
     * the angle, has the tag rendered, and unless the rotated box is larger
     * than the board reads its mask and places it. The returned record
     * never carries the placement. An empty box that passed the size test
     * makes the read throw (None), with the grid untouched.
     */
    method HandleTag(tag: Tag, d: Draws, render: Render) returns (data: Option<TagData>)
      requires Renders(render(tag.text, TagFontSize(options, Weights(maxTagWeight, minTagWeight), tag), TagAngle(options, tag, d)))
      modifies this`pixels
      ensures var shot := render(tag.text, TagFontSize(options, Weights(maxTagWeight, minTagWeight), tag), TagAngle(options, tag, d));
        && data == (if Throws(options, shot) then None else Some(Result(options, Weights(maxTagWeight, minTagWeight), tag, d)))
        && pixels.data == Handled(options, ratio, old(pixels.data), shot, d)
      ensures pixels.width == old(pixels.width) && pixels.height == old(pixels.height)
    {
      var diffWeights := Weights(maxTagWeight, minTagWeight);
      var fontSize := FontSize(options.minFontSize, options.maxFontSize, diffWeights, tag.weight);
      var angle := Angle(tag.angle, d.angle, options.angleCount, options.angleFrom, options.angleTo);
      data := Some(TagData(tag.text, tag.weight, fontSize, angle, -1, -1, false));
      var shot := render(tag.text, fontSize, angle);
      if Oversized(options, shot.pixelWidth, shot.pixelHeight) {
        return;
      }
      if shot.pixelWidth == 0 || shot.pixelHeight == 0 {
        return None;
      }
      var mask := GetPixelsFromImgData(shot.img, ratio, options.cut, TagOpacity, TagLight, Clear, true);
      ExtractionIs(mask, shot.img, ratio, options.cut, TagOpacity, TagLight, Clear, true);
      var x, y := PlaceTag(mask, d.xDir, d.yDir);
    }

    /**
     * `draw`: nothing for an empty batch; otherwise widens the weight
     * bounds over the batch, sorts the tag array in place by descending
     * weight (stably), and handles the tags in that order, the i-th with
     * the draws ds[i], returning one record per tag. A tag that makes
     * `handleTag` throw rejects the whole call (None); the bounds, the
     * order and the placements made before it stay.
     */
    method Draw(tags: array<Tag>, ds: seq<Draws>, render: Render) returns (result: Option<seq<TagData>>)
      requires |ds| == tags.Length
      requires forall text, fontSize, angle :: Renders(render(text, fontSize, angle))
      modifies this`pixels, this`maxTagWeight, this`minTagWeight, tags
      ensures Weights(maxTagWeight, minTagWeight)
              == Widen(old(Weights(maxTagWeight, minTagWeight)), WeightsOf(old(tags[..])))
      ensures tags[..] == SortDesc(old(tags[..]))
      ensures result == if Rejects(options, Weights(maxTagWeight, minTagWeight), tags[..], ds, render) then None
                        else Some(Results(options, Weights(maxTagWeight, minTagWeight), tags[..], ds))
      ensures pixels.data == Packed(options, ratio, Weights(maxTagWeight, minTagWeight), old(pixels.data), tags[..], ds, render)
      ensures pixels.width == old(pixels.width) && pixels.height == old(pixels.height)
    {
      if tags.Length == 0 {
        return Some([]);
      }
      WidenWeights(tags);
      SortTags(tags);
      result := HandleAll(tags, ds, render);
    }

    /** The bounds loop of `draw`: every weight raises `maxTagWeight` or lowers `minTagWeight` if it lies outside them. */
    method WidenWeights(tags: array<Tag>)
      modifies this`maxTagWeight, this`minTagWeight
      ensures Weights(maxTagWeight, minTagWeight)
              == Widen(old(Weights(maxTagWeight, minTagWeight)), WeightsOf(tags[..]))
    {
      ghost var ws := WeightsOf(tags[..]);
      for i := 0 to tags.Length
        invariant Weights(maxTagWeight, minTagWeight) == Widen(old(Weights(maxTagWeight, minTagWeight)), ws[..i])
      {
        var weight := tags[i].weight;
        assert ws[..i + 1][..i] == ws[..i] && ws[..i + 1][i] == weight;
        ghost var next := Widen1(Weights(maxTagWeight, minTagWeight), weight);
        assert next == Widen(old(Weights(maxTagWeight, minTagWeight)), ws[..i + 1]);
        if weight > maxTagWeight {
          maxTagWeight := weight;
        }
        if minTagWeight.Infinity? || weight < minTagWeight.v {
          minTagWeight := Finite(weight);
        }
        assert Weights(maxTagWeight, minTagWeight) == next;
      }
      assert ws[..tags.Length] == ws;
    }

    /**
     * The loop of `draw` over the sorted tags: one `handleTag` call, and one
     * record, per tag; the first tag that throws ends the loop and the call.
     */
    method HandleAll(tags: array<Tag>, ds: seq<Draws>, render: Render) returns (result: Option<seq<TagData>>)
      requires |ds| == tags.Length
      requires forall text, fontSize, angle :: Renders(render(text, fontSize, angle))
      modifies this`pixels
      ensures result == if Rejects(options, Weights(maxTagWeight, minTagWeight), tags[..], ds, render) then None
                        else Some(Results(options, Weights(maxTagWeight, minTagWeight), tags[..], ds))
      ensures pixels.data == Packed(options, ratio, Weights(maxTagWeight, minTagWeight), old(pixels.data), tags[..], ds, render)
      ensures pixels.width == old(pixels.width) && pixels.height == old(pixels.height)
    {
      ghost var b := Weights(maxTagWeight, minTagWeight);
      ghost var ts := tags[..];
      ghost var g0 := pixels.data;
      var records := [];
      for k := 0 to tags.Length
        invariant |records| == k && forall j :: 0 <= j < k ==> records[j] == Result(options, b, ts[j], ds[j])
        invariant forall j :: 0 <= j < k ==> !Throws(options, ShotAt(options, b, ts, ds, render, j))
        invariant Packed(options, ratio, b, g0, ts, ds, render) == Packed(options, ratio, b, pixels.data, ts[k..], ds[k..], render)
        invariant pixels.width == old(pixels.width) && pixels.height == old(pixels.height)
      {
        ghost var g := pixels.data;
        var data := HandleTag(tags[k], ds[k], render);
        PackedStep(options, ratio, b, g, ts, ds, render, k);
        if data.None? {
          assert Throws(options, ShotAt(options, b, ts, ds, render, k));
          return None;
        }
        records := records + [data.value];
      }
      assert ts[tags.Length..] == [];
      assert records == Results(options, b, ts, ds);
      result := Some(records);
    }
  }

  /** `tags.sort((a, b) => b.weight - a.weight)` on the array itself. */
  method SortTags(tags: array<Tag>)
    modifies tags
    ensures tags[..] == SortDesc(old(tags[..]))
  {
    var sorted := SortDesc(tags[..]);
    SortDescOrdered(tags[..]);
    assert |sorted| == |multiset(sorted)| == tags.Length;
    forall k | 0 <= k < tags.Length {
      tags[k] := sorted[k];
    }
    assert tags[..] == sorted;
  }

  /** One stride taken leaves the end of the leg where it was. */
  lemma StrideStep(v: int, stride: int, rest: int)
    ensures (v + stride) + stride * (rest - 1) == v + stride * rest
  {
  }

  /**
   * The first loop nest of `tryPlaceTag`: reads, for each mask word, the
   * grid window under it (`out` beyond the stored words) and stops at the
   * first overlap.
   */
  method CheckPhase(thisData: Rows, data: Rows, pixelsX: int, pixelsY: int, cut: bool) returns (ok: bool)
    ensures ok <==> Fits(thisData, data, pixelsX, pixelsY, cut)
  {
    for i := 0 to |data|
      invariant forall i', j :: 0 <= i' < i && 0 <= j < |data[i']| ==> !Collides(thisData, data, pixelsX, pixelsY, cut, i', j)
    {
      var hit := CheckRow(thisData, data, pixelsX, pixelsY, cut, i);
      if hit {
        return false;
      }
    }
    return true;
  }

  /** The inner loop of the check for mask row i: stops at the first word that meets a set grid bit. */
  method CheckRow(thisData: Rows, data: Rows, pixelsX: int, pixelsY: int, cut: bool, i: int) returns (hit: bool)
    requires 0 <= i < |data|
    ensures hit <==> !RowClear(thisData, data, pixelsX, pixelsY, cut, i, |data[i]|)
  {
    var yData: seq<Word> := if 0 <= pixelsY + i < |thisData| then thisData[pixelsY + i] else [];
    for j := 0 to |data[i]|
      invariant RowClear(thisData, data, pixelsX, pixelsY, cut, i, j)
    {
      var overlap := CheckWord(thisData, data, pixelsX, pixelsY, cut, i, j, yData);
      if overlap {
        RowClearBlocked(thisData, data, pixelsX, pixelsY, cut, i, j, |data[i]|);
        return true;
      }
      RowClearStep(thisData, data, pixelsX, pixelsY, cut, i, j);
    }
    return false;
  }

  /** One word test of the check loop, on the row copy `yData`. */
  method CheckWord(thisData: Rows, data: Rows, pixelsX: int, pixelsY: int, cut: bool, i: int, j: int, yData: seq<Word>)
    returns (overlap: bool)
    requires 0 <= i < |data| && 0 <= j < |data[i]|
    requires yData == if 0 <= pixelsY + i < |thisData| then thisData[pixelsY + i] else []
    ensures overlap <==> Collides(thisData, data, pixelsX, pixelsY, cut, i, j)
  {
    overlap := WordHits(yData, pixelsX / 32 + j, Rem(pixelsX, 32), Out(cut), data[i][j]);
    CollisionRead(thisData, data, pixelsX, pixelsY, cut, i, j, yData);
  }

  /**
   * The second loop nest of `tryPlaceTag`: ORs each mask word into the grid
   * words it straddles, skipping words the grid does not have.
   */
  method MergePhase(thisData: Rows, data: Rows, pixelsX: int, pixelsY: int) returns (grid: Rows)
    ensures grid == Placed(thisData, data, pixelsX, pixelsY)
  {
    var offset := Rem(pixelsX, 32);
    var xx := pixelsX / 32;
    grid := thisData;
    for i := 0 to |data|
      invariant grid == PlacedRows(thisData, data, pixelsX, pixelsY, i)
    {
      if 0 <= pixelsY + i < |grid| {
        var yData := MergeInto(grid[pixelsY + i], data[i], xx, offset);
        PlacedRowsStep(thisData, data, pixelsX, pixelsY, i, grid, yData);
        grid := grid[pixelsY + i := yData];
      } else {
        PlacedRowsSkip(thisData, data, pixelsX, pixelsY, i);
      }
    }
  }

  /** The inner loop of the merge phase: one mask row ORed into one grid row. */
  method MergeInto(row: seq<Word>, maskRow: seq<Word>, xx: int, offset: int) returns (yData: seq<Word>)
    requires -32 < offset < 32
    ensures yData == MergeRow(row, maskRow, xx, offset, |maskRow|)
  {
    yData := row;
    for j := 0 to |maskRow|
      invariant yData == MergeRow(row, maskRow, xx, offset, j)
    {
      var target := maskRow[j];
      ghost var before := yData;
      if 0 <= xx + j < |yData| {
        yData := yData[xx + j := Or(yData[xx + j], Shr(target, ShiftCount(offset)))];
      }
      if 0 <= xx + j + 1 < |yData| && offset != 0 {
        yData := yData[xx + j + 1 := Or(yData[xx + j + 1], Shl(target, ShiftCount(32 - offset)))];
      }
      MergeStep(row, maskRow, xx, offset, j, before, yData);
    }
  }

  /** Merging mask row i into its grid row extends the merged prefix of the mask by one row. */
  lemma PlacedRowsStep(thisData: Rows, data: Rows, pixelsX: int, pixelsY: int, i: int, grid: Rows, yData: seq<Word>)
    requires 0 <= i < |data| && 0 <= pixelsY + i < |thisData|
    requires grid == PlacedRows(thisData, data, pixelsX, pixelsY, i)
    requires yData == MergeRow(grid[pixelsY + i], data[i], pixelsX / 32, Rem(pixelsX, 32), |data[i]|)
    ensures grid[pixelsY + i := yData] == PlacedRows(thisData, data, pixelsX, pixelsY, i + 1)
  {
    assert grid[pixelsY + i] == thisData[pixelsY + i];
  }

  /** A mask row that falls outside the grid leaves the merged grid as it is. */
  lemma PlacedRowsSkip(thisData: Rows, data: Rows, pixelsX: int, pixelsY: int, i: int)
    requires 0 <= i < |data| && !(0 <= pixelsY + i < |thisData|)
    ensures PlacedRows(thisData, data, pixelsX, pixelsY, i) == PlacedRows(thisData, data, pixelsX, pixelsY, i + 1)
  {
  }

  /** None of the first n words of mask row i collides. */
  ghost predicate RowClear(g: Rows, data: Rows, pixelsX: int, pixelsY: int, cut: bool, i: int, n: int)
    requires 0 <= i < |data| && n <= |data[i]|
  {
    forall j :: 0 <= j < n ==> !Collides(g, data, pixelsX, pixelsY, cut, i, j)
  }

  /** A row clear up to word j whose word j does not collide is clear up to j + 1. */
  lemma RowClearStep(g: Rows, data: Rows, pixelsX: int, pixelsY: int, cut: bool, i: int, j: int)
    requires 0 <= i < |data| && 0 <= j < |data[i]|
    requires RowClear(g, data, pixelsX, pixelsY, cut, i, j)
    requires !Collides(g, data, pixelsX, pixelsY, cut, i, j)
    ensures RowClear(g, data, pixelsX, pixelsY, cut, i, j + 1)
  {
  }

  /** A collision at word j means no prefix past j is clear. */
  lemma RowClearBlocked(g: Rows, data: Rows, pixelsX: int, pixelsY: int, cut: bool, i: int, j: int, n: int)
    requires 0 <= i < |data| && 0 <= j < n <= |data[i]|
    requires Collides(g, data, pixelsX, pixelsY, cut, i, j)
    ensures !RowClear(g, data, pixelsX, pixelsY, cut, i, n)
  {
  }

  /**
   * The word test of the check loop on the row copy `yData`:
   * `(current << offset | next >>> 32 - offset) & maskWord`, with `current`
   * and `next` read as `out` where the row has no word.
   */
  predicate WordHits(yData: seq<Word>, w: int, off: int, out: Word, maskWord: Word)
    requires -32 < off < 32
  {
    var fix := if off != 0 then Ones() else Zero();
    var current := if 0 <= w < |yData| then yData[w] else out;
    var next := And(if 0 <= w + 1 < |yData| then yData[w + 1] else out, fix);
    Overlap(Combine(current, next, off), maskWord)
  }

  /** The word test the check loop makes on its row copy is `Collides`. */
  lemma CollisionRead(g: Rows, data: Rows, pixelsX: int, pixelsY: int, cut: bool, i: int, j: int, yData: seq<Word>)
    requires 0 <= i < |data| && 0 <= j < |data[i]|
    requires yData == if 0 <= pixelsY + i < |g| then g[pixelsY + i] else []
    ensures WordHits(yData, pixelsX / 32 + j, Rem(pixelsX, 32), Out(cut), data[i][j]) == Collides(g, data, pixelsX, pixelsY, cut, i, j)
  {
    var row, w, out := pixelsY + i, pixelsX / 32 + j, Out(cut);
    assert (if 0 <= w < |yData| then yData[w] else out) == WordAt(g, row, w, out);
    assert (if 0 <= w + 1 < |yData| then yData[w + 1] else out) == WordAt(g, row, w + 1, out);
  }

  /** One turn of the merge loop moves the merged row from j mask words to j + 1. */
  lemma MergeStep(row: seq<Word>, maskRow: seq<Word>, xx: int, off: int, j: int, before: seq<Word>, after: seq<Word>)
    requires -32 < off < 32 && 0 <= j < |maskRow|
    requires before == MergeRow(row, maskRow, xx, off, j)
    requires |after| == |before|
    requires forall w :: 0 <= w < |before| && w != xx + j && w != xx + j + 1 ==> after[w] == before[w]
    requires 0 <= xx + j < |before| ==> after[xx + j] == Or(before[xx + j], Shr(maskRow[j], ShiftCount(off)))
    requires 0 <= xx + j + 1 < |before| ==>
               after[xx + j + 1] == if off != 0 then Or(before[xx + j + 1], Shl(maskRow[j], ShiftCount(32 - off))) else before[xx + j + 1]
    ensures after == MergeRow(row, maskRow, xx, off, j + 1)
  {
    var m := MergeRow(row, maskRow, xx, off, j + 1);
    forall w | 0 <= w < |after|
      ensures after[w] == m[w]
    {
    }
  }
  /** Handling tag k of the batch moves the fold of `Packed` on by one tag, or ends it where the tag throws. */
  lemma PackedStep(o: Options, r: Ratio, b: Weights, g: Rows, ts: seq<Tag>, ds: seq<Draws>, render: Render, k: int)
    requires |ds| == |ts| && 0 <= k < |ts|
    ensures var shot := ShotAt(o, b, ts, ds, render, k);
      && (Throws(o, shot) ==> Packed(o, r, b, g, ts[k..], ds[k..], render) == g)
      && (!Throws(o, shot) ==>
            Packed(o, r, b, g, ts[k..], ds[k..], render)
            == Packed(o, r, b, Handled(o, r, g, shot, ds[k]), ts[k + 1..], ds[k + 1..], render))
  {
    assert ts[k..][1..] == ts[k + 1..] && ds[k..][1..] == ds[k + 1..];
    assert ShotAt(o, b, ts[k..], ds[k..], render, 0) == ShotAt(o, b, ts, ds, render, k);
  }

  /** Across a batch the grid keeps its shape and no set cell is ever cleared. */
  lemma {:induction false} PackedKeeps(o: Options, r: Ratio, b: Weights, g: Rows, ts: seq<Tag>, ds: seq<Draws>, render: Render)
    requires |ds| == |ts|
    ensures Keeps(g, Packed(o, r, b, g, ts, ds, render))
    decreases |ts|
  {
    if ts == [] {
      assert Keeps(g, g);
    } else {
      var shot := ShotAt(o, b, ts, ds, render, 0);
      if Throws(o, shot) {
        assert Keeps(g, g);
        return;
      }
      var h := Handled(o, r, g, shot, ds[0]);
      if Oversized(o, shot.pixelWidth, shot.pixelHeight) {
        assert Keeps(g, h);
      } else {
        var mask := TagMask(o, r, shot);
        OutcomeKeeps(g, mask.data, r, o.cut, Probes(GeometryOf(o, r, mask), Dir(ds[0].xDir), Dir(ds[0].yDir)));
      }
      PackedKeeps(o, r, b, h, ts[1..], ds[1..], render);
      KeepsTrans(g, h, Packed(o, r, b, h, ts[1..], ds[1..], render));
    }
  }

  /**
   * The records of a batch come heaviest first, one per tag of the sorted
   * batch, which holds the same tags as the batch; none reports a placement.
   */
  lemma ResultsOrdered(o: Options, b: Weights, ts: seq<Tag>, ds: seq<Draws>)
    requires |ds| == |ts|
    ensures var ss := SortDesc(ts);
      var rs := Results(o, b, ss, ds);
      && |rs| == |ts| && multiset(ss) == multiset(ts)
      && (forall i :: 0 <= i < |rs| ==> rs[i].text == ss[i].text && rs[i].weight == ss[i].weight)
      && (forall i, j :: 0 <= i < j < |rs| ==> rs[i].weight >= rs[j].weight)
      && (forall i :: 0 <= i < |rs| ==> rs[i].x == -1 && rs[i].y == -1 && !rs[i].rendered)
  {
    SortDescSpec(ts);
  }

  /** With `minFontSize <= maxFontSize`, the font sizes of a batch's records never grow from one record to the next. */
  lemma ResultsFontSizes(o: Options, b: Weights, ts: seq<Tag>, ds: seq<Draws>)
    requires |ds| == |ts| && o.minFontSize <= o.maxFontSize
    ensures var rs := Results(o, b, SortDesc(ts), ds);
      forall i, j :: 0 <= i < j < |rs| ==> rs[i].fontSize >= rs[j].fontSize
  {
    SortDescSpec(ts);
    var ss := SortDesc(ts);
    assert |ss| == |multiset(ss)| == |ts|;
    var rs := Results(o, b, ss, ds);
    forall i, j | 0 <= i < j < |rs|
      ensures rs[i].fontSize >= rs[j].fontSize
    {
      FontSizeMonotone(o.minFontSize, o.maxFontSize, b, ss[j].weight, ss[i].weight);
    }
  }

  /**
   * A cloud built with the default options and no mask image starts from a
   * grid of 125 rows of 4 words in which every bit, padding included, is
   * clear.
   */
  lemma DefaultGrid()
    ensures var o := Defaults();
      var p := Blank(o.width, o.height, RatioOf(o.pixelRatio), o.cut, Clear, false);
      && |p.data| == 125
      && (forall row :: 0 <= row < 125 ==> |p.data[row]| == 4)
      && (forall row, col :: 0 <= row < 125 && 0 <= col < 128 ==> !CellAt(p.data, row, col, Zero()))
  {
    var o := Defaults();
    BlankCells(o.width, o.height, 4, o.cut, Clear, false, Zero());
    assert Cells(500, 4) == 125;
    assert CeilDiv(125, 32) == 4;
  }
}
