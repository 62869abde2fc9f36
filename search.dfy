/**
 * The expanding-ring search of `placeTag`, as the sequence of positions it
 * hands to `tryPlaceTag`, and the outcome of trying them in order.
 *
 * The search starts at the centred position, then walks legs that alternate
 * between x and y, each `step` strides of `pixelRatio` device pixels long,
 * with `step` growing by one per round and each direction flipping after its
 * leg. A leg whose fixed coordinate is off the board is jumped in one move;
 * inside a leg, positions off the board are skipped. The board for a tag of
 * size (pw, ph) is `[-pw, width] x [-ph, height]`.
 */
module Search {
  import opened Js
  import opened Grid
  import opened Occupancy
  import opened Wrappers

  type Pos = (int, int)

  /** The canvas size, the tag's pixel size and the pixel ratio. */
  datatype Geometry = Geometry(width: int, height: int, pw: int, ph: int, r: Ratio)

  /** A direction: `Math.random() < 0.5 ? 1 : -1`. */
  function Dir(rand: real): (d: int)
    ensures d == 1 || d == -1
  {
    if rand < 0.5 then 1 else -1
  }

  /** `(width - pixels.width) / 2 >> 0` */
  function StartX(gm: Geometry): int
  {
    Quot(gm.width - gm.pw, 2)
  }

  /** `(height - pixels.height) / 2 >> 0` */
  function StartY(gm: Geometry): int
  {
    Quot(gm.height - gm.ph, 2)
  }

  /** `Math.max(startX, width - startX, startY, height - startY) / pixelRatio + 1 >> 0` */
  function EndLen(gm: Geometry): int
  {
    var sx, sy := StartX(gm), StartY(gm);
    Trunc(Max(Max(sx, gm.width - sx), Max(sy, gm.height - sy)) as real / gm.r as real + 1.0)
  }

  /** x is not skipped: `!(x < -pixelsWidth || x > width)`. */
  predicate InX(gm: Geometry, x: int)
  {
    -gm.pw <= x <= gm.width
  }

  /** y is not skipped: `!(y < -pixelsHeight || y > height)`. */
  predicate InY(gm: Geometry, y: int)
  {
    -gm.ph <= y <= gm.height
  }

  /** The positions tried by an x leg of `rest` strides of `stride` device pixels from x. */
  function XLeg(gm: Geometry, x: int, y: int, stride: int, rest: nat): seq<Pos>
    decreases rest
  {
    if rest == 0 then []
    else
      var nx := x + stride;
      (if InX(gm, nx) then [(nx, y)] else []) + XLeg(gm, nx, y, stride, rest - 1)
  }

  /** The positions tried by a y leg of `rest` strides of `stride` device pixels from y. */
  function YLeg(gm: Geometry, x: int, y: int, stride: int, rest: nat): seq<Pos>
    decreases rest
  {
    if rest == 0 then []
    else
      var ny := y + stride;
      (if InY(gm, ny) then [(x, ny)] else []) + YLeg(gm, x, ny, stride, rest - 1)
  }

  /**
   * The positions tried from round `step` on, starting at (x, y) with
   * directions xDir and yDir: the loop runs while `step >> 1 < endLen`.
   */
  function Rounds(gm: Geometry, x: int, y: int, step: nat, xDir: int, yDir: int, endLen: int): seq<Pos>
    decreases 2 * endLen - step, 1
  {
    if step / 2 >= endLen then []
    else
      (if InY(gm, y) then XLeg(gm, x, y, xDir * gm.r, step) else [])
        + YPart(gm, x + xDir * gm.r * step, y, step, -xDir, yDir, endLen)
  }

  /** The y leg of round `step` (the x direction already flipped) and the rounds after it. */
  function YPart(gm: Geometry, x: int, y: int, step: nat, xDir: int, yDir: int, endLen: int): seq<Pos>
    requires step / 2 < endLen
    decreases 2 * endLen - step, 0
  {
    (if InX(gm, x) then YLeg(gm, x, y, yDir * gm.r, step) else [])
      + Rounds(gm, x, y + yDir * gm.r * step, step + 1, xDir, -yDir, endLen)
  }

  /** Every position `placeTag` tries, in order: the centred start, then the rounds. */
  function Probes(gm: Geometry, xDir: int, yDir: int): seq<Pos>
  {
    [(StartX(gm), StartY(gm))] + Rounds(gm, StartX(gm), StartY(gm), 1, xDir, yDir, EndLen(gm))
  }

  /** `tryPlaceTag(pixels, x, y)` passes its check phase on grid g. */
  predicate FitsAt(g: Rows, mask: Rows, r: Ratio, cut: bool, p: Pos)
  {
    Fits(g, mask, p.0 / r, p.1 / r, cut)
  }

  /** The first position in ps at which the mask fits, if any. */
  function FirstFit(g: Rows, mask: Rows, r: Ratio, cut: bool, ps: seq<Pos>): Option<Pos>
  {
    if ps == [] then None
    else if FitsAt(g, mask, r, cut, ps[0]) then Some(ps[0])
    else FirstFit(g, mask, r, cut, ps[1..])
  }

  /** What `placeTag` returns and leaves in the grid, given the positions it tries. */
  function Outcome(g: Rows, mask: Rows, r: Ratio, cut: bool, ps: seq<Pos>): (Pos, Rows)
  {
    match FirstFit(g, mask, r, cut, ps)
    case None => ((-1, -1), g)
    case Some(p) => (p, Placed(g, mask, p.0 / r, p.1 / r))
  }

  /** `FirstFit` finds nothing exactly when no position fits. */
  lemma {:induction false} FirstFitNone(g: Rows, mask: Rows, r: Ratio, cut: bool, ps: seq<Pos>)
    ensures FirstFit(g, mask, r, cut, ps).None? <==> forall k :: 0 <= k < |ps| ==> !FitsAt(g, mask, r, cut, ps[k])
    decreases |ps|
  {
    if ps != [] && !FitsAt(g, mask, r, cut, ps[0]) {
      var tail := ps[1..];
      FirstFitNone(g, mask, r, cut, tail);
      if FirstFit(g, mask, r, cut, tail).None? {
        forall k | 0 <= k < |ps|
          ensures !FitsAt(g, mask, r, cut, ps[k])
        {
          if k > 0 {
            assert ps[k] == tail[k - 1];
          }
        }
      } else {
        var k :| 0 <= k < |tail| && FitsAt(g, mask, r, cut, tail[k]);
        assert ps[k + 1] == tail[k];
      }
    }
  }

  /** What `FirstFit` finds is the position at some index k that fits while none before k does. */
  lemma {:induction false} FirstFitSome(g: Rows, mask: Rows, r: Ratio, cut: bool, ps: seq<Pos>)
    requires FirstFit(g, mask, r, cut, ps).Some?
    ensures exists k :: 0 <= k < |ps| && ps[k] == FirstFit(g, mask, r, cut, ps).value && FitsAt(g, mask, r, cut, ps[k])
                        && forall k' :: 0 <= k' < k ==> !FitsAt(g, mask, r, cut, ps[k'])
    decreases |ps|
  {
    if !FitsAt(g, mask, r, cut, ps[0]) {
      var tail := ps[1..];
      FirstFitSome(g, mask, r, cut, tail);
      var k :| 0 <= k < |tail| && tail[k] == FirstFit(g, mask, r, cut, tail).value && FitsAt(g, mask, r, cut, tail[k])
               && forall k' :: 0 <= k' < k ==> !FitsAt(g, mask, r, cut, tail[k']);
      assert forall k' :: 1 <= k' <= k ==> ps[k'] == tail[k' - 1];
      assert ps[k + 1] == tail[k];
    } else {
      assert FitsAt(g, mask, r, cut, ps[0]);
    }
  }

  /** The first fit in a + b is the first fit in a, or, when a has none, the first fit in b. */
  lemma {:induction false} FirstFitAppend(g: Rows, mask: Rows, r: Ratio, cut: bool, a: seq<Pos>, b: seq<Pos>)
    ensures FirstFit(g, mask, r, cut, a + b)
            == if FirstFit(g, mask, r, cut, a).Some? then FirstFit(g, mask, r, cut, a) else FirstFit(g, mask, r, cut, b)
    decreases |a|
  {
    if a == [] {
      assert a + b == b;
    } else {
      assert (a + b)[0] == a[0] && (a + b)[1..] == a[1..] + b;
      FirstFitAppend(g, mask, r, cut, a[1..], b);
    }
  }

  /** The first fit of an x leg: its first position if that is on the board and fits, else the first fit of the rest. */
  lemma XLegFirst(g: Rows, mask: Rows, r: Ratio, cut: bool, gm: Geometry, x: int, y: int, stride: int, rest: nat)
    requires rest > 0
    ensures FirstFit(g, mask, r, cut, XLeg(gm, x, y, stride, rest))
            == if InX(gm, x + stride) && FitsAt(g, mask, r, cut, (x + stride, y)) then Some((x + stride, y))
               else FirstFit(g, mask, r, cut, XLeg(gm, x + stride, y, stride, rest - 1))
  {
    var here := if InX(gm, x + stride) then [(x + stride, y)] else [];
    FirstFitAppend(g, mask, r, cut, here, XLeg(gm, x + stride, y, stride, rest - 1));
    if here != [] {
      assert here[1..] == [];
    }
  }

  /** The first fit of a y leg, as `XLegFirst` with the axes swapped. */
  lemma YLegFirst(g: Rows, mask: Rows, r: Ratio, cut: bool, gm: Geometry, x: int, y: int, stride: int, rest: nat)
    requires rest > 0
    ensures FirstFit(g, mask, r, cut, YLeg(gm, x, y, stride, rest))
            == if InY(gm, y + stride) && FitsAt(g, mask, r, cut, (x, y + stride)) then Some((x, y + stride))
               else FirstFit(g, mask, r, cut, YLeg(gm, x, y + stride, stride, rest - 1))
  {
    var here := if InY(gm, y + stride) then [(x, y + stride)] else [];
    FirstFitAppend(g, mask, r, cut, here, YLeg(gm, x, y + stride, stride, rest - 1));
    if here != [] {
      assert here[1..] == [];
    }
  }

  /**
   * The first fit of a round: in its x leg when the leg is walked and has
   * one, else in the y half of the round, which starts at x1 (the end of the
   * x leg) with the x direction flipped to xDir1.
   */
  lemma RoundsFirst(g: Rows, mask: Rows, r: Ratio, cut: bool, gm: Geometry, x: int, y: int, step: nat, xDir: int, yDir: int,
                    endLen: int, x1: int, xDir1: int)
    requires step / 2 < endLen
    ensures var xs := FirstFit(g, mask, r, cut, XLeg(gm, x, y, xDir * gm.r, step));
      && (InY(gm, y) && xs.Some? ==> FirstFit(g, mask, r, cut, Rounds(gm, x, y, step, xDir, yDir, endLen)) == xs)
      && (!(InY(gm, y) && xs.Some?) && x1 == x + xDir * gm.r * step && xDir1 == -xDir ==>
            FirstFit(g, mask, r, cut, Rounds(gm, x, y, step, xDir, yDir, endLen))
            == FirstFit(g, mask, r, cut, YPart(gm, x1, y, step, xDir1, yDir, endLen)))
  {
    var xs := if InY(gm, y) then XLeg(gm, x, y, xDir * gm.r, step) else [];
    var later := YPart(gm, x + xDir * gm.r * step, y, step, -xDir, yDir, endLen);
    assert Rounds(gm, x, y, step, xDir, yDir, endLen) == xs + later;
    FirstFitAppend(g, mask, r, cut, xs, later);
  }

  /**
   * The first fit of the y half of a round: in its y leg when the leg is
   * walked and has one, else in the later rounds, which start at y1 (the end
   * of the y leg) with step1 = step + 1 and the y direction flipped to yDir1.
   */
  lemma YPartFirst(g: Rows, mask: Rows, r: Ratio, cut: bool, gm: Geometry, x: int, y: int, step: nat, xDir: int, yDir: int,
                   endLen: int, y1: int, yDir1: int, step1: nat)
    requires step / 2 < endLen
    ensures var ys := FirstFit(g, mask, r, cut, YLeg(gm, x, y, yDir * gm.r, step));
      && (InX(gm, x) && ys.Some? ==> FirstFit(g, mask, r, cut, YPart(gm, x, y, step, xDir, yDir, endLen)) == ys)
      && (!(InX(gm, x) && ys.Some?) && y1 == y + yDir * gm.r * step && yDir1 == -yDir && step1 == step + 1 ==>
            FirstFit(g, mask, r, cut, YPart(gm, x, y, step, xDir, yDir, endLen))
            == FirstFit(g, mask, r, cut, Rounds(gm, x, y1, step1, xDir, yDir1, endLen)))
  {
    var ys := if InX(gm, x) then YLeg(gm, x, y, yDir * gm.r, step) else [];
    var later := Rounds(gm, x, y + yDir * gm.r * step, step + 1, xDir, -yDir, endLen);
    assert YPart(gm, x, y, step, xDir, yDir, endLen) == ys + later;
    FirstFitAppend(g, mask, r, cut, ys, later);
  }

  /** The first fit of the probes: the start if it fits, else the first fit of the rounds. */
  lemma ProbesFirst(g: Rows, mask: Rows, r: Ratio, cut: bool, gm: Geometry, xDir: int, yDir: int)
    ensures FirstFit(g, mask, r, cut, Probes(gm, xDir, yDir))
            == if FitsAt(g, mask, r, cut, (StartX(gm), StartY(gm))) then Some((StartX(gm), StartY(gm)))
               else FirstFit(g, mask, r, cut, Rounds(gm, StartX(gm), StartY(gm), 1, xDir, yDir, EndLen(gm)))
  {
    var ps := Probes(gm, xDir, yDir);
    assert ps[1..] == Rounds(gm, StartX(gm), StartY(gm), 1, xDir, yDir, EndLen(gm));
  }

  function Stride(k: int, r: Ratio): int
  {
    k * r
  }

  /** v is a whole number of strides of r away from s. */
  ghost predicate OnLattice(v: int, s: int, r: Ratio)
  {
    exists k :: v == s + Stride(k, r)
  }

  lemma LatticeJump(v: int, s: int, r: Ratio, d: int, n: int)
    requires OnLattice(v, s, r)
    ensures OnLattice(v + d * r * n, s, r)
  {
    var k :| v == s + Stride(k, r);
    assert v + d * r * n == s + Stride(k + d * n, r);
  }

  /** p is on the board and on the stride lattice through (sx, sy). */
  ghost predicate Reachable(gm: Geometry, sx: int, sy: int, p: Pos)
  {
    InX(gm, p.0) && InY(gm, p.1) && OnLattice(p.0, sx, gm.r) && OnLattice(p.1, sy, gm.r)
  }

  lemma {:induction false} XLegReachable(gm: Geometry, sx: int, sy: int, x: int, y: int, d: int, rest: nat)
    requires OnLattice(x, sx, gm.r) && OnLattice(y, sy, gm.r) && InY(gm, y)
    ensures |XLeg(gm, x, y, d * gm.r, rest)| <= rest
    ensures forall p :: p in XLeg(gm, x, y, d * gm.r, rest) ==> Reachable(gm, sx, sy, p)
    decreases rest
  {
    if rest > 0 {
      LatticeJump(x, sx, gm.r, d, 1);
      XLegReachable(gm, sx, sy, x + d * gm.r, y, d, rest - 1);
    }
  }

  lemma {:induction false} YLegReachable(gm: Geometry, sx: int, sy: int, x: int, y: int, d: int, rest: nat)
    requires OnLattice(x, sx, gm.r) && OnLattice(y, sy, gm.r) && InX(gm, x)
    ensures |YLeg(gm, x, y, d * gm.r, rest)| <= rest
    ensures forall p :: p in YLeg(gm, x, y, d * gm.r, rest) ==> Reachable(gm, sx, sy, p)
    decreases rest
  {
    if rest > 0 {
      LatticeJump(y, sy, gm.r, d, 1);
      YLegReachable(gm, sx, sy, x, y + d * gm.r, d, rest - 1);
    }
  }

  /** The probe budget of the rounds from `step` on: two legs of `step` strides each. */
  function Budget(step: nat, endLen: int): nat
    decreases 2 * endLen - step
  {
    if step / 2 >= endLen then 0 else 2 * step + Budget(step + 1, endLen)
  }

  lemma {:induction false} RoundsReachable(gm: Geometry, sx: int, sy: int, x: int, y: int, step: nat, xDir: int, yDir: int, endLen: int)
    requires OnLattice(x, sx, gm.r) && OnLattice(y, sy, gm.r)
    ensures |Rounds(gm, x, y, step, xDir, yDir, endLen)| <= Budget(step, endLen)
    ensures forall p :: p in Rounds(gm, x, y, step, xDir, yDir, endLen) ==> Reachable(gm, sx, sy, p)
    decreases 2 * endLen - step
  {
    if step / 2 < endLen {
      var x1 := x + xDir * gm.r * step;
      var y1 := y + yDir * gm.r * step;
      LatticeJump(x, sx, gm.r, xDir, step);
      LatticeJump(y, sy, gm.r, yDir, step);
      if InY(gm, y) {
        XLegReachable(gm, sx, sy, x, y, xDir, step);
      }
      if InX(gm, x1) {
        YLegReachable(gm, sx, sy, x1, y, yDir, step);
      }
      RoundsReachable(gm, sx, sy, x1, y1, step + 1, -xDir, -yDir, endLen);
      var xs := if InY(gm, y) then XLeg(gm, x, y, xDir * gm.r, step) else [];
      var ys := if InX(gm, x1) then YLeg(gm, x1, y, yDir * gm.r, step) else [];
      var later := Rounds(gm, x1, y1, step + 1, -xDir, -yDir, endLen);
      assert Rounds(gm, x, y, step, xDir, yDir, endLen) == xs + (ys + later);
    }
  }

  /** The search tries at most 2 * (1 + 2 + ... + (2 * endLen - 1)) positions after the start. */
  lemma {:induction false} BudgetClosed(step: nat, endLen: int)
    requires 1 <= step <= 2 * endLen
    ensures Budget(step, endLen) == (2 * endLen - step) * (2 * endLen + step - 1)
    decreases 2 * endLen - step
  {
    if step < 2 * endLen {
      BudgetClosed(step + 1, endLen);
      assert (2 * endLen - step) * (2 * endLen + step - 1)
          == 2 * step + (2 * endLen - step - 1) * (2 * endLen + step);
    }
  }

  /** The rounds end once `step >> 1` reaches endLen, which is at least 1 on a real canvas. */
  lemma EndLenPositive(gm: Geometry)
    requires gm.width >= 0 && gm.height >= 0
    ensures EndLen(gm) >= 1
  {
    var sx, sy := StartX(gm), StartY(gm);
    var m := Max(Max(sx, gm.width - sx), Max(sy, gm.height - sy));
    assert m >= 0;
    var q := m as real / gm.r as real;
    assert q >= 0.0;
  }

  /**
   * The search contract on positions: `placeTag` tries the centred start
   * first; every later position is on the board `[-pw, width] x [-ph, height]`
   * and a whole number of `pixelRatio` strides away from the start on each
   * axis; and there are at most `1 + (2 * endLen - 1) * 2 * endLen` of them.
   */
  lemma ProbesReachable(gm: Geometry, xDir: int, yDir: int)
    requires gm.width >= 0 && gm.height >= 0
    ensures var ps := Probes(gm, xDir, yDir);
      && ps[0] == (StartX(gm), StartY(gm))
      && |ps| <= 1 + (2 * EndLen(gm) - 1) * (2 * EndLen(gm))
      && forall k :: 1 <= k < |ps| ==> Reachable(gm, StartX(gm), StartY(gm), ps[k])
  {
    var sx, sy, e := StartX(gm), StartY(gm), EndLen(gm);
    var ps := Probes(gm, xDir, yDir);
    var rounds := Rounds(gm, sx, sy, 1, xDir, yDir, e);
    assert sx == sx + Stride(0, gm.r) && sy == sy + Stride(0, gm.r);
    RoundsReachable(gm, sx, sy, sx, sy, 1, xDir, yDir, e);
    EndLenPositive(gm);
    BudgetClosed(1, e);
    forall k | 1 <= k < |ps|
      ensures Reachable(gm, sx, sy, ps[k])
    {
      assert ps[k] == rounds[k - 1];
    }
  }

  /**
   * On a grid fresh from `generatePixels(width, height, 0, false)` under the
   * cut policy, the search stops at its very first position, the centred start.
   */
  lemma EmptyGridTakesStart(width: nat, height: nat, mask: Rows, gm: Geometry, xDir: int, yDir: int)
    ensures FirstFit(Blank(width, height, gm.r, true, Clear, false).data, mask, gm.r, true, Probes(gm, xDir, yDir))
              == Some((StartX(gm), StartY(gm)))
  {
    EmptyGridFits(width, height, gm.r, mask, StartX(gm) / gm.r, StartY(gm) / gm.r);
  }
  /** g' keeps the shape of g, and every set cell of g is still set in g'. */
  ghost predicate Keeps(g: Rows, g': Rows)
  {
    && |g'| == |g|
    && (forall row :: 0 <= row < |g| ==> |g'[row]| == |g[row]|)
    && (forall row, col :: Stored(g, row, col) && g[row][col / 32][col % 32] ==> g'[row][col / 32][col % 32])
  }

  lemma KeepsTrans(a: Rows, b: Rows, c: Rows)
    requires Keeps(a, b) && Keeps(b, c)
    ensures Keeps(a, c)
  {
    forall row, col | Stored(a, row, col) && a[row][col / 32][col % 32]
      ensures c[row][col / 32][col % 32]
    {
      assert Stored(b, row, col);
    }
  }

  /** A placement only sets bits: what `placeTag` leaves keeps the grid's shape and every set cell. */
  lemma OutcomeKeeps(g: Rows, mask: Rows, r: Ratio, cut: bool, ps: seq<Pos>)
    ensures Keeps(g, Outcome(g, mask, r, cut, ps).1)
  {
    match FirstFit(g, mask, r, cut, ps)
    case None =>
    case Some(p) =>
      var g' := Placed(g, mask, p.0 / r, p.1 / r);
      forall row, col | Stored(g, row, col) && g[row][col / 32][col % 32]
        ensures g'[row][col / 32][col % 32]
      {
        PlacedCell(g, mask, p.0 / r, p.1 / r, row, col);
      }
  }
}
