/**
 * The per-tag rules of `handleTag` and the batch bookkeeping of `draw`: the
 * weight bounds, the font size interpolated between them, the rotation
 * angle, and the order in which tags are placed (heaviest first, ties in
 * their original order).
 */
module Schedule {
  import opened Js
  import opened Wrappers

  /** `minTagWeight`, which starts at `Infinity`. */
  datatype Bound = Infinity | Finite(v: real)

  /** The running weight bounds: `maxTagWeight` and `minTagWeight`. */
  datatype Weights = Weights(max: real, min: Bound)

  /** The bounds a new cloud starts with: `maxTagWeight = 0`, `minTagWeight = Infinity`. */
  function Initial(): Weights
  {
    Weights(0.0, Infinity)
  }

  /** One turn of the bounds loop of `draw`: raise the maximum, lower the minimum. */
  function Widen1(b: Weights, w: real): Weights
  {
    Weights(if w > b.max then w else b.max,
            if b.min.Infinity? || w < b.min.v then Finite(w) else b.min)
  }

  /** The bounds after the loop has seen ws, in order. */
  function Widen(b: Weights, ws: seq<real>): Weights
  {
    if ws == [] then b else Widen1(Widen(b, ws[..|ws| - 1]), ws[|ws| - 1])
  }

  /** w is at least the lower bound b. */
  predicate Above(b: Bound, w: real)
  {
    b.Finite? && b.v <= w
  }

  /**
   * The bounds only widen, they enclose every weight seen, and each one is
   * either the value it had or one of the weights.
   */
  lemma {:induction false} WidenBounds(b: Weights, ws: seq<real>)
    ensures var c := Widen(b, ws);
      && c.max >= b.max
      && (b.min.Finite? ==> Above(c.min, b.min.v))
      && (forall i :: 0 <= i < |ws| ==> ws[i] <= c.max && Above(c.min, ws[i]))
      && (c.max == b.max || exists i :: 0 <= i < |ws| && c.max == ws[i])
      && (c.min == b.min || exists i :: 0 <= i < |ws| && c.min == Finite(ws[i]))
  {
    if ws != [] {
      var init := ws[..|ws| - 1];
      WidenBounds(b, init);
      var c0 := Widen(b, init);
      var c := Widen(b, ws);
      assert c == Widen1(c0, ws[|ws| - 1]);
      forall i | 0 <= i < |ws|
        ensures ws[i] <= c.max && Above(c.min, ws[i])
      {
        if i < |ws| - 1 {
          assert ws[i] == init[i];
        }
      }
      if c.max != b.max && c.max != ws[|ws| - 1] {
        var i :| 0 <= i < |init| && c0.max == init[i];
        assert c.max == ws[i];
      }
      if c.min != b.min && c.min != Finite(ws[|ws| - 1]) {
        var i :| 0 <= i < |init| && c0.min == Finite(init[i]);
        assert c.min == Finite(ws[i]);
      }
    }
  }

  /** `maxTagWeight - minTagWeight > 0`; with `minTagWeight = Infinity` the difference is `-Infinity`. */
  predicate Spread(b: Weights)
  {
    b.min.Finite? && b.max - b.min.v > 0.0
  }

  /**
   * The font size of a tag of weight w: linear interpolation between
   * `minFontSize` and `maxFontSize` over the weight bounds, rounded, or the
   * rounded midpoint when the bounds have no spread.
   */
  function FontSize(minFontSize: real, maxFontSize: real, b: Weights, w: real): int
  {
    if Spread(b)
    then Round(minFontSize + (maxFontSize - minFontSize) * ((w - b.min.v) / (b.max - b.min.v)))
    else Round((maxFontSize + minFontSize) / 2.0)
  }

  lemma RoundMonotone(a: real, c: real)
    requires a <= c
    ensures Round(a) <= Round(c)
  {
  }

  lemma ScaleMonotone(d: real, s: real, t: real)
    requires d >= 0.0 && s <= t
    ensures d * s <= d * t
  {
    assert d * t - d * s == d * (t - s);
  }

  /** With `maxFontSize >= minFontSize`, a heavier tag never gets a smaller font. */
  lemma FontSizeMonotone(minFontSize: real, maxFontSize: real, b: Weights, w1: real, w2: real)
    requires minFontSize <= maxFontSize && w1 <= w2
    ensures FontSize(minFontSize, maxFontSize, b, w1) <= FontSize(minFontSize, maxFontSize, b, w2)
  {
    if Spread(b) {
      var d := b.max - b.min.v;
      assert (w1 - b.min.v) / d <= (w2 - b.min.v) / d;
      ScaleMonotone(maxFontSize - minFontSize, (w1 - b.min.v) / d, (w2 - b.min.v) / d);
      RoundMonotone(minFontSize + (maxFontSize - minFontSize) * ((w1 - b.min.v) / d),
                    minFontSize + (maxFontSize - minFontSize) * ((w2 - b.min.v) / d));
    }
  }

  /**
   * A weight inside the bounds gets a font size between the rounded minimum
   * and maximum font sizes; the lightest weight gets the rounded minimum and
   * the heaviest the rounded maximum.
   */
  lemma FontSizeRange(minFontSize: real, maxFontSize: real, b: Weights, w: real)
    requires minFontSize <= maxFontSize && Spread(b) && b.min.v <= w <= b.max
    ensures Round(minFontSize) <= FontSize(minFontSize, maxFontSize, b, w) <= Round(maxFontSize)
    ensures w == b.min.v ==> FontSize(minFontSize, maxFontSize, b, w) == Round(minFontSize)
    ensures w == b.max ==> FontSize(minFontSize, maxFontSize, b, w) == Round(maxFontSize)
  {
    var d := b.max - b.min.v;
    var t := (w - b.min.v) / d;
    assert 0.0 <= t <= 1.0;
    ScaleMonotone(maxFontSize - minFontSize, 0.0, t);
    ScaleMonotone(maxFontSize - minFontSize, t, 1.0);
    RoundMonotone(minFontSize, minFontSize + (maxFontSize - minFontSize) * t);
    RoundMonotone(minFontSize + (maxFontSize - minFontSize) * t, maxFontSize);
    if w == b.max {
      assert t == 1.0;
    }
  }

  /**
   * A batch in which every tag has the same weight w, drawn by a fresh
   * cloud: a non-negative w gives every tag the rounded midpoint font
   * size, but a negative w leaves `maxTagWeight` at 0, so the spread is
   * -w and every tag gets the rounded minimum font size.
   */
  lemma UniformWeights(minFontSize: real, maxFontSize: real, ws: seq<real>, w: real)
    requires ws != [] && forall i :: 0 <= i < |ws| ==> ws[i] == w
    ensures FontSize(minFontSize, maxFontSize, Widen(Initial(), ws), w)
            == if w < 0.0 then Round(minFontSize) else Round((maxFontSize + minFontSize) / 2.0)
  {
    WidenBounds(Initial(), ws);
    var c := Widen(Initial(), ws);
    assert c.min == Finite(w);
    assert c.max == (if w < 0.0 then 0.0 else w);
    if w < 0.0 {
      assert (w - w) / (0.0 - w) == 0.0;
    }
  }

  /** `(Math.random() * angleCount) >> 0`, for rand in [0, 1). */
  function AngleIndex(rand: real, angleCount: int): int
  {
    Trunc(rand * angleCount as real)
  }

  /** Step k of `angleCount - 1` equal steps from `angleFrom` to `angleTo`. */
  function AngleStep(k: int, angleCount: int, angleFrom: real, angleTo: real): real
    requires angleCount != 1
  {
    angleFrom + (k as real / (angleCount - 1) as real) * (angleTo - angleFrom)
  }

  /**
   * The rotation of a tag: its own `angle` when it has one; otherwise
   * `angleFrom` when `angleCount` is 1, and else step `AngleIndex` of
   * `angleCount - 1` equal steps from `angleFrom` to `angleTo`.
   */
  function Angle(maybeAngle: Option<real>, rand: real, angleCount: int, angleFrom: real, angleTo: real): real
  {
    if maybeAngle.Some? then maybeAngle.value
    else if angleCount == 1 then angleFrom
    else AngleStep(AngleIndex(rand, angleCount), angleCount, angleFrom, angleTo)
  }

  /** The random index picks one of the `angleCount` steps. */
  lemma AngleIndexRange(rand: real, angleCount: int)
    requires 0.0 <= rand < 1.0 && angleCount >= 1
    ensures 0 <= AngleIndex(rand, angleCount) < angleCount
  {
    var n := angleCount as real;
    assert 0.0 <= rand * n < n by {
      ScaleMonotone(n, 0.0, rand);
      assert n * 1.0 - n * rand == n * (1.0 - rand);
    }
  }

  /**
   * Without an angle of its own, a tag turns by one of `angleCount` evenly
   * spaced angles from `angleFrom` to `angleTo`, both ends included, and
   * stays between the two, in whichever order they are given.
   */
  lemma AngleChoices(rand: real, angleCount: int, angleFrom: real, angleTo: real)
    requires 0.0 <= rand < 1.0 && angleCount >= 2
    ensures var a := Angle(None, rand, angleCount, angleFrom, angleTo);
      && (angleFrom <= angleTo ==> angleFrom <= a <= angleTo)
      && (angleTo <= angleFrom ==> angleTo <= a <= angleFrom)
      && (exists k :: 0 <= k < angleCount && a == AngleStep(k, angleCount, angleFrom, angleTo))
      && AngleStep(0, angleCount, angleFrom, angleTo) == angleFrom
      && AngleStep(angleCount - 1, angleCount, angleFrom, angleTo) == angleTo
  {
    AngleIndexRange(rand, angleCount);
    var k := AngleIndex(rand, angleCount);
    StepBounds(k, angleCount, angleFrom, angleTo);
    assert Angle(None, rand, angleCount, angleFrom, angleTo) == AngleStep(k, angleCount, angleFrom, angleTo);
    assert (angleCount - 1) as real / (angleCount - 1) as real == 1.0;
  }

  /** Every one of the steps lies between `angleFrom` and `angleTo`, in whichever order they are given. */
  lemma StepBounds(k: int, angleCount: int, angleFrom: real, angleTo: real)
    requires 0 <= k < angleCount && angleCount >= 2
    ensures angleFrom <= angleTo ==> angleFrom <= AngleStep(k, angleCount, angleFrom, angleTo) <= angleTo
    ensures angleTo <= angleFrom ==> angleTo <= AngleStep(k, angleCount, angleFrom, angleTo) <= angleFrom
  {
    var t := k as real / (angleCount - 1) as real;
    UnitFraction(k, angleCount - 1);
    assert AngleStep(k, angleCount, angleFrom, angleTo) == angleFrom + t * (angleTo - angleFrom);
    if angleFrom <= angleTo {
      ScaleWithin(angleTo - angleFrom, t);
    } else {
      ScaleWithin(angleFrom - angleTo, t);
      assert t * (angleTo - angleFrom) == -(t * (angleFrom - angleTo));
    }
  }

  /** A fraction t in [0, 1] of a non-negative span d lies between 0 and d. */
  lemma ScaleWithin(d: real, t: real)
    requires d >= 0.0 && 0.0 <= t <= 1.0
    ensures 0.0 <= t * d <= d
  {
    ScaleMonotone(d, 0.0, t);
    ScaleMonotone(d, t, 1.0);
    assert t * d == d * t;
  }

  lemma UnitFraction(k: int, m: int)
    requires 0 <= k <= m && m > 0
    ensures 0.0 <= k as real / m as real <= 1.0
  {
    var q := k as real / m as real;
    assert q * m as real == k as real;
    if q > 1.0 {
      ScaleMonotone(m as real, 1.0, q);
    }
    if q < 0.0 {
      ScaleMonotone(m as real, q, 0.0);
    }
  }

  /** A tag's own angle is used as it is, and a single angle step means `angleFrom`. */
  lemma AngleFixed(a: real, rand: real, angleCount: int, angleFrom: real, angleTo: real)
    ensures Angle(Some(a), rand, angleCount, angleFrom, angleTo) == a
    ensures Angle(None, rand, 1, angleFrom, angleTo) == angleFrom
  {
  }

  /** A tag as handed to `draw`: text, weight, and optionally its own angle and colour. */
  datatype Tag = Tag(text: string, weight: real, angle: Option<real>, color: Option<string>)

  /** Heaviest first. */
  predicate Descending(ts: seq<Tag>)
  {
    forall i, j :: 0 <= i < j < |ts| ==> ts[i].weight >= ts[j].weight
  }

  /** The tags of weight w, in their order in ts. */
  function OfWeight(ts: seq<Tag>, w: real): seq<Tag>
  {
    if ts == [] then [] else (if ts[0].weight == w then [ts[0]] else []) + OfWeight(ts[1..], w)
  }

  lemma {:induction false} OfWeightAppend(a: seq<Tag>, b: seq<Tag>, w: real)
    ensures OfWeight(a + b, w) == OfWeight(a, w) + OfWeight(b, w)
  {
    if a == [] {
      assert a + b == b;
    } else {
      var head := if a[0].weight == w then [a[0]] else [];
      assert (a + b)[0] == a[0] && (a + b)[1..] == a[1..] + b;
      OfWeightAppend(a[1..], b, w);
      calc {
        OfWeight(a + b, w);
        head + OfWeight(a[1..] + b, w);
        head + (OfWeight(a[1..], w) + OfWeight(b, w));
        (head + OfWeight(a[1..], w)) + OfWeight(b, w);
      }
    }
  }

  lemma {:induction false} OfWeightNone(ts: seq<Tag>, w: real)
    requires forall i :: 0 <= i < |ts| ==> ts[i].weight < w
    ensures OfWeight(ts, w) == []
  {
    if ts != [] {
      OfWeightNone(ts[1..], w);
    }
  }

  /**
   * Inserts t into a descending sequence after every tag at least as heavy,
   * which is where a stable sort puts a tag that came last.
   */
  function Insert(t: Tag, xs: seq<Tag>): (ys: seq<Tag>)
    ensures |ys| == |xs| + 1
  {
    if xs == [] then [t]
    else if xs[0].weight >= t.weight then [xs[0]] + Insert(t, xs[1..])
    else [t] + xs
  }

  lemma {:induction false} InsertMultiset(t: Tag, xs: seq<Tag>)
    ensures multiset(Insert(t, xs)) == multiset(xs) + multiset{t}
  {
    if xs != [] && xs[0].weight >= t.weight {
      InsertMultiset(t, xs[1..]);
      assert xs == [xs[0]] + xs[1..];
    }
  }

  /** No tag of ts is heavier than b. */
  predicate AtMost(ts: seq<Tag>, b: real)
  {
    forall i :: 0 <= i < |ts| ==> ts[i].weight <= b
  }

  /** Inserting a tag no heavier than b keeps every tag at most b. */
  lemma {:induction false} InsertAtMost(t: Tag, xs: seq<Tag>, b: real)
    requires t.weight <= b && AtMost(xs, b)
    ensures AtMost(Insert(t, xs), b)
  {
    if xs != [] && xs[0].weight >= t.weight {
      var zs := Insert(t, xs[1..]);
      InsertAtMost(t, xs[1..], b);
      assert Insert(t, xs) == [xs[0]] + zs;
      forall i | 1 <= i < |zs| + 1
        ensures ([xs[0]] + zs)[i].weight <= b
      {
        assert ([xs[0]] + zs)[i] == zs[i - 1];
      }
    }
  }

  /** A tag at least as heavy as every tag of a descending sequence can go in front of it. */
  lemma DescendingCons(x: Tag, zs: seq<Tag>)
    requires Descending(zs) && AtMost(zs, x.weight)
    ensures Descending([x] + zs)
  {
    var ys := [x] + zs;
    forall i, j | 0 <= i < j < |ys|
      ensures ys[i].weight >= ys[j].weight
    {
      assert ys[j] == zs[j - 1];
      if i > 0 {
        assert ys[i] == zs[i - 1];
      }
    }
  }

  /** The tail of a descending sequence is descending and no heavier than its head. */
  lemma DescendingTail(xs: seq<Tag>)
    requires xs != [] && Descending(xs)
    ensures Descending(xs[1..]) && AtMost(xs[1..], xs[0].weight)
  {
    var rest := xs[1..];
    forall i | 0 <= i < |rest|
      ensures rest[i].weight <= xs[0].weight
    {
      assert rest[i] == xs[i + 1];
    }
    forall i, j | 0 <= i < j < |rest|
      ensures rest[i].weight >= rest[j].weight
    {
      assert rest[i] == xs[i + 1] && rest[j] == xs[j + 1];
    }
  }

  lemma {:induction false} InsertDescending(t: Tag, xs: seq<Tag>)
    requires Descending(xs)
    ensures Descending(Insert(t, xs))
  {
    if xs == [] {
      assert Insert(t, xs) == [t];
    } else {
      var rest := xs[1..];
      DescendingTail(xs);
      if xs[0].weight >= t.weight {
        InsertDescending(t, rest);
        InsertAtMost(t, rest, xs[0].weight);
        DescendingCons(xs[0], Insert(t, rest));
      } else {
        forall i | 0 <= i < |xs|
          ensures xs[i].weight <= t.weight
        {
          if i > 0 {
            assert xs[i] == rest[i - 1];
          }
        }
        DescendingCons(t, xs);
      }
    }
  }

  /** The tags of weight w in a one-tag sequence. */
  lemma OfWeightSingle(t: Tag, w: real)
    ensures OfWeight([t], w) == if t.weight == w then [t] else []
  {
    assert [t][1..] == [];
  }

  /** The tags of each weight keep their order, and t comes after those it ties with. */
  lemma {:induction false} InsertOfWeight(t: Tag, xs: seq<Tag>, w: real)
    requires Descending(xs)
    ensures OfWeight(Insert(t, xs), w) == OfWeight(xs, w) + (if t.weight == w then [t] else [])
  {
    var last := if t.weight == w then [t] else [];
    if xs == [] {
      OfWeightSingle(t, w);
      assert Insert(t, xs) == [t];
    } else if xs[0].weight >= t.weight {
      var head := if xs[0].weight == w then [xs[0]] else [];
      DescendingTail(xs);
      InsertOfWeight(t, xs[1..], w);
      var ys := Insert(t, xs);
      assert ys[0] == xs[0] && ys[1..] == Insert(t, xs[1..]);
      calc {
        OfWeight(ys, w);
        head + OfWeight(Insert(t, xs[1..]), w);
        head + (OfWeight(xs[1..], w) + last);
        (head + OfWeight(xs[1..], w)) + last;
      }
    } else {
      var ys := Insert(t, xs);
      assert ys == [t] + xs;
      assert ys[0] == t && ys[1..] == xs;
      if t.weight == w {
        forall i | 0 <= i < |xs|
          ensures xs[i].weight < w
        {
          assert xs[0].weight >= xs[i].weight;
        }
        OfWeightNone(xs, w);
      }
    }
  }

  /**
   * `tags.sort((a, b) => b.weight - a.weight)`: the stable sort by
   * descending weight, as an insertion sort.
   */
  function SortDesc(ts: seq<Tag>): (ss: seq<Tag>)
    ensures |ss| == |ts|
  {
    if ts == [] then [] else Insert(ts[|ts| - 1], SortDesc(ts[..|ts| - 1]))
  }

  lemma SplitLast(ts: seq<Tag>)
    requires ts != []
    ensures ts == ts[..|ts| - 1] + [ts[|ts| - 1]]
  {
  }

  /** The sort yields the same tags, heaviest first. */
  lemma {:induction false} SortDescOrdered(ts: seq<Tag>)
    ensures Descending(SortDesc(ts)) && multiset(SortDesc(ts)) == multiset(ts)
  {
    if ts != [] {
      var init, t := ts[..|ts| - 1], ts[|ts| - 1];
      SplitLast(ts);
      SortDescOrdered(init);
      InsertDescending(t, SortDesc(init));
      InsertMultiset(t, SortDesc(init));
    }
  }

  /** The sort keeps tags of equal weight in their original order. */
  lemma {:induction false} SortDescStable(ts: seq<Tag>, w: real)
    ensures OfWeight(SortDesc(ts), w) == OfWeight(ts, w)
  {
    if ts != [] {
      var init, t := ts[..|ts| - 1], ts[|ts| - 1];
      SplitLast(ts);
      SortDescStable(init, w);
      SortDescOrdered(init);
      InsertOfWeight(t, SortDesc(init), w);
      OfWeightAppend(init, [t], w);
      OfWeightSingle(t, w);
      calc {
        OfWeight(SortDesc(ts), w);
        OfWeight(Insert(t, SortDesc(init)), w);
        OfWeight(SortDesc(init), w) + OfWeight([t], w);
        OfWeight(init, w) + OfWeight([t], w);
        OfWeight(ts, w);
      }
    }
  }

  /**
   * The sort yields the same tags, heaviest first, and keeps tags of equal
   * weight in their original order.
   */
  lemma SortDescSpec(ts: seq<Tag>)
    ensures var ss := SortDesc(ts);
      && Descending(ss)
      && multiset(ss) == multiset(ts)
      && forall w :: OfWeight(ss, w) == OfWeight(ts, w)
  {
    SortDescOrdered(ts);
    forall w
      ensures OfWeight(SortDesc(ts), w) == OfWeight(ts, w)
    {
      SortDescStable(ts, w);
    }
  }

  /** The weights of ts, in order. */
  function WeightsOf(ts: seq<Tag>): (ws: seq<real>)
    ensures |ws| == |ts| && forall i :: 0 <= i < |ts| ==> ws[i] == ts[i].weight
  {
    seq(|ts|, i requires 0 <= i < |ts| => ts[i].weight)
  }
}
