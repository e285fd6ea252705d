/**
  The heat map: points are stamped onto a grid of heat values, and heat becomes colour.
  Heat values are real numbers here, without rounding.
 */
module Heatmap {
  import opened Sequences
  import opened Bits
  import opened Modular

  /** A rectangle of heat, row by row. */
  datatype Stamp = Stamp(w: nat, h: nat, buf: seq<real>)

  ghost predicate StampOk(s: Stamp) {
    |s.buf| == s.w * s.h && forall k :: 0 <= k < |s.buf| ==> s.buf[k] >= 0.0
  }

  /** A point with its weight and the stamp it is drawn with. */
  datatype Point = Point(x: nat, y: nat, weight: real, stamp: Stamp)

  ghost predicate PointOk(p: Point) {
    StampOk(p.stamp) && p.weight >= 0.0
  }

  /** Position of column `x` of row `y` in a grid of width `w`. */
  function Cell(w: nat, x: nat, y: nat): nat {
    w * y + x
  }

  lemma CellBound(w: nat, h: nat, x: nat, y: nat)
    requires x < w && y < h
    ensures Cell(w, x, y) < w * h
  {
    MulSub(w, h, y);
    MulAtLeast(w, h - y);
  }

  lemma CellInjective(w: nat, x: nat, y: nat, x': nat, y': nat)
    requires x < w && x' < w && Cell(w, x, y) == Cell(w, x', y')
    ensures x == x' && y == y'
  {
    EuclidUnique(w, y, x, y', x');
  }

  /** The value of a stamp at a column and row relative to its centre, zero outside of it. */
  ghost function StampAt(s: Stamp, dx: int, dy: int): real
    requires StampOk(s)
  {
    var sx, sy := dx + s.w / 2, dy + s.h / 2;
    if 0 <= sx < s.w && 0 <= sy < s.h then (CellBound(s.w, s.h, sx, sy); s.buf[Cell(s.w, sx, sy)]) else 0.0
  }

  function Weighted(v: real, weight: real): real {
    v * weight
  }

  /** The heat a point adds to cell (x, y) of a map; points outside of the map add none. */
  ghost function Added(p: Point, w: nat, h: nat, x: nat, y: nat): real
    requires PointOk(p)
  {
    if p.x < w && p.y < h then Weighted(StampAt(p.stamp, x - p.x, y - p.y), p.weight) else 0.0
  }

  ghost predicate PointsOk(points: seq<Point>) {
    forall i :: 0 <= i < |points| ==> PointOk(points[i])
  }

  /** The heat of cell (x, y) after all points. */
  ghost function Heat(points: seq<Point>, w: nat, h: nat, x: nat, y: nat): real
    requires PointsOk(points)
  {
    if points == [] then 0.0
    else Heat(points[..|points| - 1], w, h, x, y) + Added(points[|points| - 1], w, h, x, y)
  }

  /** No cell is negative, none exceeds the maximum, and the maximum is zero or that of a cell. */
  ghost predicate MaxOk(buf: seq<real>, max: real) {
    && (forall k :: 0 <= k < |buf| ==> 0.0 <= buf[k] <= max)
    && (max == 0.0 || max in buf)
  }

  /** Adding to one cell, and to the maximum if it is exceeded. */
  lemma MaxStep(buf: seq<real>, max: real, k: nat, amount: real)
    requires MaxOk(buf, max) && k < |buf| && amount >= 0.0
    ensures var v := buf[k] + amount; MaxOk(buf[k := v], if v > max then v else max)
  {
    var v := buf[k] + amount;
    var buf' := buf[k := v];
    if v > max {
      assert buf'[k] == v;
    } else if max != 0.0 {
      var i :| 0 <= i < |buf| && buf[i] == max;
      assert buf'[i] == max;
    }
  }

  /** With cells there are, the maximum is the largest of them. */
  lemma MaxIsLargest(buf: seq<real>, max: real)
    requires MaxOk(buf, max) && buf != []
    ensures max in buf && forall k :: 0 <= k < |buf| ==> buf[k] <= max
  {
    if max == 0.0 {
      assert buf[0] == 0.0;
    }
  }

  // ----- stamping cell by cell

  /** What has been added to cell (cx, cy) when the stamp has been drawn up to a column and row of it. */
  ghost function Drawn(p: Point, cx: nat, cy: nat, ix: nat, iy: nat): real
    requires PointOk(p)
  {
    var sx, sy := cx - p.x + p.stamp.w / 2, cy - p.y + p.stamp.h / 2;
    if sy < iy || (sy == iy && sx < ix) then Weighted(StampAt(p.stamp, cx - p.x, cy - p.y), p.weight) else 0.0
  }

  ghost predicate DrawnUpTo(buf: seq<real>, before: seq<real>, p: Point, w: nat, h: nat, ix: nat, iy: nat)
    requires PointOk(p)
  {
    && |buf| == |before| == w * h
    && forall cx, cy :: 0 <= cx < w && 0 <= cy < h ==> CellDrawn(buf, before, p, w, cx, cy, ix, iy)
  }

  ghost predicate CellDrawn(buf: seq<real>, before: seq<real>, p: Point, w: nat, cx: nat, cy: nat, ix: nat, iy: nat)
    requires PointOk(p)
  {
    var k := Cell(w, cx, cy);
    k < |buf| && k < |before| && buf[k] == before[k] + Drawn(p, cx, cy, ix, iy)
  }

  /** The clipped columns or rows of a stamp of size `s` around `c` on a map of size `n`. */
  function First(s: nat, c: nat): nat {
    if c < s / 2 then s / 2 - c else 0
  }

  function End(s: nat, c: nat, n: nat): int {
    if c + s / 2 < n then s else s / 2 + (n - c)
  }

  /** Clipping keeps exactly what falls on the map. */
  lemma ClipExact(s: nat, c: nat, n: nat, i: nat)
    requires c < n && i < s
    ensures First(s, c) <= i < End(s, c, n) <==> 0 <= c + i - s / 2 < n
    ensures First(s, c) <= s && 0 <= End(s, c, n) <= s
  {
  }

  lemma NothingDrawn(before: seq<real>, p: Point, w: nat, h: nat)
    requires PointOk(p) && |before| == w * h && p.x < w && p.y < h
    ensures DrawnUpTo(before, before, p, w, h, First(p.stamp.w, p.x), First(p.stamp.h, p.y))
  {
    hide StampAt;
    forall cx, cy | 0 <= cx < w && 0 <= cy < h
      ensures CellDrawn(before, before, p, w, cx, cy, First(p.stamp.w, p.x), First(p.stamp.h, p.y))
    {
      CellBound(w, h, cx, cy);
      NotYet(p, w, h, cx, cy);
    }
  }

  lemma NotYet(p: Point, w: nat, h: nat, cx: nat, cy: nat)
    requires PointOk(p) && cx < w && cy < h
    ensures Drawn(p, cx, cy, First(p.stamp.w, p.x), First(p.stamp.h, p.y)) == 0.0
  {
  }

  /** Drawing one value. */
  lemma DrawOne(buf: seq<real>, before: seq<real>, p: Point, w: nat, h: nat, ix: nat, iy: nat)
    requires PointOk(p) && DrawnUpTo(buf, before, p, w, h, ix, iy) && p.x < w && p.y < h
    requires First(p.stamp.w, p.x) <= ix < End(p.stamp.w, p.x, w) && First(p.stamp.h, p.y) <= iy < End(p.stamp.h, p.y, h)
    ensures ix < p.stamp.w && iy < p.stamp.h && Cell(p.stamp.w, ix, iy) < |p.stamp.buf|
    ensures var cx, cy := p.x + ix - p.stamp.w / 2, p.y + iy - p.stamp.h / 2;
            && 0 <= cx < w && 0 <= cy < h && Cell(w, cx, cy) < |buf|
            && DrawnUpTo(buf[Cell(w, cx, cy) := buf[Cell(w, cx, cy)] + Weighted(p.stamp.buf[Cell(p.stamp.w, ix, iy)], p.weight)],
                         before, p, w, h, ix + 1, iy)
  {
    hide Cell, Weighted;
    ClipExact(p.stamp.w, p.x, w, ix);
    ClipExact(p.stamp.h, p.y, h, iy);
    CellBound(p.stamp.w, p.stamp.h, ix, iy);
    var cx, cy := p.x + ix - p.stamp.w / 2, p.y + iy - p.stamp.h / 2;
    CellBound(w, h, cx, cy);
    var k := Cell(w, cx, cy);
    var buf' := buf[k := buf[k] + Weighted(p.stamp.buf[Cell(p.stamp.w, ix, iy)], p.weight)];
    var next := ix + 1;
    forall x, y | 0 <= x < w && 0 <= y < h
      ensures CellDrawn(buf', before, p, w, x, y, next, iy)
    {
      assert CellDrawn(buf, before, p, w, x, y, ix, iy);
      CellBound(w, h, x, y);
      if Cell(w, x, y) == k {
        CellInjective(w, x, y, cx, cy);
      }
    }
  }

  /** The end of a row: what is left of it falls outside of the map. */
  lemma NextRow(buf: seq<real>, before: seq<real>, p: Point, w: nat, h: nat, ix: nat, iy: nat)
    requires PointOk(p) && DrawnUpTo(buf, before, p, w, h, ix, iy) && p.x < w && p.y < h
    requires ix >= End(p.stamp.w, p.x, w)
    ensures DrawnUpTo(buf, before, p, w, h, First(p.stamp.w, p.x), iy + 1)
  {
    hide Cell;
    var first, next := First(p.stamp.w, p.x), iy + 1;
    forall x, y | 0 <= x < w && 0 <= y < h
      ensures CellDrawn(buf, before, p, w, x, y, first, next)
    {
      assert CellDrawn(buf, before, p, w, x, y, ix, iy);
    }
  }

  lemma AllDrawn(buf: seq<real>, before: seq<real>, p: Point, w: nat, h: nat, ix: nat, iy: nat)
    requires PointOk(p) && DrawnUpTo(buf, before, p, w, h, ix, iy) && p.x < w && p.y < h
    requires iy >= End(p.stamp.h, p.y, h)
    ensures forall cx, cy :: 0 <= cx < w && 0 <= cy < h ==> CellAdded(buf, before, p, w, h, cx, cy)
  {
    hide Cell;
    forall x, y | 0 <= x < w && 0 <= y < h
      ensures CellAdded(buf, before, p, w, h, x, y)
    {
      assert CellDrawn(buf, before, p, w, x, y, ix, iy);
    }
  }

  ghost predicate CellAdded(buf: seq<real>, before: seq<real>, p: Point, w: nat, h: nat, cx: nat, cy: nat)
    requires PointOk(p)
  {
    var k := Cell(w, cx, cy);
    k < |buf| && k < |before| && buf[k] == before[k] + Added(p, w, h, cx, cy)
  }

  /** Every cell holds the heat of all points. */
  ghost predicate HeatIs(buf: seq<real>, points: seq<Point>, w: nat, h: nat)
    requires PointsOk(points)
  {
    && |buf| == w * h
    && forall cx, cy :: 0 <= cx < w && 0 <= cy < h ==> CellHeat(buf, points, w, h, cx, cy)
  }

  ghost predicate CellHeat(buf: seq<real>, points: seq<Point>, w: nat, h: nat, cx: nat, cy: nat)
    requires PointsOk(points)
  {
    var k := Cell(w, cx, cy);
    k < |buf| && buf[k] == Heat(points, w, h, cx, cy)
  }

  /**
    Cell (cx, cy) before and after a stamp: the value of the stamp that falls on it has been added, with the middle of
    the stamp on the point, and nothing if none does or if the point is outside of the map.
   */
  ghost predicate Stamped(before: seq<real>, after: seq<real>, w: nat, h: nat, x: nat, y: nat, weight: real, stamp: Stamp,
                          cx: nat, cy: nat) {
    var sx, sy := cx - x + stamp.w / 2, cy - y + stamp.h / 2;
    && cy * w + cx < |before| && cy * w + cx < |after|
    && if x < w && y < h && 0 <= sx < stamp.w && 0 <= sy < stamp.h
       then 0 <= sy * stamp.w + sx < |stamp.buf|
            && after[cy * w + cx] == before[cy * w + cx] + stamp.buf[sy * stamp.w + sx] * weight
       else after[cy * w + cx] == before[cy * w + cx]
  }

  lemma AddedIsStamped(before: seq<real>, after: seq<real>, p: Point, w: nat, h: nat, cx: nat, cy: nat)
    requires PointOk(p) && CellAdded(after, before, p, w, h, cx, cy)
    ensures Stamped(before, after, w, h, p.x, p.y, p.weight, p.stamp, cx, cy)
  {
    hide Cell;
    CellIs(w, cx, cy);
    var sx, sy := cx - p.x + p.stamp.w / 2, cy - p.y + p.stamp.h / 2;
    if 0 <= sx < p.stamp.w && 0 <= sy < p.stamp.h {
      CellIs(p.stamp.w, sx, sy);
      CellBound(p.stamp.w, p.stamp.h, sx, sy);
    }
  }

  lemma AllStamped(before: seq<real>, after: seq<real>, p: Point, w: nat, h: nat)
    requires PointOk(p) && forall cx, cy :: 0 <= cx < w && 0 <= cy < h ==> CellAdded(after, before, p, w, h, cx, cy)
    ensures forall cx, cy :: 0 <= cx < w && 0 <= cy < h ==>
              Stamped(before, after, w, h, p.x, p.y, p.weight, p.stamp, cx, cy)
  {
    hide Stamped, CellAdded;
    forall cx, cy | 0 <= cx < w && 0 <= cy < h
      ensures Stamped(before, after, w, h, p.x, p.y, p.weight, p.stamp, cx, cy)
    {
      AddedIsStamped(before, after, p, w, h, cx, cy);
    }
  }

  lemma NoHeat(buf: seq<real>, w: nat, h: nat)
    requires |buf| == w * h && forall k :: 0 <= k < |buf| ==> buf[k] == 0.0
    ensures HeatIs(buf, [], w, h)
  {
    hide Cell;
    var none: seq<Point> := [];
    forall x, y | 0 <= x < w && 0 <= y < h
      ensures CellHeat(buf, none, w, h, x, y)
    {
      CellBound(w, h, x, y);
    }
  }

  lemma HeatStep(buf: seq<real>, before: seq<real>, points: seq<Point>, p: Point, w: nat, h: nat)
    requires PointsOk(points) && PointOk(p) && HeatIs(before, points, w, h) && |buf| == |before|
    requires forall cx, cy :: 0 <= cx < w && 0 <= cy < h ==> CellAdded(buf, before, p, w, h, cx, cy)
    ensures PointsOk(points + [p]) && HeatIs(buf, points + [p], w, h)
  {
    hide Cell;
    hide Added;
    var all := points + [p];
    assert all[..|all| - 1] == points;
    forall x, y | 0 <= x < w && 0 <= y < h
      ensures CellHeat(buf, all, w, h, x, y)
    {
      assert CellHeat(before, points, w, h, x, y);
      assert CellAdded(buf, before, p, w, h, x, y);
    }
  }

  /** A point outside of the map changes nothing. */
  lemma OutsideAddsNothing(buf: seq<real>, p: Point, w: nat, h: nat)
    requires PointOk(p) && !(p.x < w && p.y < h) && |buf| == w * h
    ensures forall cx, cy :: 0 <= cx < w && 0 <= cy < h ==> CellAdded(buf, buf, p, w, h, cx, cy)
  {
    hide Cell;
    forall x, y | 0 <= x < w && 0 <= y < h
      ensures CellAdded(buf, buf, p, w, h, x, y)
    {
      CellBound(w, h, x, y);
    }
  }

  // ----- one value stamped

  lemma CellIs(w: nat, x: nat, y: nat)
    ensures Cell(w, x, y) == y * w + x
  {
  }

  lemma Scaled(p: Point, k: nat)
    requires PointOk(p) && k < |p.stamp.buf|
    ensures Weighted(p.stamp.buf[k], p.weight) >= 0.0
  {
  }

  /** One value drawn: where it is and where it goes, and what it does to the cells and the maximum. */
  lemma StampOne(buf: seq<real>, before: seq<real>, max: real, p: Point, w: nat, h: nat, ix: nat, iy: nat)
    requires PointOk(p) && DrawnUpTo(buf, before, p, w, h, ix, iy) && MaxOk(buf, max) && p.x < w && p.y < h
    requires First(p.stamp.w, p.x) <= ix < End(p.stamp.w, p.x, w) && First(p.stamp.h, p.y) <= iy < End(p.stamp.h, p.y, h)
    ensures 0 <= iy * p.stamp.w + ix < |p.stamp.buf|
    ensures var line := (p.y + iy - p.stamp.h / 2) * w + (p.x + ix) - p.stamp.w / 2;
            && 0 <= line < |buf|
            && var v := buf[line] + Weighted(p.stamp.buf[iy * p.stamp.w + ix], p.weight);
               && DrawnUpTo(buf[line := v], before, p, w, h, ix + 1, iy)
               && MaxOk(buf[line := v], if v > max then v else max)
  {
    hide MaxOk, DrawnUpTo, PointOk, First, End, Cell, Weighted;
    DrawOne(buf, before, p, w, h, ix, iy);
    CellIs(p.stamp.w, ix, iy);
    var cx, cy := p.x + ix - p.stamp.w / 2, p.y + iy - p.stamp.h / 2;
    CellIs(w, cx, cy);
    var line := (p.y + iy - p.stamp.h / 2) * w + (p.x + ix) - p.stamp.w / 2;
    assert line == Cell(w, cx, cy);
    Scaled(p, iy * p.stamp.w + ix);
    var amount := Weighted(p.stamp.buf[iy * p.stamp.w + ix], p.weight);
    assert amount == Weighted(p.stamp.buf[Cell(p.stamp.w, ix, iy)], p.weight);
    assert buf[Cell(w, cx, cy) := buf[Cell(w, cx, cy)] + Weighted(p.stamp.buf[Cell(p.stamp.w, ix, iy)], p.weight)]
        == buf[line := buf[line] + amount];
    MaxStep(buf, max, line, amount);
  }

  // ----- the order of the points does not matter

  lemma {:induction false} HeatOfConcat(a: seq<Point>, b: seq<Point>, w: nat, h: nat, x: nat, y: nat)
    requires PointsOk(a) && PointsOk(b)
    ensures PointsOk(a + b) && Heat(a + b, w, h, x, y) == Heat(a, w, h, x, y) + Heat(b, w, h, x, y)
  {
    hide Added;
    if b == [] {
      assert a + b == a;
    } else {
      var last := |b| - 1;
      HeatOfConcat(a, b[..last], w, h, x, y);
      assert (a + b)[..|a + b| - 1] == a + b[..last];
    }
  }

  lemma HeatWithout(b: seq<Point>, i: nat, w: nat, h: nat, x: nat, y: nat)
    requires PointsOk(b) && i < |b|
    ensures PointsOk(b[..i] + b[i + 1..])
    ensures Heat(b, w, h, x, y) == Heat(b[..i] + b[i + 1..], w, h, x, y) + Added(b[i], w, h, x, y)
  {
    hide Added;
    hide PointOk;
    HeatOfConcat(b[..i], b[i + 1..], w, h, x, y);
    HeatOfConcat(b[..i + 1], b[i + 1..], w, h, x, y);
    assert b[..i + 1] + b[i + 1..] == b;
    assert b[..i + 1][..i] == b[..i];
  }

  lemma Cancel<T>(a: multiset<T>, b: multiset<T>, c: multiset<T>)
    requires a + c == b + c
    ensures a == b
  {
    assert (a + c) - c == a && (b + c) - c == b;
  }

  lemma SamePointsLeft(a: seq<Point>, b: seq<Point>, i: nat)
    requires a != [] && i < |b| && a[|a| - 1] == b[i] && multiset(a) == multiset(b)
    ensures multiset(a[..|a| - 1]) == multiset(b[..i] + b[i + 1..])
  {
    var p := b[i];
    assert a == a[..|a| - 1] + [p];
    assert b == b[..i] + [p] + b[i + 1..];
    assert multiset(b) == multiset(b[..i]) + multiset{p} + multiset(b[i + 1..]);
    assert multiset(b[..i] + b[i + 1..]) == multiset(b[..i]) + multiset(b[i + 1..]);
    assert multiset(a) == multiset(a[..|a| - 1]) + multiset{p};
    Cancel(multiset(a[..|a| - 1]), multiset(b[..i] + b[i + 1..]), multiset{p});
  }

  /** Stamping the same points in another order gives the same map. */
  lemma {:induction false} OrderDoesNotMatter(a: seq<Point>, b: seq<Point>, w: nat, h: nat, x: nat, y: nat)
    requires PointsOk(a) && PointsOk(b) && multiset(a) == multiset(b)
    ensures Heat(a, w, h, x, y) == Heat(b, w, h, x, y)
    decreases |a|
  {
    hide Added;
    hide PointOk;
    assert |a| == |multiset(a)| == |multiset(b)| == |b|;
    if a != [] {
      var last := |a| - 1;
      assert a[last] in multiset(b);
      var i :| 0 <= i < |b| && b[i] == a[last];
      SamePointsLeft(a, b, i);
      HeatWithout(b, i, w, h, x, y);
      OrderDoesNotMatter(a[..last], b[..i] + b[i + 1..], w, h, x, y);
    }
  }

  // ----- colours

  /** The part of the saturation that a heat value reaches. */
  function Share(saturation: real, heat: real): real
    requires saturation > 0.0
  {
    (if heat > saturation then saturation else heat) / saturation
  }

  /** The colour of a heat value: its share of the saturation, rounded to the nearest of the colours. */
  function ColorIndex(ncolors: nat, saturation: real, heat: real): int
    requires saturation > 0.0
  {
    ((ncolors - 1) as real * Share(saturation, heat) + 0.5).Floor
  }

  lemma DivideOrdered(a: real, b: real, d: real)
    requires d > 0.0 && a <= b
    ensures a / d <= b / d
  {
    assert a == (a / d) * d && b == (b / d) * d;
  }

  lemma TimesOrdered(n: real, a: real, b: real)
    requires n >= 0.0 && a <= b
    ensures n * a <= n * b
  {
  }

  lemma FloorOrdered(a: real, b: real)
    requires a <= b
    ensures a.Floor <= b.Floor
  {
  }

  /** More heat never gets an earlier colour. */
  lemma ColorsFollowHeat(ncolors: nat, saturation: real, heat: real, heat': real)
    requires ncolors > 0 && saturation > 0.0 && heat <= heat'
    ensures ColorIndex(ncolors, saturation, heat) <= ColorIndex(ncolors, saturation, heat')
  {
    hide Share;
    var n := (ncolors - 1) as real;
    SharesOrdered(saturation, heat, heat');
    TimesOrdered(n, Share(saturation, heat), Share(saturation, heat'));
    FloorOrdered(n * Share(saturation, heat) + 0.5, n * Share(saturation, heat') + 0.5);
  }

  lemma SharesOrdered(saturation: real, heat: real, heat': real)
    requires saturation > 0.0 && heat <= heat'
    ensures Share(saturation, heat) <= Share(saturation, heat')
  {
    DivideOrdered(if heat > saturation then saturation else heat,
                  if heat' > saturation then saturation else heat', saturation);
  }

  lemma FullAndEmptyShare(saturation: real)
    requires saturation > 0.0
    ensures Share(saturation, 0.0) == 0.0 && Share(saturation, saturation) == 1.0
  {
    assert saturation == (saturation / saturation) * saturation;
  }

  /** Colour indices stay in range; no heat gets the first colour and saturation the last. */
  lemma ColorInRange(ncolors: nat, saturation: real, heat: real)
    requires ncolors > 0 && saturation > 0.0 && heat >= 0.0
    ensures 0 <= ColorIndex(ncolors, saturation, heat) < ncolors
    ensures heat == 0.0 ==> ColorIndex(ncolors, saturation, heat) == 0
    ensures heat >= saturation ==> ColorIndex(ncolors, saturation, heat) == ncolors - 1
  {
    FirstAndLastColor(ncolors, saturation);
    ColorsFollowHeat(ncolors, saturation, 0.0, heat);
    if heat > saturation {
      assert Share(saturation, heat) == Share(saturation, saturation);
    } else {
      ColorsFollowHeat(ncolors, saturation, heat, saturation);
    }
  }

  lemma FirstAndLastColor(ncolors: nat, saturation: real)
    requires ncolors > 0 && saturation > 0.0
    ensures ColorIndex(ncolors, saturation, 0.0) == 0
    ensures ColorIndex(ncolors, saturation, saturation) == ncolors - 1
  {
    hide Share;
    FullAndEmptyShare(saturation);
    var n := (ncolors - 1) as real;
    assert n * 0.0 == 0.0 && n * 1.0 == n;
    assert (n + 0.5).Floor == ncolors - 1;
    assert (0.5).Floor == 0;
  }

  /**
    Colour `i` is the nearest one: of colours spread evenly from no heat to the saturation, it is at most half a step
    from the heat.
   */
  ghost predicate NearestColor(ncolors: nat, saturation: real, heat: real, i: int) {
    var shown := if heat > saturation then saturation else heat;
    (i as real - 0.5) * saturation <= (ncolors - 1) as real * shown < (i as real + 0.5) * saturation
  }

  lemma TimesStrictlyOrdered(n: real, a: real, b: real)
    requires n > 0.0 && a < b
    ensures a * n < b * n
  {
  }

  lemma ShareTimesSaturation(n: real, saturation: real, heat: real, x: real)
    requires saturation > 0.0 && x == n * Share(saturation, heat)
    ensures x * saturation == n * (if heat > saturation then saturation else heat)
  {
    var shown := if heat > saturation then saturation else heat;
    Quotient(shown, saturation);
    Regroup(n, shown / saturation, saturation);
  }

  lemma Quotient(a: real, b: real)
    requires b > 0.0
    ensures (a / b) * b == a
  {
  }

  lemma Regroup(a: real, b: real, c: real)
    ensures (a * b) * c == a * (b * c)
  {
  }

  lemma IndexIsNearest(ncolors: nat, saturation: real, heat: real)
    requires ncolors > 0 && saturation > 0.0
    ensures NearestColor(ncolors, saturation, heat, ColorIndex(ncolors, saturation, heat))
  {
    hide Share;
    var n := (ncolors - 1) as real;
    var x, i := n * Share(saturation, heat), ColorIndex(ncolors, saturation, heat);
    assert i as real <= x + 0.5 < i as real + 1.0;
    Between(i as real - 0.5, x, i as real + 0.5, saturation);
    ShareTimesSaturation(n, saturation, heat, x);
    var shown := if heat > saturation then saturation else heat;
    SameBetween((i as real - 0.5) * saturation, x * saturation, (i as real + 0.5) * saturation, n * shown);
  }

  lemma SameBetween(low: real, a: real, high: real, b: real)
    requires low <= a < high && a == b
    ensures low <= b < high
  {
  }

  lemma Between(low: real, x: real, high: real, n: real)
    requires n > 0.0 && low <= x < high
    ensures low * n <= x * n < high * n
  {
    TimesStrictlyOrdered(n, x, high);
    if low < x {
      TimesStrictlyOrdered(n, low, x);
    }
  }

  /** The four bytes of cell `k` are those of the colour nearest to its heat. */
  ghost predicate ShowsNearest(colorbuf: seq<byte>, heat: real, colors: seq<byte>, saturation: real, k: nat) {
    exists i: nat :: 4 * i + 4 <= |colors| && NearestColor(|colors| / 4, saturation, heat, i)
                     && 4 * k + 4 <= |colorbuf| && colorbuf[4 * k..4 * k + 4] == colors[4 * i..4 * i + 4]
  }

  lemma ColoredShowsNearest(colorbuf: seq<byte>, heat: real, colors: seq<byte>, saturation: real, k: nat)
    requires |colors| % 4 == 0 && colors != [] && saturation > 0.0 && Colored(colorbuf, heat, colors, saturation, k)
    ensures ShowsNearest(colorbuf, heat, colors, saturation, k)
  {
    hide ColorIndex, NearestColor;
    IndexIsNearest(|colors| / 4, saturation, heat);
    var i: nat := ColorIndex(|colors| / 4, saturation, heat);
    assert 4 * i + 4 <= |colors|;
  }

  lemma AllShowNearest(colorbuf: seq<byte>, heat: seq<real>, colors: seq<byte>, saturation: real)
    requires |colors| % 4 == 0 && colors != [] && saturation > 0.0
    requires ColoredUpTo(colorbuf, heat, colors, saturation, |heat|)
    ensures forall k :: 0 <= k < |heat| ==> ShowsNearest(colorbuf, heat[k], colors, saturation, k)
  {
    hide ShowsNearest, Colored;
    forall k | 0 <= k < |heat|
      ensures ShowsNearest(colorbuf, heat[k], colors, saturation, k)
    {
      ColoredShowsNearest(colorbuf, heat[k], colors, saturation, k);
    }
  }

  /** The four bytes of cell `k` are those of the colour of its heat. */
  ghost predicate Colored(colorbuf: seq<byte>, heat: real, colors: seq<byte>, saturation: real, k: nat)
    requires |colors| % 4 == 0 && saturation > 0.0
  {
    var i := ColorIndex(|colors| / 4, saturation, heat);
    0 <= i < |colors| / 4 && 4 * k + 4 <= |colorbuf| && colorbuf[4 * k..4 * k + 4] == colors[4 * i..4 * i + 4]
  }

  ghost predicate ColoredUpTo(colorbuf: seq<byte>, heat: seq<real>, colors: seq<byte>, saturation: real, n: nat)
    requires |colors| % 4 == 0 && saturation > 0.0
  {
    n <= |heat| && forall k :: 0 <= k < n ==> Colored(colorbuf, heat[k], colors, saturation, k)
  }

  /** Copying the four bytes of one colour. */
  lemma ColorOne(colorbuf: seq<byte>, heat: seq<real>, colors: seq<byte>, saturation: real, n: nat, idx: nat)
    requires |colors| % 4 == 0 && colors != [] && saturation > 0.0 && |colorbuf| >= 4 * |heat|
    requires ColoredUpTo(colorbuf, heat, colors, saturation, n) && n < |heat| && heat[n] >= 0.0
    requires idx == ColorIndex(|colors| / 4, saturation, heat[n]) && idx < |colors| / 4
    ensures var after := Overwritten(colorbuf, 4 * n, colors[4 * idx..4 * idx + 4]);
            && ColoredUpTo(after, heat, colors, saturation, n + 1)
            && after[4 * |heat|..] == colorbuf[4 * |heat|..]
  {
    hide ColorIndex;
    var after := Overwritten(colorbuf, 4 * n, colors[4 * idx..4 * idx + 4]);
    var next := n + 1;
    forall k | 0 <= k < next
      ensures Colored(after, heat[k], colors, saturation, k)
    {
      if k < n {
        assert Colored(colorbuf, heat[k], colors, saturation, k);
      }
      assert 4 * k + 4 <= 4 * n || k == n;
    }
  }

  lemma NoneColored(colorbuf: seq<byte>, heat: seq<real>, colors: seq<byte>, saturation: real)
    requires |colors| % 4 == 0 && saturation > 0.0
    ensures ColoredUpTo(colorbuf, heat, colors, saturation, 0)
  {
  }

  /** In a picture coloured up to the largest heat, the hottest cell has the last colour. */
  lemma HottestHasLastColor(colorbuf: seq<byte>, heat: seq<real>, max: real, colors: seq<byte>) returns (k: nat)
    requires |colors| % 4 == 0 && colors != [] && MaxOk(heat, max) && max > 0.0
    requires ColoredUpTo(colorbuf, heat, colors, max, |heat|)
    ensures k < |heat| && heat[k] == max && 4 * k + 4 <= |colorbuf|
    ensures colorbuf[4 * k..4 * k + 4] == colors[|colors| - 4..]
  {
    k :| 0 <= k < |heat| && heat[k] == max;
    assert Colored(colorbuf, heat[k], colors, max, k);
    ColorInRange(|colors| / 4, max, max);
    assert 4 * (|colors| / 4 - 1) == |colors| - 4;
  }

  method CopyTo(buf: array<byte>, at: nat, part: seq<byte>)
    requires at + |part| <= buf.Length
    modifies buf
    ensures buf[..] == Overwritten(old(buf[..]), at, part)
  {
    for i := 0 to |part|
      invariant forall k :: 0 <= k < buf.Length ==> buf[k] == if at <= k < at + i then part[k - at] else old(buf[k])
    {
      buf[at + i] := part[i];
    }
  }

  lemma LineStart(w: nat, y: nat)
    ensures y * w == Cell(w, 0, y) == w * y && 4 * y * w == 4 * (y * w)
  {
  }

  lemma NextCell(w: nat, x: nat, y: nat)
    ensures Cell(w, x + 1, y) == Cell(w, x, y) + 1
  {
  }

  lemma NextLine(w: nat, y: nat)
    ensures Cell(w, w, y) == Cell(w, 0, y + 1)
  {
  }

  // ----- the map itself

  class Heatmap {
    const w: nat
    const h: nat
    const buf: array<real>
    var max: real
    /** All points that have been added. */
    ghost var points: seq<Point>

    ghost predicate Valid()
      reads this, buf
    {
      && PointsOk(points)
      && HeatIs(buf[..], points, w, h)
      && MaxOk(buf[..], max)
    }

    constructor (w: nat, h: nat)
      ensures Valid() && this.w == w && this.h == h && points == []
      ensures fresh(buf) && buf.Length == w * h && max == 0.0 && forall k :: 0 <= k < buf.Length ==> buf[k] == 0.0
    {
      this.w, this.h := w, h;
      buf := new real[w * h](_ => 0.0);
      max := 0.0;
      points := [];
      new;
      NoHeat(buf[..], w, h);
    }

    /** Adds a stamp around a point. Points outside of the map are ignored. */
    method AddPointWithStamp(x: nat, y: nat, stamp: Stamp)
      requires Valid() && StampOk(stamp)
      modifies this, buf
      ensures Valid() && points == old(points) + [Point(x, y, 1.0, stamp)]
      ensures forall cx, cy :: 0 <= cx < w && 0 <= cy < h ==>
                Stamped(old(buf[..]), buf[..], w, h, x, y, 1.0, stamp, cx, cy)
    {
      hide Stamped, Added, Cell, MaxOk, DrawnUpTo, StampOk, CellHeat;
      ghost var p := Point(x, y, 1.0, stamp);
      ghost var before := buf[..];
      if x < w && y < h {
        var x0, y0 := First(stamp.w, x), First(stamp.h, y);
        var x1, y1 := End(stamp.w, x, w), End(stamp.h, y, h);
        var iy := y0;
        NothingDrawn(before, p, w, h);
        while iy < y1
          invariant y0 <= iy && points == old(points)
          invariant DrawnUpTo(buf[..], before, p, w, h, x0, iy) && MaxOk(buf[..], max)
        {
          var line := (y + iy - stamp.h / 2) * w + (x + x0) - stamp.w / 2;
          var stampline := iy * stamp.w + x0;
          var ix := x0;
          while ix < x1
            invariant x0 <= ix && points == old(points)
            invariant line == (y + iy - stamp.h / 2) * w + (x + ix) - stamp.w / 2
            invariant stampline == iy * stamp.w + ix
            invariant DrawnUpTo(buf[..], before, p, w, h, ix, iy) && MaxOk(buf[..], max)
          {
            StampOne(buf[..], before, max, p, w, h, ix, iy);
            ghost var v := buf[line] + stamp.buf[stampline];
            ghost var after, top := buf[..][line := v], if v > max then v else max;
            buf[line] := buf[line] + stamp.buf[stampline];
            if buf[line] > max {
              max := buf[line];
            }
            assert buf[..] == after && max == top;
            ix, line, stampline := ix + 1, line + 1, stampline + 1;
          }
          NextRow(buf[..], before, p, w, h, ix, iy);
          iy := iy + 1;
        }
        AllDrawn(buf[..], before, p, w, h, x0, iy);
      } else {
        OutsideAddsNothing(before, p, w, h);
      }
      HeatStep(buf[..], before, points, p, w, h);
      AllStamped(before, buf[..], p, w, h);
      points := points + [p];
    }

    /** Adds a stamp around a point, scaled by a weight. Points outside of the map are ignored. */
    method AddWeightedPointWithStamp(x: nat, y: nat, weight: real, stamp: Stamp)
      requires Valid() && weight >= 0.0 && StampOk(stamp)
      modifies this, buf
      ensures Valid() && points == old(points) + [Point(x, y, weight, stamp)]
      ensures forall cx, cy :: 0 <= cx < w && 0 <= cy < h ==>
                Stamped(old(buf[..]), buf[..], w, h, x, y, weight, stamp, cx, cy)
    {
      hide Stamped, Added, Cell, MaxOk, DrawnUpTo, StampOk, CellHeat, Weighted;
      ghost var p := Point(x, y, weight, stamp);
      ghost var before := buf[..];
      if x < w && y < h {
        var x0, y0 := First(stamp.w, x), First(stamp.h, y);
        var x1, y1 := End(stamp.w, x, w), End(stamp.h, y, h);
        var iy := y0;
        NothingDrawn(before, p, w, h);
        while iy < y1
          invariant y0 <= iy && points == old(points)
          invariant DrawnUpTo(buf[..], before, p, w, h, x0, iy) && MaxOk(buf[..], max)
        {
          var line := (y + iy - stamp.h / 2) * w + (x + x0) - stamp.w / 2;
          var stampline := iy * stamp.w + x0;
          var ix := x0;
          while ix < x1
            invariant x0 <= ix && points == old(points)
            invariant line == (y + iy - stamp.h / 2) * w + (x + ix) - stamp.w / 2
            invariant stampline == iy * stamp.w + ix
            invariant DrawnUpTo(buf[..], before, p, w, h, ix, iy) && MaxOk(buf[..], max)
          {
            StampOne(buf[..], before, max, p, w, h, ix, iy);
            ghost var v := buf[line] + Weighted(stamp.buf[stampline], weight);
            ghost var after, top := buf[..][line := v], if v > max then v else max;
            buf[line] := buf[line] + Weighted(stamp.buf[stampline], weight);
            if buf[line] > max {
              max := buf[line];
            }
            assert buf[..] == after && max == top;
            ix, line, stampline := ix + 1, line + 1, stampline + 1;
          }
          NextRow(buf[..], before, p, w, h, ix, iy);
          iy := iy + 1;
        }
        AllDrawn(buf[..], before, p, w, h, x0, iy);
      } else {
        OutsideAddsNothing(before, p, w, h);
      }
      HeatStep(buf[..], before, points, p, w, h);
      AllStamped(before, buf[..], p, w, h);
      points := points + [p];
    }

    /** Turns heat into colours; heat above the saturation counts as the saturation. */
    method RenderSaturatedTo(colors: seq<byte>, saturation: real, colorbuf: array<byte>)
      requires Valid() && saturation > 0.0 && colors != [] && |colors| % 4 == 0 && colorbuf.Length >= 4 * buf.Length
      modifies colorbuf
      ensures ColoredUpTo(colorbuf[..], buf[..], colors, saturation, buf.Length)
      ensures forall k :: 0 <= k < buf.Length ==> ShowsNearest(colorbuf[..], buf[k], colors, saturation, k)
      ensures colorbuf[4 * buf.Length..] == old(colorbuf[4 * buf.Length..])
    {
      hide ShowsNearest, CellHeat, ColorIndex, Heat, Colored, ColoredUpTo, Cell, Overwritten;
      ghost var heat, rest := buf[..], colorbuf[4 * buf.Length..];
      var ncolors := |colors| / 4;
      var y := 0;
      NoneColored(colorbuf[..], heat, colors, saturation);
      CellIs(w, 0, 0);
      while y < h
        invariant y <= h && buf[..] == heat
        invariant ColoredUpTo(colorbuf[..], heat, colors, saturation, Cell(w, 0, y))
        invariant colorbuf[..][4 * buf.Length..] == rest
      {
        var bufline, colorline := y * w, 4 * y * w;
        var x := 0;
        LineStart(w, y);
        while x < w
          invariant x <= w && bufline == Cell(w, x, y) && colorline == 4 * bufline && buf[..] == heat
          invariant ColoredUpTo(colorbuf[..], heat, colors, saturation, bufline)
          invariant colorbuf[..][4 * buf.Length..] == rest
        {
          CellBound(w, h, x, y);
          NextCell(w, x, y);
          assert bufline < |heat| && buf[bufline] == heat[bufline];
          ColorInRange(ncolors, saturation, buf[bufline]);
          var idx := ColorIndex(ncolors, saturation, buf[bufline]);
          ColorOne(colorbuf[..], heat, colors, saturation, bufline, idx);
          CopyTo(colorbuf, colorline, colors[4 * idx..4 * idx + 4]);
          x, bufline, colorline := x + 1, bufline + 1, colorline + 4;
        }
        NextLine(w, y);
        y := y + 1;
      }
      LineStart(w, h);
      AllShowNearest(colorbuf[..], heat, colors, saturation);
    }

    /** Colours with the largest heat as the saturation, or with any saturation if there is no heat. */
    method RenderTo(colors: seq<byte>, colorbuf: array<byte>)
      requires Valid() && colors != [] && |colors| % 4 == 0 && colorbuf.Length >= 4 * (w * h)
      modifies colorbuf
      ensures ColoredUpTo(colorbuf[..], buf[..], colors, if max > 0.0 then max else 1.0, w * h)
      ensures forall k :: 0 <= k < buf.Length ==>
                ShowsNearest(colorbuf[..], buf[k], colors, if max > 0.0 then max else 1.0, k)
      ensures colorbuf[4 * (w * h)..] == old(colorbuf[4 * (w * h)..])
    {
      RenderSaturatedTo(colors, if max > 0.0 then max else 1.0, colorbuf);
    }
  }
}
