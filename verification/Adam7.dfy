/**
  Adam7 interlacing (section 8.2 of the PNG Specification, Second Edition): seven
  reduced images that together hold every pixel once.
 */
module Adam7 {
  import opened Bits
  import opened Modular
  import opened ScanlineImage

  const IX: seq<nat> := [0, 4, 0, 2, 0, 1, 0]  // x start values
  const IY: seq<nat> := [0, 0, 4, 0, 2, 0, 1]  // y start values
  const DX: seq<nat> := [8, 8, 4, 4, 2, 2, 1]  // x delta values
  const DY: seq<nat> := [8, 8, 8, 4, 4, 2, 2]  // y delta values

  // ----- which pass a pixel belongs to

  function PassOf(x: nat, y: nat): (i: nat)
    ensures i < 7
  {
    if y % 2 == 1 then 6
    else if x % 2 == 1 then 5
    else if y % 4 == 2 then 4
    else if x % 4 == 2 then 3
    else if y % 8 == 4 then 2
    else if x % 8 == 4 then 1
    else 0
  }

  /** Width and height of a pass before empty ones are evened out. */
  function RawWidth(w: nat, i: nat): nat
    requires i < 7 && w > 0
  {
    (w + DX[i] - IX[i] - 1) / DX[i]
  }

  function RawHeight(h: nat, i: nat): nat
    requires i < 7 && h > 0
  {
    (h + DY[i] - IY[i] - 1) / DY[i]
  }

  function PassWidth(w: nat, h: nat, i: nat): nat
    requires i < 7 && w > 0 && h > 0
  {
    if RawHeight(h, i) == 0 then 0 else RawWidth(w, i)
  }

  function PassHeight(w: nat, h: nat, i: nat): nat
    requires i < 7 && w > 0 && h > 0
  {
    if RawWidth(w, i) == 0 then 0 else RawHeight(h, i)
  }

  /** The column and row of pixel (x, y) within its pass. */
  function Column(x: nat, y: nat): nat {
    if x < IX[PassOf(x, y)] then 0 else (x - IX[PassOf(x, y)]) / DX[PassOf(x, y)]
  }

  function Row(x: nat, y: nat): nat {
    if y < IY[PassOf(x, y)] then 0 else (y - IY[PassOf(x, y)]) / DY[PassOf(x, y)]
  }

  /** A coordinate on the grid of a pass is one of its columns or rows. */
  lemma OnGrid(v: nat, n: nat, start: nat, delta: nat)
    requires delta == 1 || delta == 2 || delta == 4 || delta == 8
    requires start <= v < n && start < delta && (v - start) % delta == 0
    ensures (v - start) / delta < (n + delta - start - 1) / delta
    ensures v == start + (v - start) / delta * delta
  {
  }

  lemma Remainders(v: nat)
    ensures v % 4 == 0 <==> v % 8 == 0 || v % 8 == 4
    ensures v % 4 == 2 ==> v % 2 == 0
    ensures v % 2 == 0 <==> v % 4 == 0 || v % 4 == 2
    ensures v % 4 == 2 ==> v >= 2 && (v - 2) % 4 == 0
    ensures v % 2 == 1 ==> v >= 1 && (v - 1) % 2 == 0
    ensures v % 8 == 4 ==> v >= 4 && (v - 4) % 8 == 0
  {
  }

  /** The remainders that put a pixel into its pass. */
  lemma PassGrid(x: nat, y: nat)
    ensures var i := PassOf(x, y);
            && IX[i] <= x && (x - IX[i]) % DX[i] == 0 && IY[i] <= y && (y - IY[i]) % DY[i] == 0
  {
    Remainders(x);
    Remainders(y);
  }

  lemma Strides(i: nat)
    requires i < 7
    ensures |DX| == |DY| == 7
    ensures DX[i] == 1 || DX[i] == 2 || DX[i] == 4 || DX[i] == 8
    ensures DY[i] == 1 || DY[i] == 2 || DY[i] == 4 || DY[i] == 8
    ensures |IX| == |IY| == |DX| == |DY| == 7 && IX[i] < DX[i] && IY[i] < DY[i]
  {
  }

  /** Every pixel lies in its pass, at its column and row. */
  lemma PixelInPass(w: nat, h: nat, x: nat, y: nat)
    requires x < w && y < h
    ensures var i := PassOf(x, y);
            && Column(x, y) < PassWidth(w, h, i) && Row(x, y) < PassHeight(w, h, i)
            && x == IX[i] + Column(x, y) * DX[i] && y == IY[i] + Row(x, y) * DY[i]
  {
    hide PassOf, IX, IY, DX, DY;
    var i := PassOf(x, y);
    Strides(i);
    PassGrid(x, y);
    OnGrid(x, w, IX[i], DX[i]);
    OnGrid(y, h, IY[i], DY[i]);
  }

  lemma BackOnGrid(k: nat, n: nat, start: nat, delta: nat)
    requires delta == 1 || delta == 2 || delta == 4 || delta == 8
    requires n > 0 && start < delta && k < (n + delta - start - 1) / delta
    ensures start + k * delta < n && (start + k * delta - start) / delta == k
  {
  }

  lemma GridCoarse(column: nat, row: nat)
    ensures PassOf(8 * column, 8 * row) == 0 && PassOf(4 + 8 * column, 8 * row) == 1
  {
  }

  lemma GridMiddle(column: nat, row: nat)
    ensures PassOf(4 * column, 4 + 8 * row) == 2 && PassOf(2 + 4 * column, 4 * row) == 3
  {
  }

  lemma Parity(k: nat)
    ensures 2 * k % 2 == 0 && (1 + 2 * k) % 2 == 1
  {
  }

  lemma GridFine(column: nat, row: nat)
    ensures PassOf(2 * column, 2 + 4 * row) == 4 && PassOf(1 + 2 * column, 2 * row) == 5 && PassOf(column, 1 + 2 * row) == 6
  {
    Parity(column);
    Parity(row);
    Parity(1 + 2 * row);
    var x, y, z := 1 + 2 * column, 2 * row, 2 + 4 * row;
    assert z % 4 == 2;
    assert PassOf(x, y) == 5;
    assert z == 2 * (1 + 2 * row) && PassOf(2 * column, z) == 4;
  }

  lemma GridPass(i: nat, column: nat, row: nat)
    requires i < 7
    ensures |IX| == |IY| == |DX| == |DY| == 7
    ensures PassOf(IX[i] + column * DX[i], IY[i] + row * DY[i]) == i
  {
    hide PassOf;
    GridCoarse(column, row);
    GridMiddle(column, row);
    GridFine(column, row);
  }

  /** Every place of a pass holds a pixel of that pass. */
  lemma PassHoldsPixel(w: nat, h: nat, i: nat, column: nat, row: nat)
    requires i < 7 && w > 0 && h > 0 && column < PassWidth(w, h, i) && row < PassHeight(w, h, i)
    ensures var x, y := IX[i] + column * DX[i], IY[i] + row * DY[i];
            x < w && y < h && PassOf(x, y) == i && Column(x, y) == column && Row(x, y) == row
  {
    hide PassOf, IX, IY, DX, DY;
    Strides(i);
    GridPass(i, column, row);
    BackOnGrid(column, w, IX[i], DX[i]);
    BackOnGrid(row, h, IY[i], DY[i]);
  }

  // ----- positions of the units of a pixel

  /** Position of unit `b` of the pixel at (x, y), in an image of width `w` with `s` units a pixel. */
  function At(w: nat, s: nat, x: nat, y: nat, b: nat): nat {
    s * (w * y + x) + b
  }

  /** How many units an image has. */
  function Units(w: nat, h: nat, s: nat): nat {
    s * (w * h)
  }

  lemma AtBound(w: nat, h: nat, s: nat, x: nat, y: nat, b: nat)
    requires x < w && y < h && b < s
    ensures At(w, s, x, y, b) < Units(w, h, s)
  {
    MulSub(w, h, y);
    MulAtLeast(w, h - y);
    assert w * y + x < w * h;
    MulSub(s, w * h, w * y + x);
    MulAtLeast(s, w * h - (w * y + x));
  }

  lemma AtInjective(w: nat, s: nat, x: nat, y: nat, b: nat, x': nat, y': nat, b': nat)
    requires x < w && x' < w && b < s && b' < s && At(w, s, x, y, b) == At(w, s, x', y', b')
    ensures x == x' && y == y' && b == b'
  {
    EuclidUnique(s, w * y + x, b, w * y' + x', b');
    EuclidUnique(w, y, x, y', x');
  }

  lemma AtCovers(w: nat, h: nat, s: nat, k: nat) returns (x: nat, y: nat, b: nat)
    requires k < Units(w, h, s)
    ensures x < w && y < h && b < s && At(w, s, x, y, b) == k
  {
    DivideBelow(s, w * h, k);
    DivideBelow(w, h, k / s);
    b := k % s;
    x := (k / s) % w;
    y := (k / s) / w;
  }

  lemma DivideBelow(d: nat, n: nat, k: nat)
    requires k < d * n
    ensures d > 0 && k / d < n && k == d * (k / d) + k % d
  {
    if d == 0 {
      ZeroTimes(n);
    } else if k / d >= n {
      MulSub(d, k / d, n);
      MulNonNegative(d, k / d - n);
    }
  }

  lemma ZeroTimes(n: nat)
    ensures 0 * n == 0
  {
  }

  lemma MulNonNegative(a: nat, b: nat)
    ensures a * b >= 0
  {
  }

  // ----- moving units between an image and its reduced images

  /** Reduced image `i` begins at `starts[i]`, and they do not overlap. */
  ghost predicate StartsOk(starts: seq<nat>, w: nat, h: nat, s: nat) {
    && |starts| == 8 && w > 0 && h > 0
    && forall i :: 0 <= i < 7 ==> RoomFor(starts, w, h, s, i)
  }

  ghost predicate RoomFor(starts: seq<nat>, w: nat, h: nat, s: nat, i: nat)
    requires |starts| == 8 && w > 0 && h > 0 && i < 7
  {
    starts[i] + s * (PassWidth(w, h, i) * PassHeight(w, h, i)) <= starts[i + 1]
  }

  /** Where unit `b` of pixel (x, y) is in the reduced images. */
  function Place(starts: seq<nat>, w: nat, h: nat, s: nat, x: nat, y: nat, b: nat): nat
    requires |starts| == 8 && w > 0 && h > 0
  {
    starts[PassOf(x, y)] + At(PassWidth(w, h, PassOf(x, y)), s, Column(x, y), Row(x, y), b)
  }

  lemma PlaceBound(starts: seq<nat>, w: nat, h: nat, s: nat, x: nat, y: nat, b: nat)
    requires StartsOk(starts, w, h, s) && x < w && y < h && b < s
    ensures var i := PassOf(x, y); starts[i] <= Place(starts, w, h, s, x, y, b) < starts[i + 1] <= starts[7]
  {
    hide PassOf, Column, Row, PassWidth, PassHeight;
    var i := PassOf(x, y);
    PixelInPass(w, h, x, y);
    AtBound(PassWidth(w, h, i), PassHeight(w, h, i), s, Column(x, y), Row(x, y), b);
    assert RoomFor(starts, w, h, s, i);
    StartsRise(starts, w, h, s, i + 1, 7);
  }

  lemma {:induction false} StartsRise(starts: seq<nat>, w: nat, h: nat, s: nat, i: nat, j: nat)
    requires StartsOk(starts, w, h, s) && i <= j <= 7
    ensures starts[i] <= starts[j]
    decreases j
  {
    hide PassWidth, PassHeight;
    if i < j {
      StartsRise(starts, w, h, s, i, j - 1);
      assert RoomFor(starts, w, h, s, j - 1);
    }
  }

  lemma PlaceInjective(starts: seq<nat>, w: nat, h: nat, s: nat, x: nat, y: nat, b: nat, x': nat, y': nat, b': nat)
    requires StartsOk(starts, w, h, s) && x < w && y < h && b < s && x' < w && y' < h && b' < s
    requires Place(starts, w, h, s, x, y, b) == Place(starts, w, h, s, x', y', b')
    ensures x == x' && y == y' && b == b'
  {
    hide PassOf, Column, Row, PassWidth, PassHeight, StartsOk, At;
    PlaceBound(starts, w, h, s, x, y, b);
    PlaceBound(starts, w, h, s, x', y', b');
    var i, j := PassOf(x, y), PassOf(x', y');
    StartsSize(starts, w, h, s);
    if i < j {
      StartsRise(starts, w, h, s, i + 1, j);
    } else if j < i {
      StartsRise(starts, w, h, s, j + 1, i);
    }
    PixelInPass(w, h, x, y);
    PixelInPass(w, h, x', y');
    AtInjective(PassWidth(w, h, i), s, Column(x, y), Row(x, y), b, Column(x', y'), Row(x', y'), b');
  }

  lemma StartsSize(starts: seq<nat>, w: nat, h: nat, s: nat)
    requires StartsOk(starts, w, h, s)
    ensures |starts| == 8 && w > 0 && h > 0
  {
  }

  /** Unit `b` of pixel (x, y) is the same in the reduced images and in the image. */
  ghost predicate UnitMoved<T>(mid: seq<T>, img: seq<T>, starts: seq<nat>, w: nat, h: nat, s: nat, x: nat, y: nat, b: nat)
    requires |starts| == 8 && w > 0 && h > 0
  {
    && Place(starts, w, h, s, x, y, b) < |mid| && At(w, s, x, y, b) < |img|
    && mid[Place(starts, w, h, s, x, y, b)] == img[At(w, s, x, y, b)]
  }

  /** The reduced images together are the image. */
  ghost predicate Interlaced<T>(mid: seq<T>, img: seq<T>, starts: seq<nat>, w: nat, h: nat, s: nat) {
    && |starts| == 8 && w > 0 && h > 0
    && forall x, y, b :: 0 <= x < w && 0 <= y < h && 0 <= b < s ==> UnitMoved(mid, img, starts, w, h, s, x, y, b)
  }

  /** The reduced images determine the image: every one of its units is a unit of some pixel. */
  lemma ImageDetermined<T>(mid: seq<T>, img: seq<T>, mid': seq<T>, img': seq<T>, starts: seq<nat>, w: nat, h: nat, s: nat)
    requires Interlaced(mid, img, starts, w, h, s) && Interlaced(mid', img', starts, w, h, s)
    requires Units(w, h, s) <= |img| && Units(w, h, s) <= |img'|
    requires forall x, y, b :: 0 <= x < w && 0 <= y < h && 0 <= b < s ==> SamePlace(mid, mid', starts, w, h, s, x, y, b)
    ensures img[..Units(w, h, s)] == img'[..Units(w, h, s)]
  {
    hide Place, At, Units;
    var size := Units(w, h, s);
    forall k: nat | k < size
      ensures img[k] == img'[k]
    {
      var x, y, b := AtCovers(w, h, s, k);
      assert UnitMoved(mid, img, starts, w, h, s, x, y, b);
      assert UnitMoved(mid', img', starts, w, h, s, x, y, b);
      assert SamePlace(mid, mid', starts, w, h, s, x, y, b);
    }
  }

  ghost predicate SamePlace<T>(mid: seq<T>, mid': seq<T>, starts: seq<nat>, w: nat, h: nat, s: nat, x: nat, y: nat, b: nat)
    requires |starts| == 8 && w > 0 && h > 0
  {
    var p := Place(starts, w, h, s, x, y, b);
    p < |mid| && p < |mid'| && mid[p] == mid'[p]
  }

  // ----- the order of the loops: passes, rows, columns, units

  ghost predicate Earlier(x: nat, y: nat, b: nat, i: nat, row: nat, column: nat, c: nat) {
    PassOf(x, y) < i || (PassOf(x, y) == i && (Row(x, y) < row || (Row(x, y) == row && (Column(x, y) < column || (Column(x, y) == column && b < c)))))
  }

  /** Everything that comes earlier has been moved. */
  ghost predicate MovedUpTo<T>(mid: seq<T>, img: seq<T>, starts: seq<nat>, w: nat, h: nat, s: nat,
                               i: nat, row: nat, column: nat, c: nat) {
    && StartsOk(starts, w, h, s) && starts[7] <= |mid| && Units(w, h, s) <= |img|
    && forall x, y, b :: 0 <= x < w && 0 <= y < h && 0 <= b < s && Earlier(x, y, b, i, row, column, c) ==>
         UnitMoved(mid, img, starts, w, h, s, x, y, b)
  }

  /** The pixel at a place of a pass, and where its unit is on both sides. */
  lemma ThisUnit<T>(mid: seq<T>, img: seq<T>, starts: seq<nat>, w: nat, h: nat, s: nat, i: nat, row: nat, column: nat, c: nat)
    requires MovedUpTo(mid, img, starts, w, h, s, i, row, column, c)
    requires i < 7 && row < PassHeight(w, h, i) && column < PassWidth(w, h, i) && c < s
    ensures var x, y := IX[i] + column * DX[i], IY[i] + row * DY[i];
            && x < w && y < h && PassOf(x, y) == i && Column(x, y) == column && Row(x, y) == row
            && starts[i] + At(PassWidth(w, h, i), s, column, row, c) == Place(starts, w, h, s, x, y, c) < |mid|
            && At(w, s, x, y, c) < |img|
  {
    hide PassWidth, PassHeight, Column, Row, PassOf, At;
    PassHoldsPixel(w, h, i, column, row);
    var x, y := IX[i] + column * DX[i], IY[i] + row * DY[i];
    PlaceBound(starts, w, h, s, x, y, c);
    AtBound(w, h, s, x, y, c);
  }

  /** Moving a unit into the reduced images. */
  lemma MoveIn<T>(mid: seq<T>, img: seq<T>, starts: seq<nat>, w: nat, h: nat, s: nat, i: nat, row: nat, column: nat, c: nat,
                  x: nat, y: nat)
    requires MovedUpTo(mid, img, starts, w, h, s, i, row, column, c) && x < w && y < h && c < s
    requires PassOf(x, y) == i && Column(x, y) == column && Row(x, y) == row
    requires Place(starts, w, h, s, x, y, c) < |mid| && At(w, s, x, y, c) < |img|
    ensures MovedUpTo(mid[Place(starts, w, h, s, x, y, c) := img[At(w, s, x, y, c)]], img, starts, w, h, s, i, row, column, c + 1)
  {
    hide PassOf, Column, Row, Place, At, StartsOk;
    StartsSize(starts, w, h, s);
    var p := Place(starts, w, h, s, x, y, c);
    var mid' := mid[p := img[At(w, s, x, y, c)]];
    forall x', y', b' | 0 <= x' < w && 0 <= y' < h && 0 <= b' < s && Earlier(x', y', b', i, row, column, c + 1)
      ensures UnitMoved(mid', img, starts, w, h, s, x', y', b')
    {
      if Place(starts, w, h, s, x', y', b') == p {
        PlaceInjective(starts, w, h, s, x, y, c, x', y', b');
      } else {
        SamePixel(w, h, x, y, x', y');
        assert Earlier(x', y', b', i, row, column, c);
      }
    }
  }

  /** Moving a unit out of the reduced images. */
  lemma MoveOut<T>(mid: seq<T>, img: seq<T>, starts: seq<nat>, w: nat, h: nat, s: nat, i: nat, row: nat, column: nat, c: nat,
                   x: nat, y: nat)
    requires MovedUpTo(mid, img, starts, w, h, s, i, row, column, c) && x < w && y < h && c < s
    requires PassOf(x, y) == i && Column(x, y) == column && Row(x, y) == row
    requires Place(starts, w, h, s, x, y, c) < |mid| && At(w, s, x, y, c) < |img|
    ensures MovedUpTo(mid, img[At(w, s, x, y, c) := mid[Place(starts, w, h, s, x, y, c)]], starts, w, h, s, i, row, column, c + 1)
  {
    hide PassOf, Column, Row, Place, At, StartsOk;
    StartsSize(starts, w, h, s);
    var p := At(w, s, x, y, c);
    var img' := img[p := mid[Place(starts, w, h, s, x, y, c)]];
    forall x', y', b' | 0 <= x' < w && 0 <= y' < h && 0 <= b' < s && Earlier(x', y', b', i, row, column, c + 1)
      ensures UnitMoved(mid, img', starts, w, h, s, x', y', b')
    {
      if At(w, s, x', y', b') == p {
        AtInjective(w, s, x, y, c, x', y', b');
      } else {
        SamePixel(w, h, x, y, x', y');
        assert Earlier(x', y', b', i, row, column, c);
      }
    }
  }

  /** Pass, column and row identify a pixel. */
  lemma SamePixel(w: nat, h: nat, x: nat, y: nat, x': nat, y': nat)
    requires x < w && y < h && x' < w && y' < h
    ensures PassOf(x, y) == PassOf(x', y') && Column(x, y) == Column(x', y') && Row(x, y) == Row(x', y') ==> x == x' && y == y'
  {
    hide PassOf, Column, Row;
    PixelInPass(w, h, x, y);
    PixelInPass(w, h, x', y');
  }

  lemma NothingMoved<T>(mid: seq<T>, img: seq<T>, starts: seq<nat>, w: nat, h: nat, s: nat)
    requires StartsOk(starts, w, h, s) && starts[7] <= |mid| && Units(w, h, s) <= |img|
    ensures MovedUpTo(mid, img, starts, w, h, s, 0, 0, 0, 0)
  {
    hide PassOf, Column, Row, Place, At, StartsOk;
  }

  lemma NextPixel<T>(mid: seq<T>, img: seq<T>, starts: seq<nat>, w: nat, h: nat, s: nat, i: nat, row: nat, column: nat)
    requires MovedUpTo(mid, img, starts, w, h, s, i, row, column, s)
    ensures MovedUpTo(mid, img, starts, w, h, s, i, row, column + 1, 0)
  {
    hide PassOf, Column, Row, Place, At, StartsOk, UnitMoved;
    StartsSize(starts, w, h, s);
    forall x, y, b | 0 <= x < w && 0 <= y < h && 0 <= b < s && Earlier(x, y, b, i, row, column + 1, 0)
      ensures UnitMoved(mid, img, starts, w, h, s, x, y, b)
    {
      assert Earlier(x, y, b, i, row, column, s);
    }
  }

  lemma NextRow<T>(mid: seq<T>, img: seq<T>, starts: seq<nat>, w: nat, h: nat, s: nat, i: nat, row: nat)
    requires w > 0 && h > 0 && i < 7 && MovedUpTo(mid, img, starts, w, h, s, i, row, PassWidth(w, h, i), 0)
    ensures MovedUpTo(mid, img, starts, w, h, s, i, row + 1, 0, 0)
  {
    hide PassOf, Column, Row, Place, At, StartsOk, UnitMoved, PassWidth, PassHeight;
    StartsSize(starts, w, h, s);
    forall x, y, b | 0 <= x < w && 0 <= y < h && 0 <= b < s && Earlier(x, y, b, i, row + 1, 0, 0)
      ensures UnitMoved(mid, img, starts, w, h, s, x, y, b)
    {
      PixelInPass(w, h, x, y);
      assert Earlier(x, y, b, i, row, PassWidth(w, h, i), 0);
    }
  }

  lemma NextPass<T>(mid: seq<T>, img: seq<T>, starts: seq<nat>, w: nat, h: nat, s: nat, i: nat)
    requires w > 0 && h > 0 && i < 7 && MovedUpTo(mid, img, starts, w, h, s, i, PassHeight(w, h, i), 0, 0)
    ensures MovedUpTo(mid, img, starts, w, h, s, i + 1, 0, 0, 0)
  {
    hide PassOf, Column, Row, Place, At, StartsOk, UnitMoved, PassWidth, PassHeight;
    StartsSize(starts, w, h, s);
    forall x, y, b | 0 <= x < w && 0 <= y < h && 0 <= b < s && Earlier(x, y, b, i + 1, 0, 0, 0)
      ensures UnitMoved(mid, img, starts, w, h, s, x, y, b)
    {
      PixelInPass(w, h, x, y);
      assert Earlier(x, y, b, i, PassHeight(w, h, i), 0, 0);
    }
  }

  lemma EverythingMoved<T>(mid: seq<T>, img: seq<T>, starts: seq<nat>, w: nat, h: nat, s: nat)
    requires MovedUpTo(mid, img, starts, w, h, s, 7, 0, 0, 0)
    ensures Interlaced(mid, img, starts, w, h, s)
  {
    hide Column, Row, Place, At, UnitMoved;
    StartsSize(starts, w, h, s);
    forall x, y, b | 0 <= x < w && 0 <= y < h && 0 <= b < s
      ensures UnitMoved(mid, img, starts, w, h, s, x, y, b)
    {
      assert Earlier(x, y, b, 7, 0, 0, 0);
    }
  }
}
