/**
  The format of PNG scanlines in plain arithmetic (section 7.2 and chapters 8 and 9 of the PNG specification): where
  lines, their filter types and the bits of pixels stand, and which pass a pixel belongs to.
 */
module PngFormat {
  import opened Options
  import opened Bits
  import opened ColorLayout
  import opened PaddingBits
  import opened ScanlineFilter
  import opened ScanlineImage
  import opened Adam7
  import opened Interlace
  import opened Scanlines
  import Modular

  // ----- lines

  /** A filtered line: its filter type, and then its filtered bytes. */
  lemma FilteredFormat(image: seq<byte>, n: nat, bytewidth: nat, types: seq<byte>, y: nat)
    requires ImageOk(image, n, bytewidth, |types|) && y < |types|
    ensures var data, start := FilteredImage(image, n, bytewidth, types), (n + 1) * y;
            && 0 <= n * y && n * y + n <= |image| && 0 <= start && start + 1 + n <= |data| && 0 < bytewidth <= n
            && data[start] == types[y]
            && (y > 0 ==> 0 <= n * y - n)
            && data[start + 1..start + 1 + n]
               == Filtered(image[n * y..n * y + n], if y == 0 then [] else image[n * y - n..n * y], bytewidth, types[y])
  {
    hide Filtered, FilteredImage, Times;
    FilteredRow(image, n, bytewidth, types, y);
    TimesIs(n + 1, y);
    TimesIs(n, y);
    AboveIs(image, n, y);
  }

  lemma AboveIs(image: seq<byte>, n: nat, y: nat)
    requires Times(n, y) <= |image|
    ensures y > 0 ==> Times(n, y) >= n
    ensures Above(image, n, y) == if y == 0 then [] else image[Times(n, y) - n..Times(n, y)]
  {
    if y > 0 {
      OneMore(n, y - 1);
    }
  }

  /** Line `y` is what its type and bytes, and the line above it, decode to. */
  ghost predicate LineDecoded(image: seq<byte>, data: seq<byte>, n: nat, bytewidth: nat, y: nat) {
    var start := Times(n + 1, y);
    && 0 < bytewidth <= n && Times(n, y) + n <= |image| && start + 1 + n <= |data| && data[start] <= 4
    && Line(image, n, y) == Unfiltered(data[start + 1..start + 1 + n], Above(image, n, y), bytewidth, data[start], n)
  }

  lemma LineStays(before: seq<byte>, image: seq<byte>, data: seq<byte>, n: nat, bytewidth: nat, y: nat)
    requires LineDecoded(before, data, n, bytewidth, y) && |before| <= |image| && image[..|before|] == before
    ensures LineDecoded(image, data, n, bytewidth, y)
  {
    hide Unfiltered, Times;
    var start := Times(n, y);
    SliceStays(before, image, start, start + n);
    if y > 0 {
      OneMore(n, y - 1);
      SliceStays(before, image, Times(n, y - 1), start);
    }
  }

  lemma SliceStays(before: seq<byte>, image: seq<byte>, a: nat, b: nat)
    requires a <= b <= |before| <= |image| && image[..|before|] == before
    ensures image[a..b] == before[a..b]
  {
    assert forall k :: a <= k < b ==> image[k] == image[..|before|][k];
  }

  lemma {:induction false} AllDecoded(data: seq<byte>, n: nat, bytewidth: nat, h: nat, y: nat)
    requires 0 < bytewidth <= n && Times(n + 1, h) <= |data| && y < h && UnfilteredImage(data, n, bytewidth, h).Some?
    ensures LineDecoded(UnfilteredImage(data, n, bytewidth, h).value, data, n, bytewidth, y)
    decreases h
  {
    hide Unfiltered, UnfilteredImage, Times, LineDecoded;
    OneMore(n + 1, h - 1);
    var before := LastUnfiltered(data, n, bytewidth, h - 1);
    if y < h - 1 {
      AllDecoded(data, n, bytewidth, h - 1, y);
      LineStays(before, UnfilteredImage(data, n, bytewidth, h).value, data, n, bytewidth, y);
    }
  }

  /** Lines are decoded from the top: each with its type, its bytes, and the decoded line above. */
  lemma UnfilteredFormat(data: seq<byte>, n: nat, bytewidth: nat, h: nat, y: nat)
    requires 0 < bytewidth <= n && Times(n + 1, h) <= |data| && y < h && UnfilteredImage(data, n, bytewidth, h).Some?
    ensures var image, start := UnfilteredImage(data, n, bytewidth, h).value, (n + 1) * y;
            && 0 <= n * y && n * y + n <= |image| && 0 <= start && start + 1 + n <= |data| && data[start] <= 4
            && (y > 0 ==> 0 <= n * y - n)
            && image[n * y..n * y + n]
               == Unfiltered(data[start + 1..start + 1 + n], if y == 0 then [] else image[n * y - n..n * y], bytewidth,
                             data[start], n)
  {
    hide Unfiltered, Times, UnfilteredImage;
    AllDecoded(data, n, bytewidth, h, y);
    TimesIs(n + 1, y);
    TimesIs(n, y);
    AboveIs(UnfilteredImage(data, n, bytewidth, h).value, n, y);
  }

  /** The image so far, and with one more line. */
  ghost predicate OneLineMore(data: seq<byte>, n: nat, bytewidth: nat, y: nat, before: seq<byte>, image: seq<byte>) {
    && LineDecoded(image, data, n, bytewidth, y) && |before| == Times(n, y) <= |image| && image[..|before|] == before
    && Times(n + 1, y) + 1 + n <= |data| && UnfilteredImage(data, n, bytewidth, y) == Some(before)
  }

  lemma UnfilteredLast(data: seq<byte>, n: nat, bytewidth: nat, y: nat)
    requires 0 < bytewidth <= n && Times(n + 1, y + 1) <= |data| && UnfilteredImage(data, n, bytewidth, y + 1).Some?
    ensures Times(n + 1, y) < |data| && UnfilteredImage(data, n, bytewidth, y).Some? && data[Times(n + 1, y)] <= 4
  {
    hide Unfiltered;
    OneMore(n + 1, y);
  }

  lemma LastUnfiltered(data: seq<byte>, n: nat, bytewidth: nat, y: nat) returns (before: seq<byte>)
    requires 0 < bytewidth <= n && Times(n + 1, y + 1) <= |data| && UnfilteredImage(data, n, bytewidth, y + 1).Some?
    ensures OneLineMore(data, n, bytewidth, y, before, UnfilteredImage(data, n, bytewidth, y + 1).value)
  {
    hide Unfiltered, UnfilteredImage, Times, Above;
    OneMore(n + 1, y);
    OneMore(n, y);
    UnfilteredLast(data, n, bytewidth, y);
    before := UnfilteredImage(data, n, bytewidth, y).value;
    RowUnfilters(data, n, bytewidth, y + 1, y, before);
    var image := UnfilteredImage(data, n, bytewidth, y + 1).value;
    assert image[..|before|] == before;
    FirstLines(image, n, y);
  }

  // ----- bits of lines

  lemma BitsAreLeadingBits(data: seq<byte>, k: nat)
    requires k < 8 * |data|
    ensures ReversedBits(data)[k] as nat == LeadingBit(data, k)
  {
    hide LeadingBit;
    BitIsLeading(data, k);
  }

  /** Without padding, the bits of a line follow those of the line before. */
  lemma {:induction false} UnpaddedFormat(bits: seq<bit>, width: nat, padding: nat, h: nat, y: nat, k: nat)
    requires Times(width + padding, h) <= |bits| && y < h && k < width
    ensures Times(width, y) + k < Times(width, h) && Times(width + padding, y) + k < |bits|
    ensures Unpadded(bits, width, padding, h)[Times(width, y) + k] == bits[Times(width + padding, y) + k]
    decreases h
  {
    hide Times;
    OneMore(width, h - 1);
    OneMore(width + padding, h - 1);
    UnpadStep(bits, width, padding, h - 1);
    if y < h - 1 {
      UnpaddedFormat(bits, width, padding, h - 1, y, k);
    }
  }

  /** Where bit `c` of the pixel at (x, y) stands: lines begin with a byte, and pixels follow each other without gaps. */
  function BitPlace(w: nat, bpp: nat, x: nat, y: nat, c: nat): nat {
    MulNonNegative((w * bpp + 7) / 8, y);
    MulNonNegative(x, bpp);
    8 * ((w * bpp + 7) / 8 * y) + x * bpp + c
  }

  /** Bit `c` of the pixel at (x, y) of the pass whose filtered lines begin at `f`. */
  ghost predicate BitStands(data: seq<byte>, f: nat, w: nat, h: nat, bpp: nat, x: nat, y: nat, c: nat, b: bit) {
    && PassFits(data, f, w, h, bpp) && PassLines(data, f, w, h, bpp).Some?
    && b as nat == LeadingBit(PassLines(data, f, w, h, bpp).value, BitPlace(w, bpp, x, y, c))
  }

  lemma PixelOfPass(data: seq<byte>, f: nat, w: nat, h: nat, bpp: nat, x: nat, y: nat, c: nat)
    requires PassFits(data, f, w, h, bpp) && PassBits(data, f, w, h, bpp).Some? && x < w && y < h && c < bpp
    ensures var bits := PassBits(data, f, w, h, bpp).value;
            && 0 <= w * bpp * y && 0 <= x * bpp && w * bpp * y + x * bpp + c < |bits|
            && BitStands(data, f, w, h, bpp, x, y, c, bits[w * bpp * y + x * bpp + c])
  {
    hide Times, PassLines, Unpadded, LeadingBit, ReversedBits;
    var n, width, padding := PaddedLineBytes(w, bpp), w * bpp, PaddingOf(w, bpp);
    var lines := PassLines(data, f, w, h, bpp).value;
    LinePosition(w, bpp, x, c);
    TimesOfBits(n, h);
    TimesOfBits(n, y);
    TimesIs(width, y);
    TimesIs(n, y);
    UnpaddedFormat(ReversedBits(lines), width, padding, h, y, x * bpp + c);
    BitsAreLeadingBits(lines, Times(width + padding, y) + (x * bpp + c));
  }

  lemma LinePosition(w: nat, bpp: nat, x: nat, c: nat)
    requires x < w && c < bpp
    ensures 0 <= x * bpp && x * bpp + c < w * bpp
  {
    assert x * bpp + bpp == (x + 1) * bpp;
    Modular.MulMono(x + 1, w, bpp);
  }

  // ----- passes

  /** The pass of every pixel of an 8 by 8 square, counted from 1 (section 8.1). */
  const PASSES: seq<seq<nat>> := [
    [1, 6, 4, 6, 2, 6, 4, 6],
    [7, 7, 7, 7, 7, 7, 7, 7],
    [5, 6, 5, 6, 5, 6, 5, 6],
    [7, 7, 7, 7, 7, 7, 7, 7],
    [3, 6, 4, 6, 3, 6, 4, 6],
    [7, 7, 7, 7, 7, 7, 7, 7],
    [5, 6, 5, 6, 5, 6, 5, 6],
    [7, 7, 7, 7, 7, 7, 7, 7]]

  lemma PassesAre()
    ensures |PASSES| == 8 && forall j :: 0 <= j < 8 ==> |PASSES[j]| == 8
  {
  }

  /** The pass of the pixel at (x, y), counted from 0. */
  function PassAt(x: nat, y: nat): nat {
    PassesAre();
    if PASSES[y % 8][x % 8] == 0 then 0 else PASSES[y % 8][x % 8] - 1
  }

  lemma PassInSquare(x: nat, y: nat)
    requires x < 8 && y < 8
    ensures PassOf(x, y) == PassAt(x, y)
  {
  }

  lemma PassRepeats(x: nat, y: nat)
    ensures PassOf(x, y) == PassOf(x % 8, y % 8)
  {
    OfEight(x);
    OfEight(y);
  }

  lemma OfEight(v: nat)
    ensures v % 8 % 8 == v % 8 && v % 8 % 4 == v % 4 && v % 8 % 2 == v % 2
  {
    var q, r := v / 8, v % 8;
    ModFour(v, 2 * q + r / 4, r % 4);
    ModTwo(v, 4 * q + r / 2, r % 2);
  }

  lemma ModFour(v: nat, k: nat, r: nat)
    requires v == 4 * k + r && r < 4
    ensures v % 4 == r
  {
  }

  lemma ModTwo(v: nat, k: nat, r: nat)
    requires v == 2 * k + r && r < 2
    ensures v % 2 == r
  {
  }

  /** The passes are those of the square. */
  lemma PassFormat(x: nat, y: nat)
    ensures PassOf(x, y) == PassAt(x, y)
  {
    hide PassOf, PASSES;
    PassRepeats(x, y);
    PassInSquare(x % 8, y % 8);
  }

  /** How many of the first `n` pixels of row `y`, or of column `x`, belong to pass `i`. */
  function InRow(i: nat, n: nat, y: nat): nat {
    if n == 0 then 0 else InRow(i, n - 1, y) + if PassAt(n - 1, y) == i then 1 else 0
  }

  function InColumn(i: nat, x: nat, n: nat): nat {
    if n == 0 then 0 else InColumn(i, x, n - 1) + if PassAt(x, n - 1) == i then 1 else 0
  }

  /** How many of the first `n` places are on a grid. */
  function OnGridBefore(n: nat, start: nat, delta: nat): nat
    requires delta > start
  {
    (n + delta - start - 1) / delta
  }

  lemma GridCounts(n: nat, start: nat, delta: nat)
    requires n > 0 && delta > start && (delta == 1 || delta == 2 || delta == 4 || delta == 8)
    ensures OnGridBefore(n, start, delta)
         == OnGridBefore(n - 1, start, delta) + if n - 1 >= start && (n - 1 - start) % delta == 0 then 1 else 0
  {
  }

  /** In a row that has a pixel of a pass, the pixels of the pass are those on its grid. */
  lemma RowGrid(x: nat, x': nat, y: nat)
    ensures var i := PassOf(x, y);
            i < |IX| && i < |DX| && (PassOf(x', y) == i <==> x' >= IX[i] && (x' - IX[i]) % DX[i] == 0)
  {
    Remainders(x');
    Remainders(x);
  }

  lemma ColumnGrid(x: nat, y: nat, y': nat)
    ensures var i := PassOf(x, y);
            i < |IY| && i < |DY| && (PassOf(x, y') == i <==> y' >= IY[i] && (y' - IY[i]) % DY[i] == 0)
  {
    Remainders(y');
    Remainders(y);
  }

  lemma {:induction false} RowCount(x: nat, y: nat, n: nat)
    ensures var i := PassOf(x, y); i < |IX| && i < |DX| && DX[i] > IX[i] && InRow(i, n, y) == OnGridBefore(n, IX[i], DX[i])
  {
    hide PassOf, PassAt, IX, DX, OnGridBefore;
    var i := PassOf(x, y);
    Strides(i);
    if n == 0 {
      NothingBefore(IX[i], DX[i]);
    } else {
      RowCount(x, y, n - 1);
      GridCounts(n, IX[i], DX[i]);
      PassFormat(n - 1, y);
      RowGrid(x, n - 1, y);
    }
  }

  lemma NothingBefore(start: nat, delta: nat)
    requires delta > start
    ensures OnGridBefore(0, start, delta) == 0
  {
  }

  lemma {:induction false} ColumnCount(x: nat, y: nat, n: nat)
    ensures var i := PassOf(x, y); i < |IY| && i < |DY| && DY[i] > IY[i] && InColumn(i, x, n) == OnGridBefore(n, IY[i], DY[i])
  {
    hide PassOf, PassAt, IY, DY, OnGridBefore;
    var i := PassOf(x, y);
    Strides(i);
    if n == 0 {
      NothingBefore(IY[i], DY[i]);
    } else {
      ColumnCount(x, y, n - 1);
      GridCounts(n, IY[i], DY[i]);
      PassFormat(x, n - 1);
      ColumnGrid(x, y, n - 1);
    }
  }

  lemma PlaceOnGrid(v: nat, start: nat, delta: nat)
    requires delta == 1 || delta == 2 || delta == 4 || delta == 8
    requires delta > start && v >= start && (v - start) % delta == 0
    ensures OnGridBefore(v, start, delta) == (v - start) / delta
    ensures forall n :: n > v ==> OnGridBefore(n, start, delta) > 0
  {
  }

  /**
    Where a pixel stands in its reduced image: its column is the number of pixels of its pass on its left, its row the
    number of those above it, and the size of the reduced image counts them all.
   */
  lemma ReducedFormat(w: nat, h: nat, x: nat, y: nat)
    requires x < w && y < h
    ensures var i := PassAt(x, y);
            && i == PassOf(x, y) && i < 7
            && Column(x, y) == InRow(i, x, y) && Row(x, y) == InColumn(i, x, y)
            && PassWidth(w, h, i) == InRow(i, w, y) && PassHeight(w, h, i) == InColumn(i, x, h)
  {
    hide PassOf, PassAt, IX, IY, DX, DY, OnGridBefore;
    var i := PassOf(x, y);
    PassFormat(x, y);
    Strides(i);
    PassGrid(x, y);
    RowCount(x, y, x);
    RowCount(x, y, w);
    ColumnCount(x, y, y);
    ColumnCount(x, y, h);
    PlaceOnGrid(x, IX[i], DX[i]);
    PlaceOnGrid(y, IY[i], DY[i]);
    SizesOnGrid(w, h, i);
  }

  lemma SizesOnGrid(w: nat, h: nat, i: nat)
    requires i < 7 && w > 0 && h > 0
    ensures |IX| == |IY| == |DX| == |DY| == 7 && DX[i] > IX[i] && DY[i] > IY[i]
    ensures RawWidth(w, i) == OnGridBefore(w, IX[i], DX[i]) && RawHeight(h, i) == OnGridBefore(h, IY[i], DY[i])
  {
    hide IX, IY, DX, DY;
    Strides(i);
  }

  // ----- pictures

  lemma UnitIndex(w: nat, bpp: nat, x: nat, y: nat)
    ensures 0 <= w * bpp * y && 0 <= x * bpp && bpp * (w * y + x) == w * bpp * y + x * bpp
  {
    assert bpp * (w * y + x) == bpp * (w * y) + bpp * x;
    assert bpp * (w * y) == w * bpp * y by {
      MulShuffle(w, bpp, y);
      MulShuffle(w, y, bpp);
      Commute(bpp, w * y);
    }
  }

  lemma Commute(a: nat, b: nat)
    ensures a * b == b * a
  {
  }

  /** Without interlacing, the bits of a pixel are where its line has them. */
  lemma PixelOfPlain(data: seq<byte>, w: nat, h: nat, bpp: nat, picture: seq<bit>, x: nat, y: nat, c: nat)
    requires Depicts(data, w, h, bpp, false, picture) && x < w && y < h && c < bpp
    ensures At(w, bpp, x, y, c) < |picture| && BitStands(data, 0, w, h, bpp, x, y, c, picture[At(w, bpp, x, y, c)])
  {
    hide PassBits, BitStands, Units;
    PixelOfPass(data, 0, w, h, bpp, x, y, c);
    UnitIndex(w, bpp, x, y);
  }

  /** The reduced image and the place in it of the pixel at (x, y). */
  ghost predicate StandsInPass(data: seq<byte>, w: nat, h: nat, bpp: nat, x: nat, y: nat, c: nat, b: bit)
    requires x < w && y < h
  {
    var i := PassAt(x, y);
    && i < 7
    && BitStands(data, FilterStart(w, h, bpp, i), InRow(i, w, y), InColumn(i, x, h), bpp, InRow(i, x, y), InColumn(i, x, y), c, b)
  }

  /**
    With interlacing, they are where the line of its reduced image has them: the pass is that of the square, and its
    place the number of pixels of the pass before it.
   */
  lemma PixelOfInterlaced(data: seq<byte>, w: nat, h: nat, bpp: nat, picture: seq<bit>, x: nat, y: nat, c: nat)
    requires Depicts(data, w, h, bpp, true, picture) && x < w && y < h && c < bpp
    ensures At(w, bpp, x, y, c) < |picture| && StandsInPass(data, w, h, bpp, x, y, c, picture[At(w, bpp, x, y, c)])
  {
    hide PassBits, BitStands, Units, PassAt, InRow, InColumn, PassOf, Column, Row, PassWidth, PassHeight, PassStart,
      FilterStart, PassFits;
    ReducedFormat(w, h, x, y);
    PixelInPass(w, h, x, y);
    var i, column, row := PassOf(x, y), Column(x, y), Row(x, y);
    var pw, ph, f := PassWidth(w, h, i), PassHeight(w, h, i), FilterStart(w, h, bpp, i);
    var mid: seq<bit> :| ReducedOk(data, mid, w, h, bpp) && Interlaced(mid, picture, BitStarts(w, h, bpp), w, h, bpp);
    assert PassOk(data, mid, w, h, bpp, i);
    assert UnitMoved(mid, picture, BitStarts(w, h, bpp), w, h, bpp, x, y, c);
    PixelOfPass(data, f, pw, ph, bpp, column, row, c);
    UnitIndex(pw, bpp, column, row);
  }
}
