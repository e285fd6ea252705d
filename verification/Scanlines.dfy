/**
  From image to filtered, padded and possibly interlaced scanlines and back
  (sections 8.2, 9.2 and 9.4 of the PNG Specification, Second Edition).
 */
module Scanlines {
  import opened Sequences
  import opened Options
  import opened Bits
  import opened ScanlineFilter
  import opened ScanlineImage
  import opened PaddingBits
  import opened Adam7
  import opened Interlace
  import opened Modular

  // ----- one image, or one reduced image

  /** The line size that avoids overflow is the usual one. */
  lemma LineBytesIs(w: nat, bpp: nat)
    ensures LineBytes(w, bpp) == PaddedLineBytes(w, bpp)
  {
    var q, r := w / 8, w % 8;
    assert w * bpp == 8 * (q * bpp) + r * bpp by {
      assert w == 8 * q + r;
    }
  }

  /** Padding bits at the end of a line. */
  function PaddingOf(w: nat, bpp: nat): (padding: nat)
    ensures w * bpp + padding == 8 * PaddedLineBytes(w, bpp) && padding < 8
  {
    8 * PaddedLineBytes(w, bpp) - w * bpp
  }

  lemma {:induction false} TimesOfBits(n: nat, h: nat)
    ensures Times(8 * n, h) == 8 * Times(n, h)
  {
    if h > 0 {
      TimesOfBits(n, h - 1);
    }
  }

  ghost predicate PassFits(data: seq<byte>, f: nat, w: nat, h: nat, bpp: nat) {
    && bpp > 0 && (h > 0 ==> w > 0)
    && f + Times(PaddedLineBytes(w, bpp) + 1, h) <= |data|
  }

  lemma WidthFits(w: nat, h: nat, bpp: nat)
    requires bpp > 0 && (h > 0 ==> w > 0)
    ensures h > 0 ==> 0 < ByteWidth(bpp) <= PaddedLineBytes(w, bpp)
  {
    if h > 0 {
      PixelFitsLine(w, bpp);
      LineBytesIs(w, bpp);
    }
  }

  /** The lines of an image whose filtered form begins at `f`, if all filter types are valid. */
  function PassLines(data: seq<byte>, f: nat, w: nat, h: nat, bpp: nat): (lines: Option<seq<byte>>)
    requires PassFits(data, f, w, h, bpp)
    ensures lines.Some? ==> |lines.value| == Times(PaddedLineBytes(w, bpp), h)
  {
    WidthFits(w, h, bpp);
    var n := PaddedLineBytes(w, bpp);
    UnfilteredImage(data[f..f + Times(n + 1, h)], n, ByteWidth(bpp), h)
  }

  /** Its bits, without padding. */
  function PassBits(data: seq<byte>, f: nat, w: nat, h: nat, bpp: nat): (bits: Option<seq<bit>>)
    requires PassFits(data, f, w, h, bpp)
    ensures bits.Some? ==> |bits.value| == Times(w * bpp, h)
  {
    match PassLines(data, f, w, h, bpp)
    case None => None
    case Some(lines) =>
      TimesOfBits(PaddedLineBytes(w, bpp), h);
      Some(Unpadded(ReversedBits(lines), w * bpp, PaddingOf(w, bpp), h))
  }

  lemma {:induction false} UnpaddedPrefix(a: seq<bit>, b: seq<bit>, width: nat, padding: nat, h: nat)
    requires Times(width + padding, h) <= |a| && Times(width + padding, h) <= |b|
    requires a[0..Times(width + padding, h)] == b[0..Times(width + padding, h)]
    ensures Unpadded(a, width, padding, h) == Unpadded(b, width, padding, h)
  {
    hide Times, Unpadded;
    NothingUnpadded(a, width, padding);
    NothingUnpadded(b, width, padding);
    if h > 0 {
      OneMore(width + padding, h - 1);
      var start, end := Times(width + padding, h - 1), Times(width + padding, h);
      SliceOfSlice(a, 0, end, 0, start);
      SliceOfSlice(b, 0, end, 0, start);
      UnpaddedPrefix(a, b, width, padding, h - 1);
      UnpadStep(a, width, padding, h - 1);
      UnpadStep(b, width, padding, h - 1);
      SliceOfSlice(a, 0, end, start, start + width);
      SliceOfSlice(b, 0, end, start, start + width);
    }
  }

  lemma {:induction false} UnpaddedWithout(bits: seq<bit>, width: nat, h: nat)
    requires Times(width, h) <= |bits|
    ensures Unpadded(bits, width, 0, h) == bits[..Times(width, h)]
  {
    if h > 0 {
      UnpaddedWithout(bits, width, h - 1);
      assert bits[..Times(width, h)] == bits[..Times(width, h - 1)] + bits[Times(width, h - 1)..Times(width, h - 1) + width];
    }
  }

  lemma BitsOfSlice(data: seq<byte>, i: nat, j: nat)
    requires i <= j <= |data|
    ensures ReversedBits(data[i..j]) == ReversedBits(data)[8 * i..8 * j]
  {
    var left, right := ReversedBits(data[i..j]), ReversedBits(data)[8 * i..8 * j];
    forall k | 0 <= k < |left|
      ensures left[k] == right[k]
    {
      assert (8 * i + k) / 8 == i + k / 8 && (8 * i + k) % 8 == k % 8;
    }
  }

  lemma BitsOfOverwritten(before: seq<byte>, o: nat, f: seq<byte>)
    requires o + |f| <= |before|
    ensures ReversedBits(Overwritten(before, o, f)) == Overwritten(ReversedBits(before), 8 * o, ReversedBits(f))
  {
    hide ReversedBit;
    var now := Overwritten(before, o, f);
    var left, right := ReversedBits(now), Overwritten(ReversedBits(before), 8 * o, ReversedBits(f));
    forall k | 0 <= k < |left|
      ensures left[k] == right[k]
    {
      if 8 * o <= k < 8 * (o + |f|) {
        InsidePiece(before, o, f, k - 8 * o);
      } else {
        OutsidePiece(before, o, f, k);
      }
    }
  }

  lemma InsidePiece(before: seq<byte>, o: nat, f: seq<byte>, j: nat)
    requires o + |f| <= |before| && j < 8 * |f|
    ensures ReversedBit(Overwritten(before, o, f), 8 * o + j) == ReversedBit(f, j)
  {
    assert (8 * o + j) / 8 == o + j / 8 && (8 * o + j) % 8 == j % 8;
    assert Overwritten(before, o, f)[o + j / 8] == f[j / 8];
  }

  lemma OutsidePiece(before: seq<byte>, o: nat, f: seq<byte>, k: nat)
    requires o + |f| <= |before| && k < 8 * |before| && (k < 8 * o || k >= 8 * (o + |f|))
    ensures ReversedBit(Overwritten(before, o, f), k) == ReversedBit(before, k)
  {
    assert k / 8 < o || k / 8 >= o + |f|;
  }

  // ----- encoding one image

  /** The filter types a strategy may give `h` lines are all valid; only predefined ones may not be. */
  ghost predicate TypesValid(color: ColorMode, settings: FilterSettings, h: nat) {
    Strategy(color, settings) == LFS_PREDEFINED ==>
      h <= |settings.predefined| && AllValid(settings.predefined[..h])
  }

  /** Filtered rows, unfiltered again. */
  lemma FilteredPass(now: seq<byte>, before: seq<byte>, f: nat, image: seq<byte>, w: nat, h: nat, bpp: nat,
                     types: seq<byte>, strategy: nat, predefined: seq<byte>)
    requires bpp > 0 && (h > 0 ==> w > 0) && |types| == h
    requires FilteredSoFar(now, before, f, image, PaddedLineBytes(w, bpp), ByteWidth(bpp), h, types, strategy, predefined)
    requires strategy <= LFS_PREDEFINED
    ensures var n := PaddedLineBytes(w, bpp);
            && Times(n, h) <= |image| && f + Times(n + 1, h) <= |now| == |before|
            && now[..f] == before[..f] && now[f + Times(n + 1, h)..] == before[f + Times(n + 1, h)..]
            && PassLines(now, f, w, h, bpp)
               == if strategy == LFS_PREDEFINED && !(h <= |predefined| && AllValid(predefined[..h])) then None
                  else Some(image[..Times(n, h)])
  {
    hide UnfilteredImage, FilteredImage, Times;
    FilterUnfilters(now, before, f, image, PaddedLineBytes(w, bpp), ByteWidth(bpp), types);
    if strategy == LFS_PREDEFINED {
      assert types == predefined[..h];
    }
  }

  /** What filtering an image with padding bits leaves to be read. */
  lemma PaddedPass(data: seq<byte>, f: nat, w: nat, h: nat, bpp: nat, padded: seq<byte>, garbage: seq<bit>, bits: seq<bit>)
    requires PassFits(data, f, w, h, bpp) && Times(w * bpp, h) <= |bits|
    requires Times(PaddedLineBytes(w, bpp), h) <= |padded| && |garbage| == 8 * |padded|
    requires Times(8 * PaddedLineBytes(w, bpp), h) <= |garbage|
    requires ReversedBits(padded) == Overwritten(garbage, 0, Padded(bits, w * bpp, PaddingOf(w, bpp), h))
    requires PassLines(data, f, w, h, bpp) == Some(padded[..Times(PaddedLineBytes(w, bpp), h)])
    ensures PassBits(data, f, w, h, bpp) == Some(bits[..Times(w * bpp, h)])
  {
    hide UnfilteredImage, Times, Unpadded, Padded, PassLines, PaddedLineBytes, ReversedBits, PassFits, PaddingOf, Overwritten;
    var n := PaddedLineBytes(w, bpp);
    var all := Padded(bits, w * bpp, PaddingOf(w, bpp), h);
    TimesOfBits(n, h);
    BitsOfSlice(padded, 0, Times(n, h));
    assert padded[0..Times(n, h)] == padded[..Times(n, h)];
    assert |all| == 8 * Times(n, h);
    OverwrittenSlice(garbage, 0, all);
    UnpadPad(bits, w * bpp, PaddingOf(w, bpp), h, h);
  }

  /** The same for lines of whole bytes. */
  lemma WholePass(data: seq<byte>, f: nat, w: nat, h: nat, bpp: nat, image: seq<byte>)
    requires PassFits(data, f, w, h, bpp) && PaddingOf(w, bpp) == 0
    requires Times(PaddedLineBytes(w, bpp), h) <= |image|
    requires PassLines(data, f, w, h, bpp) == Some(image[..Times(PaddedLineBytes(w, bpp), h)])
    ensures Times(w * bpp, h) <= 8 * |image|
    ensures PassBits(data, f, w, h, bpp) == Some(ReversedBits(image)[..Times(w * bpp, h)])
  {
    hide UnfilteredImage, Times, Unpadded, PassLines, PaddedLineBytes, ReversedBits;
    var n := PaddedLineBytes(w, bpp);
    TimesOfBits(n, h);
    assert w * bpp == 8 * n;
    BitsOfSlice(image, 0, Times(n, h));
    assert image[0..Times(n, h)] == image[..Times(n, h)];
    var read := ReversedBits(image[..Times(n, h)]);
    UnpaddedWithout(read, w * bpp, h);
    assert read[..Times(w * bpp, h)] == read;
  }

  ghost predicate EncodeArguments(out: array<byte>, f: nat, input: array<byte>, p: nat, w: nat, h: nat, color: ColorMode,
                                  settings: FilterSettings, pad: bool)
    reads out
  {
    var bpp := Bpp(color);
    && out != input && PassFits(out[..], f, w, h, bpp)
    && 8 * p + Times(w * bpp, h) <= 8 * input.Length && (!pad ==> PaddingOf(w, bpp) == 0)
    && (settings.strategy == LFS_PREDEFINED ==> h <= |settings.predefined|)
  }

  /** What is outside the filtered lines stays as it is. */
  ghost predicate OnlyPass(now: seq<byte>, before: seq<byte>, f: nat, w: nat, h: nat, bpp: nat) {
    var end := f + Times(PaddedLineBytes(w, bpp) + 1, h);
    end <= |before| == |now| && now[..f] == before[..f] && now[end..] == before[end..]
  }

  /** The bits of an image, or of a reduced one, that begins at byte `p`. */
  function ImageBits(data: seq<byte>, p: nat, w: nat, h: nat, bpp: nat): (bits: seq<bit>)
    requires 8 * p + Times(w * bpp, h) <= 8 * |data|
    ensures |bits| == Times(w * bpp, h)
  {
    ReversedBits(data)[8 * p..8 * p + Times(w * bpp, h)]
  }

  /** Pads the lines, which do not end at a byte, and filters them. */
  method EncodePadded(out: array<byte>, f: nat, input: array<byte>, p: nat, w: nat, h: nat, color: ColorMode,
                    settings: FilterSettings)
    returns (error: nat)
    requires EncodeArguments(out, f, input, p, w, h, color, settings, true)
    modifies out
    ensures error == FilterError(color, settings)
    ensures error == 0 ==> OnlyPass(out[..], old(out[..]), f, w, h, Bpp(color))
    ensures error == 0 ==>
              PassBits(out[..], f, w, h, Bpp(color))
              == if TypesValid(color, settings, h) then Some(ImageBits(input[..], p, w, h, Bpp(color))) else None
  {
    hide Times, FilteredSoFar, PassLines, PassBits, Padded, Overwritten, ReversedBits, PaddedLineBytes, LineBytes, Bpp, PaddingOf, Strategy, AllValid;
    var bpp := Bpp(color);
    ghost var before, n, padding := out[..], PaddedLineBytes(w, bpp), PaddingOf(w, bpp);
    ghost var predefined := if Strategy(color, settings) <= LFS_BRUTE_FORCE then [] else settings.predefined;
    LineBytesIs(w, bpp);
    TimesIs(PaddedLineBytes(w, bpp), h);
    TimesOfBits(n, h);
    ghost var types;
    var padded := new byte[h * PaddedLineBytes(w, bpp)];
    ghost var garbage := ReversedBits(padded[..]);
    AddPaddingBits(padded, input, p, 8 * PaddedLineBytes(w, bpp), w * bpp, h);
    ghost var bits := ReversedBits(input[..])[8 * p..];
    assert padded[..][0..] == padded[..];
    error, types := Filter(out, f, padded, 0, w, h, color, settings);
    if error == 0 {
      FilteredPass(out[..], before, f, padded[..], w, h, bpp, types, Strategy(color, settings), predefined);
      if TypesValid(color, settings, h) {
        PaddedPass(out[..], f, w, h, bpp, padded[..], garbage, bits);
        assert bits[..Times(w * bpp, h)] == ImageBits(input[..], p, w, h, bpp);
      } else {
        NoLinesNoBits(out[..], f, w, h, bpp);
      }
    }
  }

  /** Filters lines that end at a byte. */
  method EncodeWhole(out: array<byte>, f: nat, input: array<byte>, p: nat, w: nat, h: nat, color: ColorMode,
                    settings: FilterSettings)
    returns (error: nat)
    requires EncodeArguments(out, f, input, p, w, h, color, settings, false)
    modifies out
    ensures error == FilterError(color, settings)
    ensures error == 0 ==> OnlyPass(out[..], old(out[..]), f, w, h, Bpp(color))
    ensures error == 0 ==>
              PassBits(out[..], f, w, h, Bpp(color))
              == if TypesValid(color, settings, h) then Some(ImageBits(input[..], p, w, h, Bpp(color))) else None
  {
    hide Times, FilteredSoFar, PassLines, PassBits, Padded, Overwritten, ReversedBits, PaddedLineBytes, LineBytes, Bpp, PaddingOf, Strategy, AllValid;
    var bpp := Bpp(color);
    ghost var before, n, padding := out[..], PaddedLineBytes(w, bpp), PaddingOf(w, bpp);
    ghost var predefined := if Strategy(color, settings) <= LFS_BRUTE_FORCE then [] else settings.predefined;
    LineBytesIs(w, bpp);
    TimesIs(PaddedLineBytes(w, bpp), h);
    TimesOfBits(n, h);
    ghost var types;
    ghost var image := input[p..];
    error, types := Filter(out, f, input, p, w, h, color, settings);
    if error == 0 {
      FilteredPass(out[..], before, f, image, w, h, bpp, types, Strategy(color, settings), predefined);
      if TypesValid(color, settings, h) {
        WholePass(out[..], f, w, h, bpp, image);
        BitsOfSlice(input[..], p, input.Length);
        assert input[..][p..input.Length] == image;
        assert ReversedBits(image)[..Times(w * bpp, h)] == ImageBits(input[..], p, w, h, bpp);
      } else {
        NoLinesNoBits(out[..], f, w, h, bpp);
      }
    }
  }

  /** Pads lines that do not end at a byte, and filters all of them. */
  method EncodePass(out: array<byte>, f: nat, input: array<byte>, p: nat, w: nat, h: nat, color: ColorMode,
                    settings: FilterSettings, pad: bool)
    returns (error: nat)
    requires EncodeArguments(out, f, input, p, w, h, color, settings, pad)
    modifies out
    ensures error == FilterError(color, settings)
    ensures error == 0 ==> OnlyPass(out[..], old(out[..]), f, w, h, Bpp(color))
    ensures error == 0 ==>
              PassBits(out[..], f, w, h, Bpp(color))
              == if TypesValid(color, settings, h) then Some(ImageBits(input[..], p, w, h, Bpp(color))) else None
  {
    hide EncodeArguments, OnlyPass, PassBits, FilterError, TypesValid, ImageBits;
    if pad {
      error := EncodePadded(out, f, input, p, w, h, color, settings);
    } else {
      error := EncodeWhole(out, f, input, p, w, h, color, settings);
    }
  }

  lemma NoLinesNoBits(data: seq<byte>, f: nat, w: nat, h: nat, bpp: nat)
    requires PassFits(data, f, w, h, bpp) && PassLines(data, f, w, h, bpp).None?
    ensures PassBits(data, f, w, h, bpp).None?
  {
  }

  // ----- what encoded scanlines depict

  lemma PassSize(w: nat, h: nat, bpp: nat, j: nat)
    requires j < 7 && w > 0 && h > 0
    ensures var pw, ph := PassWidth(w, h, j), PassHeight(w, h, j);
            && (ph > 0 ==> pw > 0)
            && FilterStart(w, h, bpp, j) + Times(PaddedLineBytes(pw, bpp) + 1, ph) == FilterStart(w, h, bpp, j + 1)
            && PaddedStart(w, h, bpp, j) + Times(PaddedLineBytes(pw, bpp), ph) == PaddedStart(w, h, bpp, j + 1)
            && 8 * PassStart(w, h, bpp, j) + Times(pw * bpp, ph) <= 8 * PassStart(w, h, bpp, j + 1)
  {
    hide PassWidth, PassHeight, Times, PaddedLineBytes;
    var pw, ph := PassWidth(w, h, j), PassHeight(w, h, j);
    EmptyPass(w, h, j);
    SizesByTimes(pw, ph, bpp);
  }

  lemma SizesByTimes(pw: nat, ph: nat, bpp: nat)
    requires pw == 0 <==> ph == 0
    ensures FilteredBytes(pw, ph, bpp) == Times(PaddedLineBytes(pw, bpp) + 1, ph)
    ensures PaddedBytes(pw, ph, bpp) == Times(PaddedLineBytes(pw, bpp), ph)
    ensures Times(pw * bpp, ph) <= 8 * ImageBytes(pw, ph, bpp)
  {
    var n := PaddedLineBytes(pw, bpp);
    FilteredSize(pw, ph, bpp, n);
    TimesIs(n, ph);
    BitsSize(pw, ph, bpp);
  }

  lemma FilteredSize(pw: nat, ph: nat, bpp: nat, n: nat)
    requires (pw == 0 <==> ph == 0) && n == PaddedLineBytes(pw, bpp)
    ensures FilteredBytes(pw, ph, bpp) == Times(n + 1, ph)
  {
    hide PaddedLineBytes;
    TimesIs(n + 1, ph);
  }

  lemma BitsSize(pw: nat, ph: nat, bpp: nat)
    ensures Times(pw * bpp, ph) <= 8 * ImageBytes(pw, ph, bpp)
  {
    TimesIs(pw * bpp, ph);
    MulRotate(pw, bpp, ph);
    CeilingOfEighth(ph * pw * bpp);
  }

  lemma MulRotate(a: nat, b: nat, c: nat)
    ensures a * b * c == c * a * b
  {
  }

  lemma CeilingOfEighth(n: nat)
    ensures n <= 8 * ((n + 7) / 8)
  {
  }

  lemma {:induction false} StartsGrow(w: nat, h: nat, bpp: nat, i: nat, j: nat)
    requires i <= j <= 7 && w > 0 && h > 0
    ensures FilterStart(w, h, bpp, i) <= FilterStart(w, h, bpp, j)
    ensures PaddedStart(w, h, bpp, i) <= PaddedStart(w, h, bpp, j)
    ensures PassStart(w, h, bpp, i) <= PassStart(w, h, bpp, j)
    decreases j
  {
    hide PassWidth, PassHeight, FilteredBytes, PaddedBytes, ImageBytes;
    if i < j {
      StartsGrow(w, h, bpp, i, j - 1);
    }
  }

  /** The bits of reduced image `j` can be read from the scanlines, and are those of `mid`. */
  ghost predicate PassOk(data: seq<byte>, mid: seq<bit>, w: nat, h: nat, bpp: nat, j: nat)
    requires j < 7 && w > 0 && h > 0
  {
    var pw, ph := PassWidth(w, h, j), PassHeight(w, h, j);
    var start := 8 * PassStart(w, h, bpp, j);
    && PassFits(data, FilterStart(w, h, bpp, j), pw, ph, bpp) && start + Times(pw * bpp, ph) <= |mid|
    && PassBits(data, FilterStart(w, h, bpp, j), pw, ph, bpp) == Some(mid[start..start + Times(pw * bpp, ph)])
  }

  ghost predicate PassBroken(data: seq<byte>, w: nat, h: nat, bpp: nat, j: nat)
    requires j < 7 && w > 0 && h > 0
  {
    var pw, ph := PassWidth(w, h, j), PassHeight(w, h, j);
    && PassFits(data, FilterStart(w, h, bpp, j), pw, ph, bpp)
    && PassBits(data, FilterStart(w, h, bpp, j), pw, ph, bpp).None?
  }

  /** All seven reduced images can be read. */
  ghost predicate ReducedOk(data: seq<byte>, mid: seq<bit>, w: nat, h: nat, bpp: nat) {
    w > 0 && h > 0 && 8 * PassStart(w, h, bpp, 7) <= |mid| && forall j :: 0 <= j < 7 ==> PassOk(data, mid, w, h, bpp, j)
  }

  /** The scanlines stand for an image with these bits, `bpp` for each pixel. */
  ghost predicate Depicts(data: seq<byte>, w: nat, h: nat, bpp: nat, interlaced: bool, picture: seq<bit>) {
    && w > 0 && h > 0 && |picture| == Units(w, h, bpp)
    && if interlaced then exists mid: seq<bit> :: ReducedOk(data, mid, w, h, bpp) && Interlaced(mid, picture, BitStarts(w, h, bpp), w, h, bpp)
       else PassFits(data, 0, w, h, bpp) && PassBits(data, 0, w, h, bpp) == Some(picture)
  }

  /** The scanlines have an invalid filter type. */
  ghost predicate Undecodable(data: seq<byte>, w: nat, h: nat, bpp: nat, interlaced: bool) {
    && w > 0 && h > 0
    && if interlaced then exists j :: 0 <= j < 7 && PassBroken(data, w, h, bpp, j)
       else PassFits(data, 0, w, h, bpp) && PassBits(data, 0, w, h, bpp).None?
  }

  /** Scanlines depict one picture only, and none if they are broken. */
  lemma PictureUnique(data: seq<byte>, w: nat, h: nat, bpp: nat, interlaced: bool, a: seq<bit>, b: seq<bit>)
    requires Depicts(data, w, h, bpp, interlaced, a) && Depicts(data, w, h, bpp, interlaced, b)
    ensures a == b && !Undecodable(data, w, h, bpp, interlaced)
  {
    hide Interlaced, PassBits, PassStart, FilterStart, Units, PassOf, Column, Row, PassWidth, PassHeight, At;
    if interlaced {
      var starts := BitStarts(w, h, bpp);
      var mid: seq<bit> :| ReducedOk(data, mid, w, h, bpp) && Interlaced(mid, a, starts, w, h, bpp);
      var mid': seq<bit> :| ReducedOk(data, mid', w, h, bpp) && Interlaced(mid', b, starts, w, h, bpp);
      forall x, y, c | 0 <= x < w && 0 <= y < h && 0 <= c < bpp
        ensures SamePlace(mid, mid', starts, w, h, bpp, x, y, c)
      {
        var j := PassOf(x, y);
        PlaceInPass(w, h, bpp, x, y, c);
        assert PassOk(data, mid, w, h, bpp, j) && PassOk(data, mid', w, h, bpp, j);
        var start, size := 8 * PassStart(w, h, bpp, j), Times(PassWidth(w, h, j) * bpp, PassHeight(w, h, j));
        SameSlice(mid, mid', start, start + size, Place(starts, w, h, bpp, x, y, c));
      }
      ImageDetermined(mid, a, mid', b, starts, w, h, bpp);
      assert a == a[..Units(w, h, bpp)] && b == b[..Units(w, h, bpp)];
      forall j | 0 <= j < 7
        ensures !PassBroken(data, w, h, bpp, j)
      {
        assert PassOk(data, mid, w, h, bpp, j);
      }
    }
  }

  lemma SameSlice<T>(a: seq<T>, b: seq<T>, i: nat, j: nat, k: nat)
    requires i <= k < j <= |a| && j <= |b| && a[i..j] == b[i..j]
    ensures a[k] == b[k]
  {
    assert a[k] == a[i..j][k - i];
    assert b[k] == b[i..j][k - i];
  }

  /** A pixel's units are within the bits of its reduced image. */
  lemma PlaceInPass(w: nat, h: nat, bpp: nat, x: nat, y: nat, c: nat)
    requires x < w && y < h && c < bpp
    ensures var j, starts := PassOf(x, y), BitStarts(w, h, bpp);
            8 * PassStart(w, h, bpp, j) <= Place(starts, w, h, bpp, x, y, c)
            < 8 * PassStart(w, h, bpp, j) + Times(PassWidth(w, h, j) * bpp, PassHeight(w, h, j))
  {
    hide PassStart, PassOf, Column, Row, PassWidth, PassHeight, At;
    var j := PassOf(x, y);
    var pw, ph := PassWidth(w, h, j), PassHeight(w, h, j);
    PixelInPass(w, h, x, y);
    AtBound(pw, ph, bpp, Column(x, y), Row(x, y), c);
    TimesIs(pw * bpp, ph);
    Reassociate(pw, bpp, ph);
  }

  lemma Reassociate(a: nat, b: nat, c: nat)
    ensures a * b * c == b * (a * c)
  {
  }

  // ----- encoding

  lemma FitsAt(data: seq<byte>, w: nat, h: nat, bpp: nat, j: nat)
    requires w > 0 && h > 0 && bpp > 0 && j < 7 && FilterStart(w, h, bpp, 7) <= |data|
    ensures PassFits(data, FilterStart(w, h, bpp, j), PassWidth(w, h, j), PassHeight(w, h, j), bpp)
  {
    hide PassWidth, PassHeight, FilterStart, PassStart, PaddedStart;
    PassSize(w, h, bpp, j);
    StartsGrow(w, h, bpp, j + 1, 7);
  }

  /** What has been encoded of reduced image `j`, its filter types being valid or not. */
  ghost predicate PassEncoded(data: seq<byte>, mid: seq<bit>, w: nat, h: nat, bpp: nat, j: nat, valid: bool)
    requires j < 7 && w > 0 && h > 0
  {
    if valid then PassOk(data, mid, w, h, bpp, j) else PassBroken(data, w, h, bpp, j)
  }

  /** Encoding a later reduced image leaves an earlier one alone. */
  lemma PassStays(now: seq<byte>, before: seq<byte>, mid: seq<bit>, w: nat, h: nat, bpp: nat, j: nat, i: nat, valid: bool)
    requires j < i < 7 && w > 0 && h > 0 && PassEncoded(before, mid, w, h, bpp, j, valid)
    requires OnlyPass(now, before, FilterStart(w, h, bpp, i), PassWidth(w, h, i), PassHeight(w, h, i), bpp)
    ensures PassEncoded(now, mid, w, h, bpp, j, valid)
  {
    hide PassWidth, PassHeight, FilterStart, PassStart, PaddedStart, UnfilteredImage, Unpadded, ReversedBits, PaddedLineBytes;
    PassSize(w, h, bpp, j);
    StartsGrow(w, h, bpp, j + 1, i);
    var f, n := FilterStart(w, h, bpp, j), PaddedLineBytes(PassWidth(w, h, j), bpp);
    SliceBefore(now, before, FilterStart(w, h, bpp, i), f, f + Times(n + 1, PassHeight(w, h, j)));
  }

  lemma SliceBefore(now: seq<byte>, before: seq<byte>, end: nat, i: nat, j: nat)
    requires i <= j <= end <= |now| == |before| && now[..end] == before[..end]
    ensures now[i..j] == before[i..j]
  {
    assert now[i..j] == now[..end][i..j];
    assert before[i..j] == before[..end][i..j];
  }

  /** Whether the predefined filter types, if they are used, are valid for all lines. */
  ghost predicate AllTypesValid(color: ColorMode, settings: FilterSettings, w: nat, h: nat, interlaced: bool)
    requires w > 0 && h > 0
  {
    if interlaced then forall j :: 0 <= j < 7 ==> TypesValid(color, settings, PassHeight(w, h, j))
    else TypesValid(color, settings, h)
  }

  ghost predicate ColorOk(color: ColorMode) {
    Bpp(color) > 0 && (Bpp(color) < 8 || Bpp(color) % 8 == 0)
  }

  /** The bits of the pixels. */
  function Picture(image: seq<byte>, w: nat, h: nat, bpp: nat): (picture: seq<bit>)
    requires Units(w, h, bpp) <= 8 * |image|
    ensures |picture| == Units(w, h, bpp)
  {
    ReversedBits(image)[..Units(w, h, bpp)]
  }

  lemma UnitsAreTimes(w: nat, h: nat, bpp: nat)
    ensures Units(w, h, bpp) == Times(w * bpp, h)
  {
    TimesIs(w * bpp, h);
    MulShuffle(w, bpp, h);
  }

  lemma MulShuffle(a: nat, b: nat, c: nat)
    ensures a * b * c == b * (a * c)
  {
  }

  lemma InterlacedPart(mid: seq<bit>, img: seq<bit>, starts: seq<nat>, w: nat, h: nat, s: nat)
    requires Interlaced(mid, img, starts, w, h, s) && Units(w, h, s) <= |img|
    ensures Interlaced(mid, img[..Units(w, h, s)], starts, w, h, s)
  {
    hide Place, At, Units;
    forall x, y, b | 0 <= x < w && 0 <= y < h && 0 <= b < s
      ensures UnitMoved(mid, img[..Units(w, h, s)], starts, w, h, s, x, y, b)
    {
      AtBound(w, h, s, x, y, b);
      assert UnitMoved(mid, img, starts, w, h, s, x, y, b);
    }
  }

  lemma PassHeightBound(w: nat, h: nat, i: nat)
    requires i < 7 && w > 0 && h > 0
    ensures PassHeight(w, h, i) <= h
  {
  }

  /** For pixels of whole bytes there are no padding bits, and the two layouts are the same. */
  lemma {:induction false} NoPadding(w: nat, h: nat, bpp: nat, i: nat)
    requires i <= 7 && w > 0 && h > 0 && bpp % 8 == 0
    ensures PaddedStart(w, h, bpp, i) == PassStart(w, h, bpp, i)
  {
    hide PassWidth, PassHeight, PaddedBytes, ImageBytes;
    if i > 0 {
      NoPadding(w, h, bpp, i - 1);
      WholeBytes(PassWidth(w, h, i - 1), PassHeight(w, h, i - 1), bpp);
    }
  }

  lemma WholeBytes(pw: nat, ph: nat, bpp: nat)
    requires bpp % 8 == 0
    ensures PaddedBytes(pw, ph, bpp) == ImageBytes(pw, ph, bpp) && PaddingOf(pw, bpp) == 0
  {
    var s := bpp / 8;
    assert pw * bpp == 8 * (pw * s);
    assert PaddedLineBytes(pw, bpp) == pw * s;
    assert ph * pw * bpp == 8 * (ph * (pw * s));
  }

  /** Encodes the seven reduced images one after the other. */
  method EncodePasses(out: array<byte>, adam7: array<byte>, w: nat, h: nat, color: ColorMode, settings: FilterSettings,
                      v: PassValues)
    returns (error: nat)
    requires out != adam7 && w > 0 && h > 0 && ColorOk(color) && PassValuesOk(v, w, h, Bpp(color))
    requires out.Length == FilterStart(w, h, Bpp(color), 7) && adam7.Length == PassStart(w, h, Bpp(color), 7)
    requires settings.strategy == LFS_PREDEFINED ==> h <= |settings.predefined|
    modifies out
    ensures error == FilterError(color, settings)
    ensures error == 0 ==> forall j :: 0 <= j < 7 ==>
              PassEncoded(out[..], ReversedBits(adam7[..]), w, h, Bpp(color), j, TypesValid(color, settings, PassHeight(w, h, j)))
  {
    hide PassEncoded, PassWidth, PassHeight, FilterStart, PaddedStart, PassStart, Bpp, TypesValid, ReversedBits, PaddedLineBytes;
    hide FilterError, OnlyPass, PassBits;
    var bpp := Bpp(color);
    error := 0;
    ghost var mid := ReversedBits(adam7[..]);
    for i := 0 to 7
      invariant ReversedBits(adam7[..]) == mid && (error == 0 || error == FilterError(color, settings))
      invariant i > 0 ==> error == FilterError(color, settings)
      invariant error == 0 ==> forall j :: 0 <= j < i ==>
                  PassEncoded(out[..], mid, w, h, bpp, j, TypesValid(color, settings, PassHeight(w, h, j)))
    {
      ghost var before := out[..];
      PassSize(w, h, bpp, i);
      StartsGrow(w, h, bpp, i + 1, 7);
      FitsAt(out[..], w, h, bpp, i);
      PassHeightBound(w, h, i);
      var start := if bpp < 8 then v.passstart[i] else v.paddedPassstart[i];
      if bpp >= 8 {
        NoPadding(w, h, bpp, i);
        WholeBytes(v.passw[i], v.passh[i], bpp);
      }
      error := EncodePass(out, v.filterPassstart[i], adam7, start, v.passw[i], v.passh[i], color, settings, bpp < 8);
      if error != 0 {
        return;
      }
      forall j | 0 <= j < i
        ensures PassEncoded(out[..], mid, w, h, bpp, j, TypesValid(color, settings, PassHeight(w, h, j)))
      {
        PassStays(out[..], before, mid, w, h, bpp, j, i, TypesValid(color, settings, PassHeight(w, h, j)));
      }
      ThisPass(out[..], adam7[..], w, h, bpp, i, TypesValid(color, settings, PassHeight(w, h, i)));
    }
  }

  lemma ThisPass(data: seq<byte>, adam7: seq<byte>, w: nat, h: nat, bpp: nat, i: nat, valid: bool)
    requires w > 0 && h > 0 && i < 7
    requires PassFits(data, FilterStart(w, h, bpp, i), PassWidth(w, h, i), PassHeight(w, h, i), bpp)
    requires 8 * PassStart(w, h, bpp, i) + Times(PassWidth(w, h, i) * bpp, PassHeight(w, h, i)) <= 8 * |adam7|
    requires PassBits(data, FilterStart(w, h, bpp, i), PassWidth(w, h, i), PassHeight(w, h, i), bpp)
          == if valid then Some(ImageBits(adam7, PassStart(w, h, bpp, i), PassWidth(w, h, i), PassHeight(w, h, i), bpp)) else None
    ensures PassEncoded(data, ReversedBits(adam7), w, h, bpp, i, valid)
  {
    hide PassWidth, PassHeight, FilterStart, PassStart, PassBits;
  }

  /**
    Turns an image into scanlines.  They depict the image, unless predefined filter
    types are in use and not all of them are valid: then they cannot be decoded.
   */
  method PreProcessScanlines(input: array<byte>, w: nat, h: nat, color: ColorMode, interlaced: bool, settings: FilterSettings)
    returns (error: nat, out: array<byte>)
    requires w > 0 && h > 0 && ColorOk(color) && Units(w, h, Bpp(color)) <= 8 * input.Length
    requires settings.strategy == LFS_PREDEFINED ==> h <= |settings.predefined|
    ensures fresh(out) && error == FilterError(color, settings)
    ensures out.Length == ScanlinesSize(w, h, Bpp(color), interlaced)
    ensures error == 0 ==>
              if AllTypesValid(color, settings, w, h, interlaced)
              then Depicts(out[..], w, h, Bpp(color), interlaced, Picture(input[..], w, h, Bpp(color)))
              else Undecodable(out[..], w, h, Bpp(color), interlaced)
  {
    hide PassBits, PaddedLineBytes, PassValuesOk, FilterError, Times, Units, ReversedBits, Interlaced, PassEncoded, PassStart,
      FilterStart, PassHeight, TypesValid, Depicts, Undecodable, Bpp;
    var bpp := Bpp(color);
    UnitsAreTimes(w, h, bpp);
    if !interlaced {
      TimesIs(PaddedLineBytes(w, bpp) + 1, h);
      out := new byte[h * (PaddedLineBytes(w, bpp) + 1)];
      if bpp >= 8 {
        WholeBytes(w, h, bpp);
      }
      var pad := bpp < 8 && w * bpp != PaddedLineBytes(w, bpp) * 8;
      error := EncodePass(out, 0, input, 0, w, h, color, settings, pad);
      if error == 0 {
        PlainDepicts(out[..], input[..], w, h, bpp, TypesValid(color, settings, h));
      }
    } else {
      var v := Adam7GetPassValues(w, h, bpp);
      EndsOf(v, w, h, bpp);
      out := new byte[v.filterPassstart[7]];
      var adam7 := new byte[v.passstart[7]];
      Adam7Interlace(adam7, input, w, h, bpp);
      error := EncodePasses(out, adam7, w, h, color, settings, v);
      if error == 0 {
        InterlacedPart(ReversedBits(adam7[..]), ReversedBits(input[..]), BitStarts(w, h, bpp), w, h, bpp);
        InterlacedDepicts(out[..], ReversedBits(adam7[..]), Picture(input[..], w, h, bpp), w, h, color, settings);
      }
    }
  }

  lemma EndsOf(v: PassValues, w: nat, h: nat, bpp: nat)
    requires PassValuesOk(v, w, h, bpp)
    ensures |v.filterPassstart| == |v.passstart| == 8 && w > 0 && h > 0
    ensures v.filterPassstart[7] == FilterStart(w, h, bpp, 7) && v.passstart[7] == PassStart(w, h, bpp, 7)
  {
  }

  lemma PlainDepicts(data: seq<byte>, image: seq<byte>, w: nat, h: nat, bpp: nat, valid: bool)
    requires w > 0 && h > 0 && PassFits(data, 0, w, h, bpp) && Units(w, h, bpp) == Times(w * bpp, h) <= 8 * |image|
    requires PassBits(data, 0, w, h, bpp) == if valid then Some(ImageBits(image, 0, w, h, bpp)) else None
    ensures if valid then Depicts(data, w, h, bpp, false, Picture(image, w, h, bpp)) else Undecodable(data, w, h, bpp, false)
  {
    hide PassBits, Times, Units;
    if valid {
      assert ImageBits(image, 0, w, h, bpp) == Picture(image, w, h, bpp);
    }
  }

  lemma InterlacedDepicts(data: seq<byte>, mid: seq<bit>, picture: seq<bit>, w: nat, h: nat, color: ColorMode,
                          settings: FilterSettings)
    requires w > 0 && h > 0 && |picture| == Units(w, h, Bpp(color)) && |mid| == 8 * PassStart(w, h, Bpp(color), 7)
    requires Interlaced(mid, picture, BitStarts(w, h, Bpp(color)), w, h, Bpp(color))
    requires forall j :: 0 <= j < 7 ==>
               PassEncoded(data, mid, w, h, Bpp(color), j, TypesValid(color, settings, PassHeight(w, h, j)))
    ensures if AllTypesValid(color, settings, w, h, true) then Depicts(data, w, h, Bpp(color), true, picture)
            else Undecodable(data, w, h, Bpp(color), true)
  {
    hide PassHeight, TypesValid, Interlaced, Units, PassStart, PassOk, PassBroken;
    if AllTypesValid(color, settings, w, h, true) {
      forall j | 0 <= j < 7
        ensures PassOk(data, mid, w, h, Bpp(color), j)
      {
        assert PassEncoded(data, mid, w, h, Bpp(color), j, TypesValid(color, settings, PassHeight(w, h, j)));
      }
      assert ReducedOk(data, mid, w, h, Bpp(color));
    } else {
      var j :| 0 <= j < 7 && !TypesValid(color, settings, PassHeight(w, h, j));
      assert PassEncoded(data, mid, w, h, Bpp(color), j, TypesValid(color, settings, PassHeight(w, h, j)));
    }
  }

  // ----- decoding

  /** The bits behind unfiltered lines in a buffer, without padding. */
  lemma LinesInBuffer(buffer: seq<byte>, o: nat, lines: seq<byte>, w: nat, h: nat, bpp: nat)
    requires |lines| == Times(PaddedLineBytes(w, bpp), h) && o + |lines| <= |buffer|
    requires buffer[o..o + |lines|] == lines
    ensures Times(8 * PaddedLineBytes(w, bpp), h) == 8 * |lines|
    ensures Unpadded(ReversedBits(buffer)[8 * o..], w * bpp, PaddingOf(w, bpp), h)
         == Unpadded(ReversedBits(lines), w * bpp, PaddingOf(w, bpp), h)
  {
    hide Times, Unpadded, ReversedBits, PaddedLineBytes;
    TimesOfBits(PaddedLineBytes(w, bpp), h);
    BitsOfSlice(buffer, o, o + |lines|);
    var bits := ReversedBits(buffer);
    TailSlice(bits, 8 * o, 0, 8 * |lines|);
    var tail, own := bits[8 * o..], ReversedBits(lines);
    assert tail[0..8 * |lines|] == own[0..8 * |lines|];
    UnpaddedPrefix(tail, own, w * bpp, PaddingOf(w, bpp), h);
  }

  lemma OverwrittenSlice<T>(before: seq<T>, o: nat, f: seq<T>)
    requires o + |f| <= |before|
    ensures var now := Overwritten(before, o, f);
            now[o..o + |f|] == f && now[..o] == before[..o] && now[o + |f|..] == before[o + |f|..]
  {
  }

  ghost predicate DecodeArguments(out: array<byte>, o: nat, input: array<byte>, p: nat, f: nat, w: nat, h: nat, bpp: nat)
    reads input
  {
    && PassFits(input[..], f, w, h, bpp) && p <= f && (out == input ==> o <= p)
    && 8 * o + Times(w * bpp, h) <= 8 * out.Length && p + Times(PaddedLineBytes(w, bpp), h) <= input.Length
  }

  lemma UnfilteredIsLines(data: seq<byte>, f: nat, w: nat, h: nat, bpp: nat)
    requires PassFits(data, f, w, h, bpp)
    ensures (h > 0 ==> 0 < ByteWidth(bpp) <= PaddedLineBytes(w, bpp))
    ensures PassLines(data, f, w, h, bpp)
         == UnfilteredImage(data[f..f + Times(PaddedLineBytes(w, bpp) + 1, h)], PaddedLineBytes(w, bpp), ByteWidth(bpp), h)
  {
    WidthFits(w, h, bpp);
  }

  lemma BitsOfLines(data: seq<byte>, f: nat, w: nat, h: nat, bpp: nat)
    requires PassFits(data, f, w, h, bpp)
    ensures PassBits(data, f, w, h, bpp).None? <==> PassLines(data, f, w, h, bpp).None?
    ensures PassLines(data, f, w, h, bpp).Some? ==>
              && Times(8 * PaddedLineBytes(w, bpp), h) == 8 * |PassLines(data, f, w, h, bpp).value|
              && PassBits(data, f, w, h, bpp)
                 == Some(Unpadded(ReversedBits(PassLines(data, f, w, h, bpp).value), w * bpp, PaddingOf(w, bpp), h))
  {
    TimesOfBits(PaddedLineBytes(w, bpp), h);
  }

  /**
    Unfilters lines within the buffer they are in, and moves their bits, without padding,
    to a buffer that may be the same one.
   */
  method UnfilterAndUnpad(out: array<byte>, o: nat, input: array<byte>, p: nat, f: nat, w: nat, h: nat, bpp: nat)
    returns (error: nat)
    requires DecodeArguments(out, o, input, p, f, w, h, bpp)
    modifies out, input
    ensures var r := PassBits(old(input[..]), f, w, h, bpp);
            && error == (if r.None? then INVALID_FILTER else 0)
            && (r.Some? ==>
                  && var start := if out == input then ReversedBits(Overwritten(old(input[..]), p, PassLines(old(input[..]), f, w, h, bpp).value))
                                  else ReversedBits(old(out[..]));
                     ReversedBits(out[..]) == Overwritten(start, 8 * o, r.value))
  {
    hide Times, UnfilteredImage, Unpadded, Overwritten, ReversedBits, PaddedLineBytes, PassLines, PassBits;
    ghost var input0 := input[..];
    UnfilteredIsLines(input0, f, w, h, bpp);
    BitsOfLines(input0, f, w, h, bpp);
    ghost var lines := PassLines(input0, f, w, h, bpp);
    error := Unfilter(input, p, input, f, PaddedLineBytes(w, bpp), ByteWidth(bpp), h);
    if error != 0 {
      return;
    }
    OverwrittenSlice(input0, p, lines.value);
    LinesInBuffer(input[..], p, lines.value, w, h, bpp);
    RemovePaddingBits(out, o, input, p, w * bpp, 8 * PaddedLineBytes(w, bpp), h);
  }

  /** Lines of whole bytes have the bits of their bytes. */
  lemma WholeLines(data: seq<byte>, f: nat, w: nat, h: nat, bpp: nat)
    requires PassFits(data, f, w, h, bpp) && PaddingOf(w, bpp) == 0 && PassLines(data, f, w, h, bpp).Some?
    ensures PassBits(data, f, w, h, bpp) == Some(ReversedBits(PassLines(data, f, w, h, bpp).value))
  {
    hide Times, Unpadded, ReversedBits, PaddedLineBytes, PassLines;
    var lines := PassLines(data, f, w, h, bpp).value;
    TimesOfBits(PaddedLineBytes(w, bpp), h);
    UnpaddedWithout(ReversedBits(lines), w * bpp, h);
    assert ReversedBits(lines)[..|ReversedBits(lines)|] == ReversedBits(lines);
  }

  /** The first reduced images have been decoded in place; the later ones are still in their filtered form. */
  ghost predicate DecodedSoFar(buffer: seq<byte>, data: seq<byte>, w: nat, h: nat, bpp: nat, i: nat) {
    && i <= 7 && w > 0 && h > 0 && |buffer| == |data| && FilterStart(w, h, bpp, 7) <= |data|
    && FilterStart(w, h, bpp, i) <= |data| && buffer[FilterStart(w, h, bpp, i)..] == data[FilterStart(w, h, bpp, i)..]
    && forall j :: 0 <= j < i ==> PassOk(data, ReversedBits(buffer), w, h, bpp, j)
  }

  /** What is still filtered reads the same in the buffer. */
  lemma StillFiltered(buffer: seq<byte>, data: seq<byte>, w: nat, h: nat, bpp: nat, i: nat)
    requires DecodedSoFar(buffer, data, w, h, bpp, i) && i < 7 && bpp > 0
    ensures var f, pw, ph := FilterStart(w, h, bpp, i), PassWidth(w, h, i), PassHeight(w, h, i);
            && PassFits(buffer, f, pw, ph, bpp) && PassFits(data, f, pw, ph, bpp)
            && PassLines(buffer, f, pw, ph, bpp) == PassLines(data, f, pw, ph, bpp)
            && PassBits(buffer, f, pw, ph, bpp) == PassBits(data, f, pw, ph, bpp)
  {
    hide Times, UnfilteredImage, Unpadded, ReversedBits, PaddedLineBytes, PassWidth, PassHeight, FilterStart, PassOk;
    FitsAt(buffer, w, h, bpp, i);
    FitsAt(data, w, h, bpp, i);
    var f, n := FilterStart(w, h, bpp, i), PaddedLineBytes(PassWidth(w, h, i), bpp);
    var size := Times(n + 1, PassHeight(w, h, i));
    SliceOfSlice(buffer, f, |buffer|, 0, size);
    SliceOfSlice(data, f, |data|, 0, size);
    assert buffer[f..|buffer|] == buffer[f..] && data[f..|data|] == data[f..];
  }

  /** A reduced image whose bits are before those of another stays decoded. */
  lemma PassStaysDecoded(now: seq<byte>, buffer: seq<byte>, data: seq<byte>, w: nat, h: nat, bpp: nat, i: nat, j: nat)
    requires w > 0 && h > 0 && j < i < 7 && bpp > 0 && |now| == |buffer| && PassStart(w, h, bpp, i) <= |now|
    requires ReversedBits(now)[..8 * PassStart(w, h, bpp, i)] == ReversedBits(buffer)[..8 * PassStart(w, h, bpp, i)]
    requires PassOk(data, ReversedBits(buffer), w, h, bpp, j)
    ensures PassOk(data, ReversedBits(now), w, h, bpp, j)
  {
    hide Times, PassBits, ReversedBits, PassWidth, PassHeight, FilterStart, PassStart, PassFits;
    PassSize(w, h, bpp, j);
    StartsGrow(w, h, bpp, j + 1, i);
    var start := 8 * PassStart(w, h, bpp, j);
    var size := Times(PassWidth(w, h, j) * bpp, PassHeight(w, h, j));
    var a, b, end := ReversedBits(now), ReversedBits(buffer), 8 * PassStart(w, h, bpp, i);
    SliceOfSlice(a, 0, end, start, start + size);
    SliceOfSlice(b, 0, end, start, start + size);
    assert a[0..end] == a[..end] && b[0..end] == b[..end];
  }

  /** One more reduced image: its bits are in place, and nothing before them or behind its filtered form has changed. */
  lemma OneMoreDecoded(now: seq<byte>, buffer: seq<byte>, data: seq<byte>, w: nat, h: nat, bpp: nat, i: nat)
    requires DecodedSoFar(buffer, data, w, h, bpp, i) && i < 7 && bpp > 0 && |now| == |buffer|
    requires FilterStart(w, h, bpp, i + 1) <= |now|
    requires now[FilterStart(w, h, bpp, i + 1)..] == buffer[FilterStart(w, h, bpp, i + 1)..]
    requires 8 * PassStart(w, h, bpp, i) <= 8 * |now|
    requires ReversedBits(now)[..8 * PassStart(w, h, bpp, i)] == ReversedBits(buffer)[..8 * PassStart(w, h, bpp, i)]
    requires PassOk(data, ReversedBits(now), w, h, bpp, i)
    ensures DecodedSoFar(now, data, w, h, bpp, i + 1)
  {
    hide Times, PassLines, PassBits, ReversedBits, PaddedLineBytes, PassWidth, PassHeight, FilterStart, PassStart, PassFits;
    StartsGrow(w, h, bpp, i, i + 1);
    StartsGrow(w, h, bpp, i + 1, 7);
    var f, f' := FilterStart(w, h, bpp, i), FilterStart(w, h, bpp, i + 1);
    DropMore(buffer, f, f');
    DropMore(data, f, f');
    forall j | 0 <= j < i
      ensures PassOk(data, ReversedBits(now), w, h, bpp, j)
    {
      assert PassOk(data, ReversedBits(buffer), w, h, bpp, j);
      PassStaysDecoded(now, buffer, data, w, h, bpp, i, j);
    }
  }

  lemma DropMore<T>(s: seq<T>, a: nat, b: nat)
    requires a <= b <= |s|
    ensures s[b..] == s[a..][b - a..]
  {
  }

  lemma ByteOfBits(a: seq<byte>, b: seq<byte>, k: nat)
    requires k < |a| && k < |b|
    requires forall d :: 0 <= d < 8 ==> BitInByte(a, k, d) == BitInByte(b, k, d)
    ensures a[k] == b[k]
  {
    hide Shr;
    forall i | 0 <= i < 8
      ensures MsbBits(a[k], 8)[i] == MsbBits(b[k], 8)[i]
    {
      assert BitInByte(a, k, i) == BitInByte(b, k, i);
      MsbBitsAt(a[k], 8, i);
      MsbBitsAt(b[k], 8, i);
    }
    assert MsbBits(a[k], 8) == MsbBits(b[k], 8);
    Pow2Values();
    MsbOfMsbBits(a[k], 8);
    MsbOfMsbBits(b[k], 8);
    LowSmall(a[k], 8);
    LowSmall(b[k], 8);
  }

  function BitInByte(data: seq<byte>, k: nat, d: nat): bit
    requires k < |data| && d < 8
  {
    Shr(data[k], 7 - d) % 2
  }

  /** Equal bits are equal bytes. */
  lemma SameBytes(a: seq<byte>, b: seq<byte>, e: nat)
    requires e <= |a| == |b| && ReversedBits(a)[8 * e..] == ReversedBits(b)[8 * e..]
    ensures a[e..] == b[e..]
  {
    hide ReversedBits, Shr;
    forall k | e <= k < |a|
      ensures a[k] == b[k]
    {
      forall d | 0 <= d < 8
        ensures BitInByte(a, k, d) == BitInByte(b, k, d)
      {
        BitOfByte(a, k, d);
        BitOfByte(b, k, d);
        assert ReversedBits(a)[8 * e..][8 * (k - e) + d] == ReversedBits(a)[8 * k + d];
        assert ReversedBits(b)[8 * e..][8 * (k - e) + d] == ReversedBits(b)[8 * k + d];
      }
      ByteOfBits(a, b, k);
    }
  }

  /** A reduced image of which the bits have been put in place. */
  lemma BitsInPlace(now: seq<byte>, before: seq<byte>, data: seq<byte>, w: nat, h: nat, bpp: nat, i: nat)
    requires i < 7 && w > 0 && h > 0 && |now| == |before| && FilterStart(w, h, bpp, i + 1) <= |now|
    requires var f, pw, ph := FilterStart(w, h, bpp, i), PassWidth(w, h, i), PassHeight(w, h, i);
             var p, o := PaddedStart(w, h, bpp, i), PassStart(w, h, bpp, i);
             && PassFits(before, f, pw, ph, bpp) && PassFits(data, f, pw, ph, bpp)
             && PassBits(before, f, pw, ph, bpp) == PassBits(data, f, pw, ph, bpp) && PassBits(data, f, pw, ph, bpp).Some?
             && PassLines(before, f, pw, ph, bpp).Some?
             && var lines, bits := PassLines(before, f, pw, ph, bpp).value, PassBits(data, f, pw, ph, bpp).value;
                && p + |lines| <= |before| && 8 * o + |bits| <= 8 * |before|
                && ReversedBits(now) == Overwritten(ReversedBits(Overwritten(before, p, lines)), 8 * o, bits)
    ensures now[FilterStart(w, h, bpp, i + 1)..] == before[FilterStart(w, h, bpp, i + 1)..]
    ensures 8 * PassStart(w, h, bpp, i) <= 8 * |now|
    ensures ReversedBits(now)[..8 * PassStart(w, h, bpp, i)] == ReversedBits(before)[..8 * PassStart(w, h, bpp, i)]
    ensures PassOk(data, ReversedBits(now), w, h, bpp, i)
  {
    hide Times, PassLines, PassBits, ReversedBits, PaddedLineBytes, PassWidth, PassHeight, FilterStart, PaddedStart, PassStart,
      Overwritten;
    var f, pw, ph := FilterStart(w, h, bpp, i), PassWidth(w, h, i), PassHeight(w, h, i);
    var p, o, e := PaddedStart(w, h, bpp, i), PassStart(w, h, bpp, i), FilterStart(w, h, bpp, i + 1);
    var lines, bits := PassLines(before, f, pw, ph, bpp).value, PassBits(data, f, pw, ph, bpp).value;
    PassSize(w, h, bpp, i);
    StartsOrdered(w, h, bpp, i);
    StartsOrdered(w, h, bpp, i + 1);
    BitsOfOverwritten(before, p, lines);
    var b0 := ReversedBits(before);
    TwoOverwrites(b0, 8 * p, ReversedBits(lines), 8 * o, bits, 8 * e);
    SameBytes(now, before, e);
    OverwrittenSlice(Overwritten(b0, 8 * p, ReversedBits(lines)), 8 * o, bits);
  }

  /** Where neither of two pieces was written. */
  lemma TwoOverwrites<T>(before: seq<T>, p: nat, a: seq<T>, o: nat, b: seq<T>, e: nat)
    requires o <= p && p + |a| <= e <= |before| && o + |b| <= e
    ensures var now := Overwritten(Overwritten(before, p, a), o, b);
            now[..o] == before[..o] && now[e..] == before[e..]
  {
  }

  /** The same for a reduced image of whole bytes, which unfiltering alone puts in place. */
  lemma BytesInPlace(now: seq<byte>, before: seq<byte>, data: seq<byte>, w: nat, h: nat, bpp: nat, i: nat)
    requires i < 7 && w > 0 && h > 0 && |now| == |before| && FilterStart(w, h, bpp, i + 1) <= |now| && bpp % 8 == 0
    requires var f, pw, ph := FilterStart(w, h, bpp, i), PassWidth(w, h, i), PassHeight(w, h, i);
             var p := PaddedStart(w, h, bpp, i);
             && PassFits(before, f, pw, ph, bpp) && PassFits(data, f, pw, ph, bpp)
             && PassBits(before, f, pw, ph, bpp) == PassBits(data, f, pw, ph, bpp)
             && PassLines(before, f, pw, ph, bpp).Some?
             && p + |PassLines(before, f, pw, ph, bpp).value| <= |before|
             && now == Overwritten(before, p, PassLines(before, f, pw, ph, bpp).value)
    ensures now[FilterStart(w, h, bpp, i + 1)..] == before[FilterStart(w, h, bpp, i + 1)..]
    ensures 8 * PassStart(w, h, bpp, i) <= 8 * |now|
    ensures ReversedBits(now)[..8 * PassStart(w, h, bpp, i)] == ReversedBits(before)[..8 * PassStart(w, h, bpp, i)]
    ensures PassOk(data, ReversedBits(now), w, h, bpp, i)
  {
    hide Times, PassLines, PassBits, ReversedBits, PaddedLineBytes, PassWidth, PassHeight, FilterStart, PaddedStart, PassStart,
      Overwritten;
    var f, pw, ph := FilterStart(w, h, bpp, i), PassWidth(w, h, i), PassHeight(w, h, i);
    var p, e := PaddedStart(w, h, bpp, i), FilterStart(w, h, bpp, i + 1);
    var lines := PassLines(before, f, pw, ph, bpp).value;
    PassSize(w, h, bpp, i);
    StartsOrdered(w, h, bpp, i);
    StartsOrdered(w, h, bpp, i + 1);
    NoPadding(w, h, bpp, i);
    WholeBytes(pw, ph, bpp);
    WholeLines(before, f, pw, ph, bpp);
    BitsOfOverwritten(before, p, lines);
    OverwrittenSlice(before, p, lines);
    OverwrittenSlice(ReversedBits(before), 8 * p, ReversedBits(lines));
    DropMore(now, p + |lines|, e);
    DropMore(before, p + |lines|, e);
  }

  /** Decodes the seven reduced images within the buffer. */
  method DecodePasses(buffer: array<byte>, w: nat, h: nat, bpp: nat, v: PassValues) returns (error: nat)
    requires w > 0 && h > 0 && bpp > 0 && (bpp < 8 || bpp % 8 == 0) && PassValuesOk(v, w, h, bpp)
    requires FilterStart(w, h, bpp, 7) <= buffer.Length
    modifies buffer
    ensures error == 0 ==> DecodedSoFar(buffer[..], old(buffer[..]), w, h, bpp, 7)
    ensures error != 0 ==> error == INVALID_FILTER && Undecodable(old(buffer[..]), w, h, bpp, true)
  {
    hide PassWidth, PassHeight, FilterStart, PaddedStart, PassStart, ReversedBits, PaddedLineBytes, DecodedSoFar, PassBits, PassLines,
      Times, Overwritten, PassOk, UnfilteredImage, Undecodable;
    ghost var data := buffer[..];
    NothingDecoded(data, w, h, bpp);
    for i := 0 to 7
      invariant DecodedSoFar(buffer[..], data, w, h, bpp, i)
    {
      ghost var before := buffer[..];
      PassSize(w, h, bpp, i);
      StartsOrdered(w, h, bpp, i);
      StartsOrdered(w, h, bpp, i + 1);
      StartsGrow(w, h, bpp, i + 1, 7);
      StillFiltered(before, data, w, h, bpp, i);
      if bpp < 8 {
        error := UnfilterAndUnpad(buffer, v.passstart[i], buffer, v.paddedPassstart[i], v.filterPassstart[i],
                                  v.passw[i], v.passh[i], bpp);
        if error != 0 {
          BrokenAt(data, w, h, bpp, i);
          return;
        }
        BitsHaveLines(before, v.filterPassstart[i], v.passw[i], v.passh[i], bpp);
        BitsInPlace(buffer[..], before, data, w, h, bpp, i);
      } else {
        NoPadding(w, h, bpp, i);
        WholeBytes(v.passw[i], v.passh[i], bpp);
        WidthFits(v.passw[i], v.passh[i], bpp);
        UnfilteredIsLines(before, v.filterPassstart[i], v.passw[i], v.passh[i], bpp);
        error := Unfilter(buffer, v.paddedPassstart[i], buffer, v.filterPassstart[i], PaddedLineBytes(v.passw[i], bpp),
                          ByteWidth(bpp), v.passh[i]);
        if error != 0 {
          NoLinesNoBits(before, v.filterPassstart[i], v.passw[i], v.passh[i], bpp);
          BrokenAt(data, w, h, bpp, i);
          return;
        }
        BytesInPlace(buffer[..], before, data, w, h, bpp, i);
      }
      OneMoreDecoded(buffer[..], before, data, w, h, bpp, i);
    }
    error := 0;
  }

  lemma NothingDecoded(data: seq<byte>, w: nat, h: nat, bpp: nat)
    requires w > 0 && h > 0 && FilterStart(w, h, bpp, 7) <= |data|
    ensures DecodedSoFar(data, data, w, h, bpp, 0)
  {
    hide FilterStart;
    StartsGrow(w, h, bpp, 0, 7);
  }

  lemma BitsHaveLines(data: seq<byte>, f: nat, w: nat, h: nat, bpp: nat)
    requires PassFits(data, f, w, h, bpp) && PassBits(data, f, w, h, bpp).Some?
    ensures PassLines(data, f, w, h, bpp).Some?
  {
  }

  lemma BrokenAt(data: seq<byte>, w: nat, h: nat, bpp: nat, i: nat)
    requires i < 7 && w > 0 && h > 0
    requires PassFits(data, FilterStart(w, h, bpp, i), PassWidth(w, h, i), PassHeight(w, h, i), bpp)
    requires PassBits(data, FilterStart(w, h, bpp, i), PassWidth(w, h, i), PassHeight(w, h, i), bpp).None?
    ensures Undecodable(data, w, h, bpp, true)
  {
    hide FilterStart, PassWidth, PassHeight, PassBits;
    assert PassBroken(data, w, h, bpp, i);
  }

  /** The decoded reduced images, put together. */
  lemma PutTogether(data: seq<byte>, buffer: seq<byte>, out: seq<byte>, w: nat, h: nat, bpp: nat)
    requires DecodedSoFar(buffer, data, w, h, bpp, 7) && Units(w, h, bpp) <= 8 * |out|
    requires Interlaced(ReversedBits(buffer), ReversedBits(out), BitStarts(w, h, bpp), w, h, bpp)
    ensures Depicts(data, w, h, bpp, true, Picture(out, w, h, bpp))
  {
    hide Interlaced, PassOk, Units, FilterStart, PassStart, ReversedBits;
    StartsOrdered(w, h, bpp, 7);
    InterlacedPart(ReversedBits(buffer), ReversedBits(out), BitStarts(w, h, bpp), w, h, bpp);
    assert ReducedOk(data, ReversedBits(buffer), w, h, bpp);
  }

  /** How long the scanlines of an image are. */
  ghost function ScanlinesSize(w: nat, h: nat, bpp: nat, interlaced: bool): nat
    requires w > 0 && h > 0
  {
    if interlaced then FilterStart(w, h, bpp, 7) else Times(PaddedLineBytes(w, bpp) + 1, h)
  }

  /** Unfilters lines that need no padding, straight into the image. */
  method UnfilterWhole(out: array<byte>, input: array<byte>, w: nat, h: nat, bpp: nat) returns (error: nat)
    requires out != input && w > 0 && PassFits(input[..], 0, w, h, bpp) && PaddingOf(w, bpp) == 0
    requires Times(PaddedLineBytes(w, bpp), h) <= out.Length
    modifies out
    ensures var r := PassBits(input[..], 0, w, h, bpp);
            && error == (if r.None? then INVALID_FILTER else 0)
            && (r.Some? ==>
                  && |r.value| <= 8 * out.Length
                  && ReversedBits(out[..]) == Overwritten(ReversedBits(old(out[..])), 0, r.value))
  {
    hide Times, UnfilteredImage, Unpadded, Overwritten, ReversedBits, PaddedLineBytes, PassLines, PassBits, PaddingOf;
    ghost var data, before := input[..], out[..];
    UnfilteredIsLines(data, 0, w, h, bpp);
    BitsOfLines(data, 0, w, h, bpp);
    TimesOfBits(PaddedLineBytes(w, bpp), h);
    error := Unfilter(out, 0, input, 0, PaddedLineBytes(w, bpp), ByteWidth(bpp), h);
    if error == 0 {
      WholeLines(data, 0, w, h, bpp);
      BitsOfOverwritten(before, 0, PassLines(data, 0, w, h, bpp).value);
    }
  }

  /** Turns scanlines without interlacing back into the image. */
  method PostProcessPlain(out: array<byte>, input: array<byte>, w: nat, h: nat, bpp: nat) returns (error: nat)
    requires out != input && w > 0 && h > 0 && bpp > 0 && (bpp < 8 || bpp % 8 == 0)
    requires ScanlinesSize(w, h, bpp, false) <= input.Length && Units(w, h, bpp) <= 8 * out.Length
    modifies out, input
    ensures error == if Undecodable(old(input[..]), w, h, bpp, false) then INVALID_FILTER else 0
    ensures error == 0 ==> Depicts(old(input[..]), w, h, bpp, false, Picture(out[..], w, h, bpp))
  {
    hide Times, UnfilteredImage, Unpadded, Overwritten, ReversedBits, PaddedLineBytes, PassLines, PassBits, Units, FilterStart,
      PassStart, Interlaced, DecodedSoFar, PassValuesOk, Undecodable, Depicts;
    ghost var data := input[..];
    UnitsAreTimes(w, h, bpp);
    UnitsInBytes(w, h, bpp);
    TimesOfBits(PaddedLineBytes(w, bpp), h);
    TimesMono(PaddedLineBytes(w, bpp), PaddedLineBytes(w, bpp) + 1, h);
    if bpp < 8 && w * bpp != PaddedLineBytes(w, bpp) * 8 {
      error := UnfilterAndUnpad(out, 0, input, 0, 0, w, h, bpp);
    } else {
      if bpp >= 8 {
        WholeBytes(w, h, bpp);
      }
      error := UnfilterWhole(out, input, w, h, bpp);
    }
    PlainPicture(data, out[..], w, h, bpp, error);
  }

  /**
    Turns scanlines back into the image, overwriting the scanlines on the way.  It fails
    exactly if a filter type is invalid, and otherwise gives the picture they depict.
   */
  method PostProcessScanlines(out: array<byte>, input: array<byte>, w: nat, h: nat, bpp: nat, interlaced: bool)
    returns (error: nat)
    requires out != input && w > 0 && h > 0 && (bpp < 8 || bpp % 8 == 0)
    requires ScanlinesSize(w, h, bpp, interlaced) <= input.Length && Units(w, h, bpp) <= 8 * out.Length
    modifies out, input
    ensures bpp == 0 ==> error == INVALID_COLOR
    ensures bpp > 0 ==> error == if Undecodable(old(input[..]), w, h, bpp, interlaced) then INVALID_FILTER else 0
    ensures bpp > 0 && error == 0 ==> Depicts(old(input[..]), w, h, bpp, interlaced, Picture(out[..], w, h, bpp))
  {
    hide Times, UnfilteredImage, Unpadded, Overwritten, ReversedBits, PaddedLineBytes, PassLines, PassBits, Units, FilterStart,
      PassStart, Interlaced, DecodedSoFar, PassValuesOk, Undecodable, Depicts;
    if bpp == 0 {
      return INVALID_COLOR;
    }
    ghost var data := input[..];
    UnitsAreTimes(w, h, bpp);
    UnitsInBytes(w, h, bpp);
    if !interlaced {
      error := PostProcessPlain(out, input, w, h, bpp);
    } else {
      var v := Adam7GetPassValues(w, h, bpp);
      error := DecodePasses(input, w, h, bpp, v);
      if error == 0 {
        BufferFits(input[..], data, w, h, bpp);
        Adam7Deinterlace(out, input, w, h, bpp);
        PutTogether(data, input[..], out[..], w, h, bpp);
        PictureUnique(data, w, h, bpp, true, Picture(out[..], w, h, bpp), Picture(out[..], w, h, bpp));
      }
    }
  }

  lemma UnitsInBytes(w: nat, h: nat, bpp: nat)
    ensures Times(w * bpp, h) <= 8 * Times(PaddedLineBytes(w, bpp), h)
  {
    hide PaddedLineBytes;
    var n, padding := PaddedLineBytes(w, bpp), PaddingOf(w, bpp);
    TimesOfBits(n, h);
    TimesMono(w * bpp, 8 * n, h);
  }

  lemma {:induction false} TimesMono(a: nat, b: nat, h: nat)
    requires a <= b
    ensures Times(a, h) <= Times(b, h)
  {
    if h > 0 {
      TimesMono(a, b, h - 1);
    }
  }

  lemma BufferFits(buffer: seq<byte>, data: seq<byte>, w: nat, h: nat, bpp: nat)
    requires DecodedSoFar(buffer, data, w, h, bpp, 7)
    ensures PassStart(w, h, bpp, 7) <= |buffer|
  {
    hide PassOk;
    StartsOrdered(w, h, bpp, 7);
  }

  lemma PlainPicture(data: seq<byte>, out: seq<byte>, w: nat, h: nat, bpp: nat, error: nat)
    requires w > 0 && h > 0 && PassFits(data, 0, w, h, bpp) && Units(w, h, bpp) == Times(w * bpp, h) <= 8 * |out|
    requires error == if PassBits(data, 0, w, h, bpp).None? then INVALID_FILTER else 0
    requires error == 0 ==> exists before: seq<bit> ::
               |PassBits(data, 0, w, h, bpp).value| <= |before|
               && ReversedBits(out) == Overwritten(before, 0, PassBits(data, 0, w, h, bpp).value)
    ensures error == if Undecodable(data, w, h, bpp, false) then INVALID_FILTER else 0
    ensures error == 0 ==> Depicts(data, w, h, bpp, false, Picture(out, w, h, bpp))
  {
    hide Times, PassBits, Units, ReversedBits, Overwritten;
    if error == 0 {
      var bits := PassBits(data, 0, w, h, bpp).value;
      var before: seq<bit> :| |bits| <= |before| && ReversedBits(out) == Overwritten(before, 0, bits);
      OverwrittenSlice(before, 0, bits);
      assert ReversedBits(out)[0..|bits|] == ReversedBits(out)[..|bits|];
    }
  }

  // ----- the size the decoder expects

  /** Size of filtered scanlines, computed so that width times depth does not overflow. */
  function RawSizeIdat(w: nat, h: nat, bpp: nat): nat {
    h * ((w / 8) * bpp + 1 + ((w % 8) * bpp + 7) / 8)
  }

  /** The sum of the sizes of the seven reduced images as the decoder computes it. */
  function ExpectedSize(w: nat, h: nat, bpp: nat): nat {
    RawSizeIdat((w + 7) / 8, (h + 7) / 8, bpp)
    + (if w > 4 then RawSizeIdat((w + 3) / 8, (h + 7) / 8, bpp) else 0)
    + RawSizeIdat((w + 3) / 4, (h + 3) / 8, bpp)
    + (if w > 2 then RawSizeIdat((w + 1) / 4, (h + 3) / 4, bpp) else 0)
    + RawSizeIdat((w + 1) / 2, (h + 1) / 4, bpp)
    + (if w > 1 then RawSizeIdat(w / 2, (h + 1) / 2, bpp) else 0)
    + RawSizeIdat(w, h / 2, bpp)
  }

  lemma RawSizeIs(w: nat, h: nat, bpp: nat, pw: nat, ph: nat)
    requires w > 0 && (if h == 0 then pw == ph == 0 else pw == w && ph == h)
    ensures RawSizeIdat(w, h, bpp) == FilteredBytes(pw, ph, bpp)
  {
    LineBytesIs(w, bpp);
    assert RawSizeIdat(w, h, bpp) == h * (1 + PaddedLineBytes(w, bpp));
    if h == 0 {
      assert 0 * (1 + PaddedLineBytes(w, bpp)) == 0;
    }
  }

  /** One summand; a reduced image without columns has none. */
  lemma PassSizeIs(w: nat, h: nat, bpp: nat, i: nat)
    requires w > 0 && h > 0 && i < 7
    ensures FilteredBytes(PassWidth(w, h, i), PassHeight(w, h, i), bpp)
         == if RawWidth(w, i) == 0 then 0 else RawSizeIdat(RawWidth(w, i), RawHeight(h, i), bpp)
  {
    hide RawWidth, RawHeight, RawSizeIdat, PaddedLineBytes;
    if RawWidth(w, i) > 0 {
      RawSizeIs(RawWidth(w, i), RawHeight(h, i), bpp, PassWidth(w, h, i), PassHeight(w, h, i));
    }
  }

  lemma SumOfSizes(w: nat, h: nat, bpp: nat)
    requires w > 0 && h > 0
    ensures FilterStart(w, h, bpp, 7)
         == FilteredBytes(PassWidth(w, h, 0), PassHeight(w, h, 0), bpp) + FilteredBytes(PassWidth(w, h, 1), PassHeight(w, h, 1), bpp)
          + FilteredBytes(PassWidth(w, h, 2), PassHeight(w, h, 2), bpp) + FilteredBytes(PassWidth(w, h, 3), PassHeight(w, h, 3), bpp)
          + FilteredBytes(PassWidth(w, h, 4), PassHeight(w, h, 4), bpp) + FilteredBytes(PassWidth(w, h, 5), PassHeight(w, h, 5), bpp)
          + FilteredBytes(PassWidth(w, h, 6), PassHeight(w, h, 6), bpp)
  {
    hide FilterStart, PassWidth, PassHeight, FilteredBytes;
    NextStart(w, h, bpp, 0);
    NextStart(w, h, bpp, 1);
    NextStart(w, h, bpp, 2);
    NextStart(w, h, bpp, 3);
    NextStart(w, h, bpp, 4);
    NextStart(w, h, bpp, 5);
    NextStart(w, h, bpp, 6);
  }

  lemma NextStart(w: nat, h: nat, bpp: nat, i: nat)
    requires w > 0 && h > 0 && i < 7
    ensures FilterStart(w, h, bpp, 0) == 0
    ensures FilterStart(w, h, bpp, i + 1)
         == FilterStart(w, h, bpp, i) + FilteredBytes(PassWidth(w, h, i), PassHeight(w, h, i), bpp)
  {
    hide PassWidth, PassHeight, FilteredBytes;
  }

  /** The quotients of the decoder are the sizes of the reduced images. */
  lemma PassQuotients(w: nat, h: nat)
    requires w > 0 && h > 0
    ensures RawWidth(w, 0) == (w + 7) / 8 && RawHeight(h, 0) == (h + 7) / 8 && RawWidth(w, 0) > 0
    ensures RawWidth(w, 1) == (w + 3) / 8 && RawHeight(h, 1) == (h + 7) / 8 && (RawWidth(w, 1) > 0 <==> w > 4)
    ensures RawWidth(w, 2) == (w + 3) / 4 && RawHeight(h, 2) == (h + 3) / 8 && RawWidth(w, 2) > 0
    ensures RawWidth(w, 3) == (w + 1) / 4 && RawHeight(h, 3) == (h + 3) / 4 && (RawWidth(w, 3) > 0 <==> w > 2)
    ensures RawWidth(w, 4) == (w + 1) / 2 && RawHeight(h, 4) == (h + 1) / 4 && RawWidth(w, 4) > 0
    ensures RawWidth(w, 5) == w / 2 && RawHeight(h, 5) == (h + 1) / 2 && (RawWidth(w, 5) > 0 <==> w > 1)
    ensures RawWidth(w, 6) == w && RawHeight(h, 6) == h / 2
  {
  }

  /** It is the size the encoder gives the scanlines, with and without interlacing. */
  lemma ExpectedSizeIs(w: nat, h: nat, bpp: nat)
    requires w > 0 && h > 0
    ensures ExpectedSize(w, h, bpp) == ScanlinesSize(w, h, bpp, true)
    ensures RawSizeIdat(w, h, bpp) == ScanlinesSize(w, h, bpp, false)
  {
    hide RawSizeIdat, FilteredBytes, PaddedLineBytes, RawWidth, RawHeight, PassWidth, PassHeight, FilterStart, Times;
    SumOfSizes(w, h, bpp);
    PassQuotients(w, h);
    PassSizeIs(w, h, bpp, 0);
    PassSizeIs(w, h, bpp, 1);
    PassSizeIs(w, h, bpp, 2);
    PassSizeIs(w, h, bpp, 3);
    PassSizeIs(w, h, bpp, 4);
    PassSizeIs(w, h, bpp, 5);
    PassSizeIs(w, h, bpp, 6);
    RawSizeIs(w, h, bpp, w, h);
    SizesByTimes(w, h, bpp);
  }

  /** There is at least the filter type of one line. */
  lemma ScanlinesNotEmpty(w: nat, h: nat, bpp: nat, interlaced: bool)
    requires w > 0 && h > 0
    ensures ScanlinesSize(w, h, bpp, interlaced) > 0
  {
    hide PaddedLineBytes, PassWidth, PassHeight;
    if interlaced {
      StartsGrow(w, h, bpp, 1, 7);
      PassSize(w, h, bpp, 0);
      FirstPass(w, h);
      LinesNotEmpty(PaddedLineBytes(PassWidth(w, h, 0), bpp), PassHeight(w, h, 0));
    } else {
      LinesNotEmpty(PaddedLineBytes(w, bpp), h);
    }
  }

  lemma FirstPass(w: nat, h: nat)
    requires w > 0 && h > 0
    ensures PassHeight(w, h, 0) > 0
  {
  }

  lemma {:induction false} LinesNotEmpty(n: nat, h: nat)
    requires h > 0
    ensures Times(n + 1, h) > 0
  {
    TimesGrows(n + 1, 1, h);
  }
}
