/**
  Interlacing and deinterlacing by loops over the seven passes, byte by byte for pixels
  of whole bytes and bit by bit for smaller ones.
 */
module Interlace {
  import opened Sequences
  import opened Options
  import opened Bits
  import opened Adam7
  import opened ScanlineImage
  import opened PaddingBits
  import opened Modular

  /** Bytes of a line of a reduced image, padding bits included. */
  function PaddedLineBytes(w: nat, bpp: nat): nat {
    (w * bpp + 7) / 8
  }

  /** Bytes of a reduced image: with filter types and padding bits, without the types, and without both. */
  function FilteredBytes(pw: nat, ph: nat, bpp: nat): nat {
    if pw > 0 && ph > 0 then ph * (1 + PaddedLineBytes(pw, bpp)) else 0
  }

  function PaddedBytes(pw: nat, ph: nat, bpp: nat): nat {
    ph * PaddedLineBytes(pw, bpp)
  }

  function ImageBytes(pw: nat, ph: nat, bpp: nat): nat {
    (ph * pw * bpp + 7) / 8
  }

  /** Where each reduced image begins: with filter types and padding bits. */
  function FilterStart(w: nat, h: nat, bpp: nat, i: nat): nat
    requires i <= 7 && w > 0 && h > 0
  {
    if i == 0 then 0
    else
      FilterStart(w, h, bpp, i - 1) + FilteredBytes(PassWidth(w, h, i - 1), PassHeight(w, h, i - 1), bpp)
  }

  /** The same without filter types. */
  function PaddedStart(w: nat, h: nat, bpp: nat, i: nat): nat
    requires i <= 7 && w > 0 && h > 0
  {
    if i == 0 then 0
    else
      PaddedStart(w, h, bpp, i - 1) + PaddedBytes(PassWidth(w, h, i - 1), PassHeight(w, h, i - 1), bpp)
  }

  /** The same without padding bits, except at the end of a reduced image. */
  function PassStart(w: nat, h: nat, bpp: nat, i: nat): nat
    requires i <= 7 && w > 0 && h > 0
  {
    if i == 0 then 0
    else
      PassStart(w, h, bpp, i - 1) + ImageBytes(PassWidth(w, h, i - 1), PassHeight(w, h, i - 1), bpp)
  }

  /** The pass values of an image. */
  datatype PassValues = PassValues(
    passw: seq<nat>, passh: seq<nat>, filterPassstart: seq<nat>, paddedPassstart: seq<nat>, passstart: seq<nat>)

  ghost predicate PassValuesOk(v: PassValues, w: nat, h: nat, bpp: nat) {
    && w > 0 && h > 0 && |v.passw| == |v.passh| == 7
    && |v.filterPassstart| == |v.paddedPassstart| == |v.passstart| == 8
    && (forall i :: 0 <= i < 7 ==> v.passw[i] == PassWidth(w, h, i) && v.passh[i] == PassHeight(w, h, i))
    && (forall i :: 0 <= i < 8 ==>
          && v.filterPassstart[i] == FilterStart(w, h, bpp, i)
          && v.paddedPassstart[i] == PaddedStart(w, h, bpp, i)
          && v.passstart[i] == PassStart(w, h, bpp, i))
  }

  method PassSizes(w: nat, h: nat) returns (passw: seq<nat>, passh: seq<nat>)
    requires w > 0 && h > 0
    ensures |passw| == |passh| == 7
    ensures forall i :: 0 <= i < 7 ==> passw[i] == PassWidth(w, h, i) && passh[i] == PassHeight(w, h, i)
  {
    hide RawWidth, RawHeight;
    passw, passh := [], [];
    for i := 0 to 7
      invariant |passw| == |passh| == i
      invariant forall k :: 0 <= k < i ==> passw[k] == PassWidth(w, h, k) && passh[k] == PassHeight(w, h, k)
    {
      var pw, ph := RawWidth(w, i), RawHeight(h, i);
      if pw == 0 {
        ph := 0;
      }
      if ph == 0 {
        pw := 0;
      }
      passw, passh := passw + [pw], passh + [ph];
    }
  }

  /** Sizes and positions of the reduced images. */
  method Adam7GetPassValues(w: nat, h: nat, bpp: nat) returns (v: PassValues)
    requires w > 0 && h > 0
    ensures PassValuesOk(v, w, h, bpp)
  {
    hide PassWidth, PassHeight, FilteredBytes, PaddedBytes, ImageBytes;
    var passw, passh := PassSizes(w, h);
    var filterPassstart, paddedPassstart, passstart: seq<nat> := [0], [0], [0];
    for i := 0 to 7
      invariant |filterPassstart| == |paddedPassstart| == |passstart| == i + 1
      invariant forall k :: 0 <= k <= i ==> filterPassstart[k] == FilterStart(w, h, bpp, k)
      invariant forall k :: 0 <= k <= i ==> paddedPassstart[k] == PaddedStart(w, h, bpp, k)
      invariant forall k :: 0 <= k <= i ==> passstart[k] == PassStart(w, h, bpp, k)
    {
      filterPassstart := filterPassstart + [filterPassstart[i] + FilteredBytes(passw[i], passh[i], bpp)];
      paddedPassstart := paddedPassstart + [paddedPassstart[i] + PaddedBytes(passw[i], passh[i], bpp)];
      passstart := passstart + [passstart[i] + ImageBytes(passw[i], passh[i], bpp)];
    }
    v := PassValues(passw, passh, filterPassstart, paddedPassstart, passstart);
  }

  // ----- the layouts in relation to one another

  /** Lines padded one by one take no less room than their bits together. */
  lemma PaddedIsLarger(a: nat, b: nat)
    ensures (a * b + 7) / 8 <= a * ((b + 7) / 8)
  {
    var c := (b + 7) / 8;
    MulMono(b, 8 * c, a);
    assert a * (8 * c) == 8 * (a * c);
  }

  /** The reduced images without padding lie before those with it, and these before those with filter types. */
  lemma {:induction false} StartsOrdered(w: nat, h: nat, bpp: nat, i: nat)
    requires i <= 7 && w > 0 && h > 0
    ensures PassStart(w, h, bpp, i) <= PaddedStart(w, h, bpp, i) <= FilterStart(w, h, bpp, i)
  {
    hide PassWidth, PassHeight, FilteredBytes, PaddedBytes, ImageBytes;
    if i > 0 {
      StartsOrdered(w, h, bpp, i - 1);
      EmptyPass(w, h, i - 1);
      SizesOrdered(PassWidth(w, h, i - 1), PassHeight(w, h, i - 1), bpp);
    }
  }

  lemma SizesOrdered(pw: nat, ph: nat, bpp: nat)
    requires pw == 0 <==> ph == 0
    ensures ImageBytes(pw, ph, bpp) <= PaddedBytes(pw, ph, bpp) <= FilteredBytes(pw, ph, bpp)
  {
    PaddedIsLarger(ph, pw * bpp);
    assert ph * pw * bpp == ph * (pw * bpp);
    MulMono(PaddedLineBytes(pw, bpp), 1 + PaddedLineBytes(pw, bpp), ph);
    if ph == 0 {
      assert 0 * PaddedLineBytes(pw, bpp) == 0;
    }
  }

  lemma EmptyPass(w: nat, h: nat, i: nat)
    requires i < 7 && w > 0 && h > 0
    ensures PassWidth(w, h, i) == 0 <==> PassHeight(w, h, i) == 0
  {
  }

  /** Where the bits of the reduced images begin. */
  function BitStarts(w: nat, h: nat, bpp: nat): (starts: seq<nat>)
    requires w > 0 && h > 0
    ensures |starts| == 8
  {
    seq(8, i requires 0 <= i < 8 => 8 * PassStart(w, h, bpp, i))
  }

  lemma BitStartsOk(w: nat, h: nat, bpp: nat)
    requires w > 0 && h > 0
    ensures StartsOk(BitStarts(w, h, bpp), w, h, bpp)
  {
    hide PassWidth, PassHeight;
    forall i | 0 <= i < 7
      ensures RoomFor(BitStarts(w, h, bpp), w, h, bpp, i)
    {
      var pw, ph := PassWidth(w, h, i), PassHeight(w, h, i);
      assert bpp * (pw * ph) == ph * pw * bpp;
    }
  }

  /** Where the bytes of the reduced images begin, for pixels of whole bytes. */
  function ByteStarts(w: nat, h: nat, bpp: nat): (starts: seq<nat>)
    requires w > 0 && h > 0
    ensures |starts| == 8
  {
    seq(8, i requires 0 <= i < 8 => PassStart(w, h, bpp, i))
  }

  lemma EightTimes(a: nat, b: nat, s: nat)
    ensures b * a * (8 * s) == 8 * (s * (a * b))
  {
    assert b * a == a * b;
    assert (a * b) * (8 * s) == 8 * ((a * b) * s);
  }

  lemma ByteStartsOk(w: nat, h: nat, s: nat)
    requires w > 0 && h > 0
    ensures StartsOk(ByteStarts(w, h, 8 * s), w, h, s)
  {
    hide PassWidth, PassHeight;
    forall i | 0 <= i < 7
      ensures RoomFor(ByteStarts(w, h, 8 * s), w, h, s, i)
    {
      EightTimes(PassWidth(w, h, i), PassHeight(w, h, i), s);
    }
  }

  /** What holds of bytes holds of their bits. */
  lemma BytesToBits(mid: seq<byte>, img: seq<byte>, w: nat, h: nat, s: nat)
    requires w > 0 && h > 0 && Interlaced(mid, img, ByteStarts(w, h, 8 * s), w, h, s)
    ensures Interlaced(ReversedBits(mid), ReversedBits(img), BitStarts(w, h, 8 * s), w, h, 8 * s)
  {
    hide PassOf, Column, Row, PassWidth, PassHeight, PassStart, ReversedBits;
    var starts, starts' := ByteStarts(w, h, 8 * s), BitStarts(w, h, 8 * s);
    forall x, y, c | 0 <= x < w && 0 <= y < h && 0 <= c < 8 * s
      ensures UnitMoved(ReversedBits(mid), ReversedBits(img), starts', w, h, 8 * s, x, y, c)
    {
      var b := c / 8;
      assert UnitMoved(mid, img, starts, w, h, s, x, y, b);
      BitOfUnit(PassWidth(w, h, PassOf(x, y)), s, Column(x, y), Row(x, y), c);
      BitOfUnit(w, s, x, y, c);
      BitOfByte(mid, Place(starts, w, h, s, x, y, b), c % 8);
      BitOfByte(img, At(w, s, x, y, b), c % 8);
    }
  }

  lemma BitOfUnit(w: nat, s: nat, x: nat, y: nat, c: nat)
    ensures At(w, 8 * s, x, y, c) == 8 * At(w, s, x, y, c / 8) + c % 8
  {
    var cell := w * y + x;
    assert 8 * s * cell == 8 * (s * cell);
  }

  lemma BitOfByte(data: seq<byte>, k: nat, d: nat)
    requires k < |data| && d < 8
    ensures 8 * k + d < 8 * |data| && ReversedBits(data)[8 * k + d] == Shr(data[k], 7 - d) % 2
  {
    assert (8 * k + d) / 8 == k && (8 * k + d) % 8 == d;
  }

  // ----- the loops

  /** Arguments of both directions: pixels of whole bytes, or less than a byte. */
  ghost predicate InterlaceArguments(mid: array<byte>, img: array<byte>, w: nat, h: nat, bpp: nat) {
    && mid != img && w > 0 && h > 0 && bpp > 0 && (bpp < 8 || bpp % 8 == 0)
    && PassStart(w, h, bpp, 7) <= mid.Length && Units(w, h, bpp) <= 8 * img.Length
  }

  /** The offset of a pixel, computed column by column and row by row. */
  lemma AtOffset(w: nat, s: nat, x: nat, y: nat, b: nat)
    ensures At(w, s, x, y, b) == (y * w + x) * s + b
    ensures At(w, s, x, y, b) == y * (s * w) + x * s + b
  {
  }

  lemma UnitsOfBytes(w: nat, h: nat, s: nat)
    ensures Units(w, h, 8 * s) == 8 * Units(w, h, s)
  {
    assert 8 * s * (w * h) == 8 * (s * (w * h));
  }

  /** Moves whole bytes into the reduced images. */
  method InterlaceBytes(out: array<byte>, input: array<byte>, w: nat, h: nat, bytewidth: nat, v: PassValues)
    requires InterlaceArguments(out, input, w, h, 8 * bytewidth) && PassValuesOk(v, w, h, 8 * bytewidth)
    modifies out
    ensures Interlaced(out[..], input[..], ByteStarts(w, h, 8 * bytewidth), w, h, bytewidth)
  {
    hide MovedUpTo, PassWidth, PassHeight, PassStart, Column, Row, PassOf, Place, At, IX, IY, DX, DY, StartsOk, Interlaced;
    ghost var starts := ByteStarts(w, h, 8 * bytewidth);
    ByteStartsOk(w, h, bytewidth);
    UnitsOfBytes(w, h, bytewidth);
    NothingMoved(out[..], input[..], starts, w, h, bytewidth);
    for i := 0 to 7
      invariant MovedUpTo(out[..], input[..], starts, w, h, bytewidth, i, 0, 0, 0)
    {
      Strides(i);
      for y := 0 to v.passh[i]
        invariant MovedUpTo(out[..], input[..], starts, w, h, bytewidth, i, y, 0, 0)
      {
        for x := 0 to v.passw[i]
          invariant MovedUpTo(out[..], input[..], starts, w, h, bytewidth, i, y, x, 0)
        {
          var pixelinstart := ((IY[i] + y * DY[i]) * w + IX[i] + x * DX[i]) * bytewidth;
          var pixeloutstart := v.passstart[i] + (y * v.passw[i] + x) * bytewidth;
          for b := 0 to bytewidth
            invariant MovedUpTo(out[..], input[..], starts, w, h, bytewidth, i, y, x, b)
          {
            ThisUnit(out[..], input[..], starts, w, h, bytewidth, i, y, x, b);
            AtOffset(v.passw[i], bytewidth, x, y, b);
            AtOffset(w, bytewidth, IX[i] + x * DX[i], IY[i] + y * DY[i], b);
            MoveIn(out[..], input[..], starts, w, h, bytewidth, i, y, x, b, IX[i] + x * DX[i], IY[i] + y * DY[i]);
            out[pixeloutstart + b] := input[pixelinstart + b];
          }
          NextPixel(out[..], input[..], starts, w, h, bytewidth, i, y, x);
        }
        NextRow(out[..], input[..], starts, w, h, bytewidth, i, y);
      }
      NextPass(out[..], input[..], starts, w, h, bytewidth, i);
    }
    EverythingMoved(out[..], input[..], starts, w, h, bytewidth);
  }

  /** Moves single bits into the reduced images. */
  method InterlaceBits(out: array<byte>, input: array<byte>, w: nat, h: nat, bpp: nat, v: PassValues)
    requires InterlaceArguments(out, input, w, h, bpp) && PassValuesOk(v, w, h, bpp)
    modifies out
    ensures Interlaced(ReversedBits(out[..]), ReversedBits(input[..]), BitStarts(w, h, bpp), w, h, bpp)
  {
    hide MovedUpTo, PassWidth, PassHeight, PassStart, Column, Row, PassOf, Place, At, IX, IY, DX, DY, StartsOk, Interlaced;
    hide ReversedBits;
    ghost var starts := BitStarts(w, h, bpp);
    BitStartsOk(w, h, bpp);
    NothingMoved(ReversedBits(out[..]), ReversedBits(input[..]), starts, w, h, bpp);
    for i := 0 to 7
      invariant MovedUpTo(ReversedBits(out[..]), ReversedBits(input[..]), starts, w, h, bpp, i, 0, 0, 0)
    {
      Strides(i);
      var ilinebits := bpp * v.passw[i];
      var olinebits := bpp * w;
      for y := 0 to v.passh[i]
        invariant MovedUpTo(ReversedBits(out[..]), ReversedBits(input[..]), starts, w, h, bpp, i, y, 0, 0)
      {
        for x := 0 to v.passw[i]
          invariant MovedUpTo(ReversedBits(out[..]), ReversedBits(input[..]), starts, w, h, bpp, i, y, x, 0)
        {
          var ibp := (IY[i] + y * DY[i]) * olinebits + (IX[i] + x * DX[i]) * bpp;
          var obp := (8 * v.passstart[i]) + (y * ilinebits + x * bpp);
          for b := 0 to bpp
            invariant ibp == (IY[i] + y * DY[i]) * olinebits + (IX[i] + x * DX[i]) * bpp + b
            invariant obp == (8 * v.passstart[i]) + (y * ilinebits + x * bpp) + b
            invariant MovedUpTo(ReversedBits(out[..]), ReversedBits(input[..]), starts, w, h, bpp, i, y, x, b)
          {
            ThisUnit(ReversedBits(out[..]), ReversedBits(input[..]), starts, w, h, bpp, i, y, x, b);
            AtOffset(v.passw[i], bpp, x, y, b);
            AtOffset(w, bpp, IX[i] + x * DX[i], IY[i] + y * DY[i], b);
            MoveIn(ReversedBits(out[..]), ReversedBits(input[..]), starts, w, h, bpp, i, y, x, b, IX[i] + x * DX[i], IY[i] + y * DY[i]);
            var theBit;
            theBit, ibp := ReadBitFromReversedStream(ibp, input);
            obp := SetBitOfReversedStream(obp, out, theBit);
          }
          NextPixel(ReversedBits(out[..]), ReversedBits(input[..]), starts, w, h, bpp, i, y, x);
        }
        NextRow(ReversedBits(out[..]), ReversedBits(input[..]), starts, w, h, bpp, i, y);
      }
      NextPass(ReversedBits(out[..]), ReversedBits(input[..]), starts, w, h, bpp, i);
    }
    EverythingMoved(ReversedBits(out[..]), ReversedBits(input[..]), starts, w, h, bpp);
  }

  /** Moves whole bytes out of the reduced images. */
  method DeinterlaceBytes(out: array<byte>, input: array<byte>, w: nat, h: nat, bytewidth: nat, v: PassValues)
    requires InterlaceArguments(input, out, w, h, 8 * bytewidth) && PassValuesOk(v, w, h, 8 * bytewidth)
    modifies out
    ensures Interlaced(input[..], out[..], ByteStarts(w, h, 8 * bytewidth), w, h, bytewidth)
  {
    hide MovedUpTo, PassWidth, PassHeight, PassStart, Column, Row, PassOf, Place, At, IX, IY, DX, DY, StartsOk, Interlaced;
    ghost var starts := ByteStarts(w, h, 8 * bytewidth);
    ByteStartsOk(w, h, bytewidth);
    UnitsOfBytes(w, h, bytewidth);
    NothingMoved(input[..], out[..], starts, w, h, bytewidth);
    for i := 0 to 7
      invariant MovedUpTo(input[..], out[..], starts, w, h, bytewidth, i, 0, 0, 0)
    {
      Strides(i);
      for y := 0 to v.passh[i]
        invariant MovedUpTo(input[..], out[..], starts, w, h, bytewidth, i, y, 0, 0)
      {
        for x := 0 to v.passw[i]
          invariant MovedUpTo(input[..], out[..], starts, w, h, bytewidth, i, y, x, 0)
        {
          var pixelinstart := v.passstart[i] + (y * v.passw[i] + x) * bytewidth;
          var pixeloutstart := ((IY[i] + y * DY[i]) * w + IX[i] + x * DX[i]) * bytewidth;
          for b := 0 to bytewidth
            invariant MovedUpTo(input[..], out[..], starts, w, h, bytewidth, i, y, x, b)
          {
            ThisUnit(input[..], out[..], starts, w, h, bytewidth, i, y, x, b);
            AtOffset(v.passw[i], bytewidth, x, y, b);
            AtOffset(w, bytewidth, IX[i] + x * DX[i], IY[i] + y * DY[i], b);
            MoveOut(input[..], out[..], starts, w, h, bytewidth, i, y, x, b, IX[i] + x * DX[i], IY[i] + y * DY[i]);
            out[pixeloutstart + b] := input[pixelinstart + b];
          }
          NextPixel(input[..], out[..], starts, w, h, bytewidth, i, y, x);
        }
        NextRow(input[..], out[..], starts, w, h, bytewidth, i, y);
      }
      NextPass(input[..], out[..], starts, w, h, bytewidth, i);
    }
    EverythingMoved(input[..], out[..], starts, w, h, bytewidth);
  }

  /** Moves single bits out of the reduced images. */
  method DeinterlaceBits(out: array<byte>, input: array<byte>, w: nat, h: nat, bpp: nat, v: PassValues)
    requires InterlaceArguments(input, out, w, h, bpp) && PassValuesOk(v, w, h, bpp)
    modifies out
    ensures Interlaced(ReversedBits(input[..]), ReversedBits(out[..]), BitStarts(w, h, bpp), w, h, bpp)
  {
    hide MovedUpTo, PassWidth, PassHeight, PassStart, Column, Row, PassOf, Place, At, IX, IY, DX, DY, StartsOk, Interlaced;
    hide ReversedBits;
    ghost var starts := BitStarts(w, h, bpp);
    BitStartsOk(w, h, bpp);
    NothingMoved(ReversedBits(input[..]), ReversedBits(out[..]), starts, w, h, bpp);
    for i := 0 to 7
      invariant MovedUpTo(ReversedBits(input[..]), ReversedBits(out[..]), starts, w, h, bpp, i, 0, 0, 0)
    {
      Strides(i);
      var ilinebits := bpp * v.passw[i];
      var olinebits := bpp * w;
      for y := 0 to v.passh[i]
        invariant MovedUpTo(ReversedBits(input[..]), ReversedBits(out[..]), starts, w, h, bpp, i, y, 0, 0)
      {
        for x := 0 to v.passw[i]
          invariant MovedUpTo(ReversedBits(input[..]), ReversedBits(out[..]), starts, w, h, bpp, i, y, x, 0)
        {
          var ibp := (8 * v.passstart[i]) + (y * ilinebits + x * bpp);
          var obp := (IY[i] + y * DY[i]) * olinebits + (IX[i] + x * DX[i]) * bpp;
          for b := 0 to bpp
            invariant ibp == (8 * v.passstart[i]) + (y * ilinebits + x * bpp) + b
            invariant obp == (IY[i] + y * DY[i]) * olinebits + (IX[i] + x * DX[i]) * bpp + b
            invariant MovedUpTo(ReversedBits(input[..]), ReversedBits(out[..]), starts, w, h, bpp, i, y, x, b)
          {
            ThisUnit(ReversedBits(input[..]), ReversedBits(out[..]), starts, w, h, bpp, i, y, x, b);
            AtOffset(v.passw[i], bpp, x, y, b);
            AtOffset(w, bpp, IX[i] + x * DX[i], IY[i] + y * DY[i], b);
            MoveOut(ReversedBits(input[..]), ReversedBits(out[..]), starts, w, h, bpp, i, y, x, b, IX[i] + x * DX[i], IY[i] + y * DY[i]);
            var theBit;
            theBit, ibp := ReadBitFromReversedStream(ibp, input);
            obp := SetBitOfReversedStream(obp, out, theBit);
          }
          NextPixel(ReversedBits(input[..]), ReversedBits(out[..]), starts, w, h, bpp, i, y, x);
        }
        NextRow(ReversedBits(input[..]), ReversedBits(out[..]), starts, w, h, bpp, i, y);
      }
      NextPass(ReversedBits(input[..]), ReversedBits(out[..]), starts, w, h, bpp, i);
    }
    EverythingMoved(ReversedBits(input[..]), ReversedBits(out[..]), starts, w, h, bpp);
  }

  /** Reorders an image into its reduced images. */
  method Adam7Interlace(out: array<byte>, input: array<byte>, w: nat, h: nat, bpp: nat)
    requires InterlaceArguments(out, input, w, h, bpp)
    modifies out
    ensures Interlaced(ReversedBits(out[..]), ReversedBits(input[..]), BitStarts(w, h, bpp), w, h, bpp)
  {
    hide PassValuesOk, Interlaced, PassStart, Units, ReversedBits;
    var v := Adam7GetPassValues(w, h, bpp);
    if bpp >= 8 {
      InterlaceBytes(out, input, w, h, bpp / 8, v);
      BytesToBits(out[..], input[..], w, h, bpp / 8);
    } else {
      InterlaceBits(out, input, w, h, bpp, v);
    }
  }

  /** Reorders reduced images into the image. */
  method Adam7Deinterlace(out: array<byte>, input: array<byte>, w: nat, h: nat, bpp: nat)
    requires InterlaceArguments(input, out, w, h, bpp)
    modifies out
    ensures Interlaced(ReversedBits(input[..]), ReversedBits(out[..]), BitStarts(w, h, bpp), w, h, bpp)
  {
    hide PassValuesOk, Interlaced, PassStart, Units, ReversedBits;
    var v := Adam7GetPassValues(w, h, bpp);
    if bpp >= 8 {
      DeinterlaceBytes(out, input, w, h, bpp / 8, v);
      BytesToBits(input[..], out[..], w, h, bpp / 8);
    } else {
      DeinterlaceBits(out, input, w, h, bpp, v);
    }
  }
}
