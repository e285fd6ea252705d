/**
  Conversion of images between colour modes of up to eight bits per channel.
 */
module ColorConversion {
  import opened Sequences
  import opened Bits
  import opened ColorTrees
  import opened ColorModes
  import opened ColorLayout
  import PaddingBits

  // ----- reading pixels

  /** The next bits, and the position after them. */
  method ReadBitsFromReversedStream(j: nat, data: seq<byte>, nbits: nat) returns (result: nat, next: nat)
    requires j + nbits <= 8 * |data|
    ensures result == ReadBits(data, j, nbits) && next == j + nbits
  {
    result, next := 0, j;
    for k := 0 to nbits
      invariant next == j + k && result == ReadBits(data, j, k)
    {
      result := 2 * result + PaddingBits.ReversedBit(data, next);
      next := next + 1;
    }
  }

  /** The colour of one pixel. */
  method GetPixelColorRGBA8(data: seq<byte>, i: nat, m: ColorMode) returns (px: Pixel)
    requires ModeOk(m) && Within(data, i, m)
    ensures px == PixelAt(data, i, m)
  {
    hide ReadBits, Grey;
    match m.kind {
      case GREY =>
        if m.bitdepth == 8 {
          var v := data[i];
          GreyOfByte(v);
          px := Pixel(v, v, v, if m.keyDefined && v == m.keyR then 0 else 255);
        } else {
          var value, j := ReadBitsFromReversedStream(m.bitdepth * i, data, m.bitdepth);
          HighestIs(m.bitdepth);
          var g := Grey(value, m.bitdepth);
          px := Pixel(g, g, g, if m.keyDefined && value == m.keyR then 0 else 255);
        }
      case RGB =>
        var r, g, b := data[3 * i], data[3 * i + 1], data[3 * i + 2];
        px := Pixel(r, g, b, if m.keyDefined && r == m.keyR && g == m.keyG && b == m.keyB then 0 else 255);
      case PALETTE =>
        var index;
        if m.bitdepth == 8 {
          index := data[i];
        } else {
          var j;
          index, j := ReadBitsFromReversedStream(m.bitdepth * i, data, m.bitdepth);
        }
        px := PaletteColor(m, index);
      case GREY_ALPHA => px := Pixel(data[2 * i], data[2 * i], data[2 * i], data[2 * i + 1]);
      case RGBA => px := Pixel(data[4 * i], data[4 * i + 1], data[4 * i + 2], data[4 * i + 3]);
    }
  }

  lemma GreyOfByte(v: byte)
    ensures Grey(v, 8) == v
  {
  }

  /** Pixel `k` of a buffer of four bytes per pixel. */
  predicate Copied(buffer: seq<byte>, k: nat, px: Pixel) {
    && 4 * k + 4 <= |buffer|
    && buffer[4 * k] == px.r && buffer[4 * k + 1] == px.g && buffer[4 * k + 2] == px.b && buffer[4 * k + 3] == px.a
  }

  ghost predicate CopiedUpTo(buffer: seq<byte>, n: nat, data: seq<byte>, m: ColorMode)
    requires ModeOk(m)
  {
    forall k :: 0 <= k < n ==> Within(data, k, m) && Copied(buffer, k, PixelAt(data, k, m))
  }

  method PutPixel(buffer: array<byte>, i: nat, px: Pixel)
    requires 4 * i + 4 <= buffer.Length
    modifies buffer
    ensures Copied(buffer[..], i, px)
    ensures forall k :: 0 <= k < buffer.Length && !(4 * i <= k < 4 * i + 4) ==> buffer[k] == old(buffer[k])
  {
    buffer[4 * i], buffer[4 * i + 1], buffer[4 * i + 2], buffer[4 * i + 3] := px.r, px.g, px.b, px.a;
  }

  lemma CopyMore(before: seq<byte>, after: seq<byte>, i: nat, data: seq<byte>, m: ColorMode)
    requires ModeOk(m) && CopiedUpTo(before, i, data, m) && Within(data, i, m)
    requires |after| == |before| && (forall k :: 0 <= k < 4 * i && k < |before| ==> after[k] == before[k])
    requires Copied(after, i, PixelAt(data, i, m))
    ensures CopiedUpTo(after, i + 1, data, m)
  {
    hide PixelAt, Within;
    forall k | 0 <= k < i + 1
      ensures Within(data, k, m) && Copied(after, k, PixelAt(data, k, m))
    {
      if k < i {
        assert Copied(before, k, PixelAt(data, k, m));
      }
    }
  }

  /** Reads all pixels of a grey image of eight bits: first as if all were opaque, then those with the key. */
  method GetGreyPixels(buffer: array<byte>, n: nat, data: seq<byte>, m: ColorMode)
    requires ModeOk(m) && m.kind.GREY? && m.bitdepth == 8 && buffer.Length >= 4 * n && |data| >= n
    modifies buffer
    ensures CopiedUpTo(buffer[..], n, data, m)
  {
    hide Grey;
    for i := 0 to n
      invariant forall k :: 0 <= k < i ==> Copied(buffer[..], k, Pixel(data[k], data[k], data[k], 255))
    {
      PutPixel(buffer, i, Pixel(data[i], data[i], data[i], 255));
    }
    if m.keyDefined {
      for i := 0 to n
        invariant forall k :: i <= k < n ==> Copied(buffer[..], k, Pixel(data[k], data[k], data[k], 255))
        invariant forall k :: 0 <= k < i ==>
                    Copied(buffer[..], k, Pixel(data[k], data[k], data[k], Opacity(data[k] == m.keyR)))
      {
        assert Copied(buffer[..], i, Pixel(data[i], data[i], data[i], 255));
        if buffer[4 * i] == m.keyR {
          buffer[4 * i + 3] := 0;
        }
      }
    }
    forall k | 0 <= k < n
      ensures Within(data, k, m) && Copied(buffer[..], k, PixelAt(data, k, m))
    {
      GreyOfByte(data[k]);
      assert PixelAt(data, k, m) == Pixel(data[k], data[k], data[k], Opacity(m.keyDefined && data[k] == m.keyR));
    }
  }

  /** The same for colours of eight bits per channel. */
  method GetRgbPixels(buffer: array<byte>, n: nat, data: seq<byte>, m: ColorMode)
    requires ModeOk(m) && m.kind.RGB? && buffer.Length >= 4 * n && |data| >= 3 * n
    modifies buffer
    ensures CopiedUpTo(buffer[..], n, data, m)
  {
    for i := 0 to n
      invariant forall k :: 0 <= k < i ==> Copied(buffer[..], k, Opaque(data, k))
    {
      PutPixel(buffer, i, Opaque(data, i));
    }
    if m.keyDefined {
      for i := 0 to n
        invariant forall k :: i <= k < n ==> Copied(buffer[..], k, Opaque(data, k))
        invariant forall k :: 0 <= k < i ==> Copied(buffer[..], k, Keyed(data, k, m))
      {
        assert Copied(buffer[..], i, Opaque(data, i));
        if buffer[4 * i] == m.keyR && buffer[4 * i + 1] == m.keyG && buffer[4 * i + 2] == m.keyB {
          buffer[4 * i + 3] := 0;
        }
      }
    }
    forall k | 0 <= k < n
      ensures Within(data, k, m) && Copied(buffer[..], k, PixelAt(data, k, m))
    {
      assert PixelAt(data, k, m) == if m.keyDefined then Keyed(data, k, m) else Opaque(data, k);
    }
  }

  function Opaque(data: seq<byte>, k: nat): Pixel
    requires 3 * k + 3 <= |data|
  {
    Pixel(data[3 * k], data[3 * k + 1], data[3 * k + 2], 255)
  }

  function Keyed(data: seq<byte>, k: nat, m: ColorMode): Pixel
    requires 3 * k + 3 <= |data|
  {
    var px := Opaque(data, k);
    px.(a := Opacity(px.r == m.keyR && px.g == m.keyG && px.b == m.keyB))
  }

  lemma EarlierWithin(data: seq<byte>, n: nat, m: ColorMode, k: nat)
    requires ModeOk(m) && Within(data, n, m) && k <= n
    ensures Within(data, k, m)
  {
  }

  /** Reads all pixels of less than a byte each, one bit after the other. */
  method GetSmallPixels(buffer: array<byte>, n: nat, data: seq<byte>, m: ColorMode)
    requires ModeOk(m) && m.bitdepth < 8 && buffer.Length >= 4 * n && (n > 0 ==> Within(data, n - 1, m))
    modifies buffer
    ensures CopiedUpTo(buffer[..], n, data, m)
  {
    hide Grey, ReadBits, CopiedUpTo;
    NothingCopied(buffer[..], data, m);
    var j := 0;
    for i := 0 to n
      invariant j == m.bitdepth * i && CopiedUpTo(buffer[..], i, data, m)
    {
      EarlierWithin(data, n - 1, m, i);
      ghost var before := buffer[..];
      var value;
      value, j := ReadBitsFromReversedStream(j, data, m.bitdepth);
      HighestIs(m.bitdepth);
      if m.kind.GREY? {
        var g := Grey(value, m.bitdepth);
        PutPixel(buffer, i, Pixel(g, g, g, if m.keyDefined && value == m.keyR then 0 else 255));
      } else {
        PutPixel(buffer, i, PaletteColor(m, value));
      }
      CopyMore(before, buffer[..], i, data, m);
    }
  }

  /** Reads all pixels of a palette with an index per byte, or with an alpha channel. */
  method GetWholePixels(buffer: array<byte>, n: nat, data: seq<byte>, m: ColorMode)
    requires ModeOk(m) && m.bitdepth == 8 && (m.kind.PALETTE? || m.kind.GREY_ALPHA? || m.kind.RGBA?)
    requires buffer.Length >= 4 * n && (n > 0 ==> Within(data, n - 1, m))
    modifies buffer
    ensures CopiedUpTo(buffer[..], n, data, m)
  {
    hide Grey, ReadBits, CopiedUpTo;
    NothingCopied(buffer[..], data, m);
    if m.kind.PALETTE? {
      for i := 0 to n
        invariant CopiedUpTo(buffer[..], i, data, m)
      {
        ghost var before := buffer[..];
        PutPixel(buffer, i, PaletteColor(m, data[i]));
        CopyMore(before, buffer[..], i, data, m);
      }
    } else if m.kind.GREY_ALPHA? {
      for i := 0 to n
        invariant CopiedUpTo(buffer[..], i, data, m)
      {
        ghost var before := buffer[..];
        PutPixel(buffer, i, Pixel(data[2 * i], data[2 * i], data[2 * i], data[2 * i + 1]));
        CopyMore(before, buffer[..], i, data, m);
      }
    } else {
      for i := 0 to n
        invariant CopiedUpTo(buffer[..], i, data, m)
      {
        ghost var before := buffer[..];
        PutPixel(buffer, i, Pixel(data[4 * i], data[4 * i + 1], data[4 * i + 2], data[4 * i + 3]));
        CopyMore(before, buffer[..], i, data, m);
      }
    }
  }

  /** Reads all pixels, with the loops inside of the tests of the mode. */
  method GetPixelColorsRGBA8(buffer: array<byte>, n: nat, data: seq<byte>, m: ColorMode)
    requires ModeOk(m) && buffer.Length >= 4 * n && (n > 0 ==> Within(data, n - 1, m))
    modifies buffer
    ensures CopiedUpTo(buffer[..], n, data, m)
  {
    hide CopiedUpTo;
    if m.kind.GREY? && m.bitdepth == 8 {
      GetGreyPixels(buffer, n, data, m);
    } else if m.kind.RGB? {
      GetRgbPixels(buffer, n, data, m);
    } else if m.bitdepth < 8 {
      GetSmallPixels(buffer, n, data, m);
    } else {
      GetWholePixels(buffer, n, data, m);
    }
  }

  lemma NothingCopied(buffer: seq<byte>, data: seq<byte>, m: ColorMode)
    requires ModeOk(m)
    ensures CopiedUpTo(buffer, 0, data, m)
  {
  }

  /** Three bytes per pixel: the colours without their opacity. */
  ghost predicate ColorsUpTo(buffer: seq<byte>, n: nat, data: seq<byte>, m: ColorMode)
    requires ModeOk(m)
  {
    forall k :: 0 <= k < n ==> Within(data, k, m) && Colored(buffer, k, PixelAt(data, k, m))
  }

  predicate Colored(buffer: seq<byte>, k: nat, px: Pixel) {
    3 * k + 3 <= |buffer| && buffer[3 * k] == px.r && buffer[3 * k + 1] == px.g && buffer[3 * k + 2] == px.b
  }

  /** Reads the colours of all pixels; the tests of the mode are inside of the loop here. */
  method GetPixelColorsRGB8(buffer: array<byte>, n: nat, data: seq<byte>, m: ColorMode)
    requires ModeOk(m) && buffer.Length >= 3 * n && (n > 0 ==> Within(data, n - 1, m))
    modifies buffer
    ensures ColorsUpTo(buffer[..], n, data, m)
  {
    hide PixelAt;
    for i := 0 to n
      invariant ColorsUpTo(buffer[..], i, data, m)
    {
      EarlierWithin(data, n - 1, m, i);
      ghost var before := buffer[..];
      var px := GetPixelColorRGBA8(data, i, m);
      buffer[3 * i], buffer[3 * i + 1], buffer[3 * i + 2] := px.r, px.g, px.b;
      forall k | 0 <= k < i + 1
        ensures Within(data, k, m) && Colored(buffer[..], k, PixelAt(data, k, m))
      {
        if k < i {
          assert Colored(before, k, PixelAt(data, k, m));
        }
      }
    }
  }

  // ----- writing pixels

  /** `out` with these samples as pixel `i`. */
  function Stored(out: seq<byte>, i: nat, m: ColorMode, s: seq<nat>): (r: seq<byte>)
    requires ModeOk(m) && Within(out, i, m) && SamplesOk(m, s)
    requires m.bitdepth < 8 ==> ClearFrom(out, i, m.bitdepth)
    ensures |r| == |out|
  {
    if m.bitdepth < 8 then
      GroupPlace(i, m.bitdepth);
      WithGroup(out, i, m.bitdepth, s[0])
    else Overwritten(out, Channels(m.kind) * i, Bytes(s))
  }

  function Bytes(s: seq<nat>): (r: seq<byte>)
    requires forall k :: 0 <= k < |s| ==> s[k] <= 255
    ensures |r| == |s| && forall k :: 0 <= k < |s| ==> r[k] == s[k]
  {
    seq(|s|, k requires 0 <= k < |s| => s[k])
  }

  lemma LowOfSample(v: nat, d: nat)
    requires (d == 1 || d == 2 || d == 4) && v <= Highest(d)
    ensures Low(v, d) == v
  {
    HighestIs(d);
    LowSmall(v, d);
  }

  /** What is stored is read back, and the pixels before it are left alone. */
  lemma StoredReads(out: seq<byte>, i: nat, m: ColorMode, s: seq<nat>, k: nat)
    requires ModeOk(m) && Within(out, i, m) && SamplesOk(m, s) && k <= i
    requires m.bitdepth < 8 ==> ClearFrom(out, i, m.bitdepth)
    ensures Within(out, k, m)
    ensures SamplesAt(Stored(out, i, m, s), k, m) == if k == i then s else SamplesAt(out, k, m)
  {
    hide ReadBits, WithGroup, ClearFrom, Low;
    EarlierWithin(out, i, m, k);
    if m.bitdepth < 8 {
      GroupPlace(i, m.bitdepth);
      WithGroupReads(out, i, m.bitdepth, s[0], k);
      LowOfSample(s[0], m.bitdepth);
      assert s == [s[0]];
    } else {
      WholeSamples(out, i, m, s, k);
    }
  }

  lemma WholeSamples(out: seq<byte>, i: nat, m: ColorMode, s: seq<nat>, k: nat)
    requires ModeOk(m) && m.bitdepth == 8 && Within(out, i, m) && SamplesOk(m, s) && k <= i && Within(out, k, m)
    ensures SamplesAt(Overwritten(out, Channels(m.kind) * i, Bytes(s)), k, m) == if k == i then s else SamplesAt(out, k, m)
  {
    hide ReadBits;
  }

  lemma StoredClear(out: seq<byte>, i: nat, m: ColorMode, s: seq<nat>)
    requires ModeOk(m) && Within(out, i, m) && SamplesOk(m, s) && m.bitdepth < 8 && ClearFrom(out, i, m.bitdepth)
    ensures ClearFrom(Stored(out, i, m, s), i + 1, m.bitdepth)
  {
    hide WithGroup, ClearFrom;
    GroupPlace(i, m.bitdepth);
    WithGroupClear(out, i, m.bitdepth, s[0]);
  }

  /** Adds a value of 1, 2 or 4 bits to a byte; the first of a byte also clears the rest of it. */
  method AddColorBits(out: array<byte>, index: nat, bits: nat, value: nat)
    requires (bits == 1 || bits == 2 || bits == 4) && index * bits / 8 < out.Length && ClearFrom(out[..], index, bits)
    modifies out
    ensures out[..] == WithGroup(old(out[..]), index, bits, value)
  {
    hide Low, Shl, Or, ClearFrom;
    var m := if bits == 1 then 7 else if bits == 2 then 3 else 1;
    var p := index % (m + 1);
    GroupPlace(index, bits);
    GroupByte(out[..], index, bits, value);
    var v := Shl(Low(value, bits), bits * (m - p));
    if p == 0 {
      out[index * bits / 8] := v;
    } else {
      out[index * bits / 8] := Or(out[index * bits / 8], v);
    }
  }

  const COLOR_NOT_IN_PALETTE: nat := 82
  const PALETTE_REQUIRED: nat := 107

  /** The pixel can be put: it has an index if the mode needs one. */
  predicate Puttable(m: ColorMode, tree: ColorTree, px: Pixel)
    requires TreeOk(tree)
  {
    m.kind.PALETTE? ==> 0 <= Get(tree, px, 0)
  }

  function PutSamples(m: ColorMode, tree: ColorTree, px: Pixel): seq<nat>
    requires ModeOk(m) && TreeOk(tree) && Puttable(m, tree, px)
  {
    Samples(m, px, if m.kind.PALETTE? then Get(tree, px, 0) else 0)
  }

  lemma SamplesFit(m: ColorMode, px: Pixel, index: nat)
    requires ModeOk(m) && index <= Highest(m.bitdepth)
    ensures SamplesOk(m, Samples(m, px, index))
  {
    hide Shr, Low;
    if m.kind.GREY? && m.bitdepth < 8 {
      HighestIs(m.bitdepth);
      SplitAt(Shr(px.r, 8 - m.bitdepth), m.bitdepth);
    }
  }

  /** A buffer that differs from another in one part is the other with that part written. */
  lemma IsOverwritten(before: seq<byte>, after: seq<byte>, at: nat, part: seq<byte>)
    requires |after| == |before| && at + |part| <= |before|
    requires forall k :: 0 <= k < |part| ==> after[at + k] == part[k]
    requires forall k :: 0 <= k < |before| && !(at <= k < at + |part|) ==> after[k] == before[k]
    ensures after == Overwritten(before, at, part)
  {
    assert after[at..at + |part|] == part;
  }

  /** Puts a pixel whose samples are whole bytes. */
  method PutBytes(out: array<byte>, i: nat, m: ColorMode, px: Pixel, index: byte)
    requires ModeOk(m) && m.bitdepth == 8 && Within(out[..], i, m)
    modifies out
    ensures SamplesOk(m, Samples(m, px, index))
    ensures out[..] == Overwritten(old(out[..]), Channels(m.kind) * i, Bytes(Samples(m, px, index)))
  {
    hide Overwritten, Bytes, Samples, SamplesOk, Shr, Low;
    match m.kind {
      case GREY => out[i] := px.r;
      case RGB => out[3 * i], out[3 * i + 1], out[3 * i + 2] := px.r, px.g, px.b;
      case PALETTE => out[i] := index;
      case GREY_ALPHA => out[2 * i], out[2 * i + 1] := px.r, px.a;
      case RGBA => out[4 * i], out[4 * i + 1], out[4 * i + 2], out[4 * i + 3] := px.r, px.g, px.b, px.a;
    }
    BytesAre(m, px, index);
    IsOverwritten(old(out[..]), out[..], Channels(m.kind) * i, Bytes(Samples(m, px, index)));
  }

  lemma BytesAre(m: ColorMode, px: Pixel, index: byte)
    requires ModeOk(m) && m.bitdepth == 8
    ensures SamplesOk(m, Samples(m, px, index))
    ensures Bytes(Samples(m, px, index))
         == match m.kind
            case GREY => [px.r]
            case RGB => [px.r, px.g, px.b]
            case PALETTE => [index]
            case GREY_ALPHA => [px.r, px.a]
            case RGBA => [px.r, px.g, px.b, px.a]
  {
    hide Shr, Low;
  }

  /** Puts a pixel into an image of any mode. */
  method Rgba8ToPixel(out: array<byte>, i: nat, m: ColorMode, tree: ColorTree, px: Pixel) returns (error: nat)
    requires ModeOk(m) && Within(out[..], i, m) && (m.bitdepth < 8 ==> ClearFrom(out[..], i, m.bitdepth)) && TreeOk(tree)
    requires m.kind.PALETTE? ==> Get(tree, px, 0) <= Highest(m.bitdepth)
    modifies out
    ensures !Puttable(m, tree, px) ==> error == COLOR_NOT_IN_PALETTE
    ensures Puttable(m, tree, px) ==>
              && error == 0 && SamplesOk(m, PutSamples(m, tree, px))
              && out[..] == Stored(old(out[..]), i, m, PutSamples(m, tree, px))
  {
    hide Get, WithGroup, ClearFrom, Shr, Low, Overwritten, Bytes;
    error := 0;
    if m.kind.PALETTE? && Get(tree, px, 0) < 0 {
      return COLOR_NOT_IN_PALETTE;
    }
    SamplesFit(m, px, if m.kind.PALETTE? then Get(tree, px, 0) else 0);
    if m.bitdepth < 8 {
      GroupPlace(i, m.bitdepth);
      if m.kind.GREY? {
        AddColorBits(out, i, m.bitdepth, Low(Shr(px.r, 8 - m.bitdepth), m.bitdepth));
      } else {
        AddColorBits(out, i, m.bitdepth, Get(tree, px, 0));
      }
    } else {
      PutBytes(out, i, m, px, if m.kind.PALETTE? then Get(tree, px, 0) else 0);
    }
  }

  // ----- converting an image

  /** Pixel `k` of the output has the samples of pixel `k` of the input. */
  ghost predicate ConvertedAt(out: seq<byte>, mOut: ColorMode, data: seq<byte>, mIn: ColorMode, tree: ColorTree, k: nat)
    requires ModeOk(mOut) && ModeOk(mIn) && TreeOk(tree)
  {
    && Within(out, k, mOut) && Within(data, k, mIn) && Puttable(mOut, tree, PixelAt(data, k, mIn))
    && SamplesAt(out, k, mOut) == PutSamples(mOut, tree, PixelAt(data, k, mIn))
  }

  ghost predicate ConvertedUpTo(out: seq<byte>, mOut: ColorMode, data: seq<byte>, mIn: ColorMode, tree: ColorTree, n: nat)
    requires ModeOk(mOut) && ModeOk(mIn) && TreeOk(tree)
  {
    && (mOut.bitdepth < 8 ==> ClearFrom(out, n, mOut.bitdepth))
    && forall k :: 0 <= k < n ==> ConvertedAt(out, mOut, data, mIn, tree, k)
  }

  lemma NoneConverted(out: seq<byte>, mOut: ColorMode, data: seq<byte>, mIn: ColorMode, tree: ColorTree)
    requires ModeOk(mOut) && ModeOk(mIn) && TreeOk(tree)
    ensures ConvertedUpTo(out, mOut, data, mIn, tree, 0)
  {
  }

  lemma ConvertMore(out: seq<byte>, mOut: ColorMode, data: seq<byte>, mIn: ColorMode, tree: ColorTree, n: nat)
    requires ModeOk(mOut) && ModeOk(mIn) && TreeOk(tree) && ConvertedUpTo(out, mOut, data, mIn, tree, n)
    requires Within(out, n, mOut) && Within(data, n, mIn) && Puttable(mOut, tree, PixelAt(data, n, mIn))
    requires SamplesOk(mOut, PutSamples(mOut, tree, PixelAt(data, n, mIn)))
    ensures var s := PutSamples(mOut, tree, PixelAt(data, n, mIn));
            ConvertedUpTo(Stored(out, n, mOut, s), mOut, data, mIn, tree, n + 1)
  {
    hide Stored, SamplesAt, PixelAt, PutSamples, ClearFrom, SamplesOk, Get;
    var s := PutSamples(mOut, tree, PixelAt(data, n, mIn));
    if mOut.bitdepth < 8 {
      StoredClear(out, n, mOut, s);
    }
    var next := n + 1;
    forall k | 0 <= k < next
      ensures ConvertedAt(Stored(out, n, mOut, s), mOut, data, mIn, tree, k)
    {
      StoredReads(out, n, mOut, s, k);
      StillWithin(out, Stored(out, n, mOut, s), k, mOut);
      if k < n {
        assert ConvertedAt(out, mOut, data, mIn, tree, k);
      }
    }
  }

  lemma StillWithin(out: seq<byte>, out': seq<byte>, k: nat, m: ColorMode)
    requires ModeOk(m) && Within(out, k, m) && |out'| == |out|
    ensures Within(out', k, m)
  {
  }

  lemma ClearNow(out: seq<byte>, mOut: ColorMode, data: seq<byte>, mIn: ColorMode, tree: ColorTree, n: nat)
    requires ModeOk(mOut) && ModeOk(mIn) && TreeOk(tree) && ConvertedUpTo(out, mOut, data, mIn, tree, n)
    ensures mOut.bitdepth < 8 ==> ClearFrom(out, n, mOut.bitdepth)
  {
  }

  /** The loop over the pixels: it ends early at a colour that the palette does not have. */
  method ConvertPixels(out: array<byte>, data: seq<byte>, mOut: ColorMode, mIn: ColorMode, tree: ColorTree, n: nat)
    returns (error: nat)
    requires ModeOk(mOut) && ModeOk(mIn) && TreeOk(tree)
    requires n > 0 ==> Within(out[..], n - 1, mOut) && Within(data, n - 1, mIn)
    requires mOut.kind.PALETTE? ==> forall c: Pixel :: Get(tree, c, 0) <= Highest(mOut.bitdepth)
    modifies out
    ensures error == 0 || error == COLOR_NOT_IN_PALETTE
    ensures error == 0 ==> ConvertedUpTo(out[..], mOut, data, mIn, tree, n)
    ensures error != 0 ==> exists k :: 0 <= k < n && Within(data, k, mIn) && !Puttable(mOut, tree, PixelAt(data, k, mIn))
  {
    hide Stored, PixelAt, PutSamples, ClearFrom, Get, ConvertedUpTo, SamplesOk, Within;
    error := 0;
    ghost var room := out[..];
    NoneConverted(out[..], mOut, data, mIn, tree);
    for i := 0 to n
      invariant error == 0 && ConvertedUpTo(out[..], mOut, data, mIn, tree, i)
    {
      EarlierWithin(data, n - 1, mIn, i);
      EarlierWithin(room, n - 1, mOut, i);
      StillWithin(room, out[..], i, mOut);
      ClearNow(out[..], mOut, data, mIn, tree, i);
      ghost var before := out[..];
      var px := GetPixelColorRGBA8(data, i, mIn);
      error := Rgba8ToPixel(out, i, mOut, tree, px);
      if error != 0 {
        return;
      }
      ConvertMore(before, mOut, data, mIn, tree, i);
    }
  }

  // ----- the conversion of a whole image

  /** Modes that store every pixel alike. */
  predicate SameMode(a: ColorMode, b: ColorMode) {
    && a.kind == b.kind && a.bitdepth == b.bitdepth && a.keyDefined == b.keyDefined
    && (a.keyDefined ==> a.keyR == b.keyR && a.keyG == b.keyG && a.keyB == b.keyB)
    && a.palette == b.palette
  }

  /** The image is copied: the modes are the same, or both use the palette of the input. */
  predicate IsCopy(mOut: ColorMode, mIn: ColorMode) {
    SameMode(mOut, mIn) || (mOut.kind.PALETTE? && mOut.palette == [] && mIn.kind.PALETTE? && mIn.bitdepth == mOut.bitdepth)
  }

  /** The colours that an index can stand for. */
  function TargetPalette(mOut: ColorMode, mIn: ColorMode): (p: seq<Pixel>) {
    var palette := if mOut.palette == [] then mIn.palette else mOut.palette;
    if |palette| < Pow2(mOut.bitdepth) then palette else palette[..Pow2(mOut.bitdepth)]
  }

  /** Pixel `k` has the samples of this colour. */
  ghost predicate PixelStored(out: seq<byte>, k: nat, m: ColorMode, px: Pixel, palette: seq<Pixel>)
    requires ModeOk(m)
  {
    && Within(out, k, m)
    && exists index: nat :: IndexFits(m, px, palette, index) && SamplesAt(out, k, m) == Samples(m, px, index)
  }

  predicate IndexFits(m: ColorMode, px: Pixel, palette: seq<Pixel>, index: nat) {
    m.kind.PALETTE? ==> index < |palette| && palette[index] == px
  }

  lemma WholeSize(n: nat, m: ColorMode)
    requires m.bitdepth == 8
    ensures RawSize(n, m) == Channels(m.kind) * n
  {
    var q, r := n / 8, n % 8;
    assert n == 8 * q + r;
    match m.kind
    case GREY | PALETTE => assert q * 8 + (r * 8 + 7) / 8 == n;
    case GREY_ALPHA => assert q * 16 + (r * 16 + 7) / 8 == 2 * n;
    case RGB => assert q * 24 + (r * 24 + 7) / 8 == 3 * n;
    case RGBA => assert q * 32 + (r * 32 + 7) / 8 == 4 * n;
  }

  lemma SmallSize(n: nat, m: ColorMode)
    requires ModeOk(m) && m.bitdepth < 8
    ensures m.bitdepth * n <= 8 * RawSize(n, m)
  {
    var q, r := n / 8, n % 8;
    assert n == 8 * q + r;
    match m.bitdepth
    case 1 => assert RawSize(n, m) == q + (r + 7) / 8;
    case 2 => assert RawSize(n, m) == q * 2 + (r * 2 + 7) / 8;
    case _ => assert RawSize(n, m) == q * 4 + (r * 4 + 7) / 8;
  }

  lemma RoomFor(size: nat, n: nat, m: ColorMode, data: seq<byte>)
    requires ModeOk(m) && size == RawSize(n, m) && |data| >= size && n > 0
    ensures Within(data, n - 1, m)
  {
    hide RawSize;
    if m.bitdepth == 8 {
      WholeSize(n, m);
      assert Channels(m.kind) * (n - 1) + Channels(m.kind) == Channels(m.kind) * n;
    } else {
      SmallSize(n, m);
      assert m.bitdepth * (n - 1) + m.bitdepth == m.bitdepth * n;
    }
  }

  /** Builds the tree of the colours of a palette. */
  method BuildTree(palette: seq<Pixel>) returns (tree: ColorTree)
    ensures TreeOk(tree) && Indexes(tree, palette, |palette|)
  {
    hide Add;
    EmptyIndexes(palette);
    tree := EMPTY_NODE;
    for i := 0 to |palette|
      invariant Indexes(tree, palette, i)
    {
      AddIndexes(tree, palette, i, palette[i]);
      tree := Add(tree, palette[i], 0, i);
    }
  }

  method CopyBytes(out: array<byte>, data: seq<byte>, n: nat)
    requires n <= out.Length && n <= |data|
    modifies out
    ensures out[..n] == data[..n]
  {
    for k := 0 to n
      invariant out[..k] == data[..k]
    {
      out[k] := data[k];
    }
  }

  ghost predicate AllStored(out: seq<byte>, n: nat, mOut: ColorMode, data: seq<byte>, mIn: ColorMode)
    requires ModeOk(mOut) && ModeOk(mIn)
  {
    forall k :: 0 <= k < n ==>
      Within(data, k, mIn) && PixelStored(out, k, mOut, PixelAt(data, k, mIn), TargetPalette(mOut, mIn))
  }

  /** Some pixel has a colour that the palette does not have. */
  ghost predicate Unavailable(n: nat, mOut: ColorMode, data: seq<byte>, mIn: ColorMode)
    requires ModeOk(mIn)
  {
    mOut.kind.PALETTE? &&
    exists k :: 0 <= k < n && Within(data, k, mIn) && PixelAt(data, k, mIn) !in TargetPalette(mOut, mIn)
  }

  lemma IndexInPalette(tree: ColorTree, palette: seq<Pixel>, c: Pixel)
    requires Indexes(tree, palette, |palette|)
    ensures var i := Get(tree, c, 0); i < |palette| && (i >= 0 <==> c in palette) && (i >= 0 ==> palette[i] == c)
  {
    hide Get;
    assert IndexRight(tree, palette, |palette|, c);
    assert palette[..|palette|] == palette;
  }

  lemma PutIsStored(out: seq<byte>, mOut: ColorMode, data: seq<byte>, mIn: ColorMode, tree: ColorTree, n: nat)
    requires ModeOk(mOut) && ModeOk(mIn) && TreeOk(tree) && ConvertedUpTo(out, mOut, data, mIn, tree, n)
    requires mOut.kind.PALETTE? ==> Indexes(tree, TargetPalette(mOut, mIn), |TargetPalette(mOut, mIn)|)
    ensures AllStored(out, n, mOut, data, mIn) && !Unavailable(n, mOut, data, mIn)
  {
    hide SamplesAt, PixelAt, Samples, ClearFrom, Get, TargetPalette, Indexes, Within;
    var palette := TargetPalette(mOut, mIn);
    forall k | 0 <= k < n
      ensures Within(data, k, mIn) && PixelStored(out, k, mOut, PixelAt(data, k, mIn), palette)
      ensures mOut.kind.PALETTE? ==> PixelAt(data, k, mIn) in palette
    {
      assert ConvertedAt(out, mOut, data, mIn, tree, k);
      var px := PixelAt(data, k, mIn);
      var index: nat := if mOut.kind.PALETTE? then Get(tree, px, 0) else 0;
      if mOut.kind.PALETTE? {
        IndexInPalette(tree, palette, px);
      }
      assert IndexFits(mOut, px, palette, index);
    }
  }

  lemma CopiedIsStored(out: seq<byte>, n: nat, mOut: ColorMode, data: seq<byte>, mIn: ColorMode)
    requires ModeOk(mOut) && ModeOk(mIn) && mOut.kind.RGBA? && CopiedUpTo(out, n, data, mIn)
    ensures AllStored(out, n, mOut, data, mIn)
  {
    hide PixelAt;
    forall k | 0 <= k < n
      ensures Within(data, k, mIn) && PixelStored(out, k, mOut, PixelAt(data, k, mIn), TargetPalette(mOut, mIn))
    {
      assert Copied(out, k, PixelAt(data, k, mIn));
      assert IndexFits(mOut, PixelAt(data, k, mIn), TargetPalette(mOut, mIn), 0);
    }
  }

  lemma ColoredIsStored(out: seq<byte>, n: nat, mOut: ColorMode, data: seq<byte>, mIn: ColorMode)
    requires ModeOk(mOut) && ModeOk(mIn) && mOut.kind.RGB? && ColorsUpTo(out, n, data, mIn)
    ensures AllStored(out, n, mOut, data, mIn)
  {
    hide PixelAt;
    forall k | 0 <= k < n
      ensures Within(data, k, mIn) && PixelStored(out, k, mOut, PixelAt(data, k, mIn), TargetPalette(mOut, mIn))
    {
      assert Colored(out, k, PixelAt(data, k, mIn));
      assert IndexFits(mOut, PixelAt(data, k, mIn), TargetPalette(mOut, mIn), 0);
    }
  }

  /**
    Converts an image of w times h pixels. The modes being different, every pixel of the output has the samples of its
    colour, or the error is that the palette of the output lacks a colour.
   */
  method Convert(out: array<byte>, data: seq<byte>, mOut: ColorMode, mIn: ColorMode, w: nat, h: nat) returns (error: nat)
    requires ModeOk(mOut) && ModeOk(mIn)
    requires |data| >= RawSize(w * h, mIn) && out.Length >= RawSize(w * h, mOut)
    modifies out
    ensures if mIn.kind.PALETTE? && mIn.palette == [] then error == PALETTE_REQUIRED
            else if IsCopy(mOut, mIn) then
              error == 0 && RawSize(w * h, mOut) == RawSize(w * h, mIn)
              && out[..RawSize(w * h, mIn)] == data[..RawSize(w * h, mIn)]
            else if Unavailable(w * h, mOut, data, mIn) then error == COLOR_NOT_IN_PALETTE
            else error == 0 && AllStored(out[..], w * h, mOut, data, mIn) && AllCarried(out[..], w * h, mOut, data, mIn)
  {
    hide AllCarried, LaidOut, StoredAs;
    hide Indexes, Get, AllStored, Unavailable, PixelAt, CopiedUpTo, ColorsUpTo, ConvertedUpTo, Add, TargetPalette;
    hide RawSize, TreeOk, IsCopy, Within;
    var n := w * h;
    if mIn.kind.PALETTE? && mIn.palette == [] {
      return PALETTE_REQUIRED;
    }
    if IsCopy(mOut, mIn) {
      CopySize(n, mOut, mIn);
      CopyBytes(out, data, RawSize(n, mIn));
      return 0;
    }
    var tree := EMPTY_NODE;
    EmptyGet(Pixel(0, 0, 0, 0), 0);
    Sizes(n, mOut, mIn, out.Length);
    if mOut.kind.PALETTE? {
      tree := BuildTree(TargetPalette(mOut, mIn));
    }
    if n > 0 {
      RoomFor(RawSize(n, mIn), n, mIn, data);
      RoomFor(RawSize(n, mOut), n, mOut, out[..]);
    }
    if mOut.kind.RGBA? {
      GetPixelColorsRGBA8(out, n, data, mIn);
      CopiedIsStored(out[..], n, mOut, data, mIn);
      error := 0;
    } else if mOut.kind.RGB? {
      GetPixelColorsRGB8(out, n, data, mIn);
      ColoredIsStored(out[..], n, mOut, data, mIn);
      error := 0;
    } else {
      IndexesFit(mOut, mIn, tree);
      error := ConvertPixels(out, data, mOut, mIn, tree, n);
      if error == 0 {
        PutIsStored(out[..], mOut, data, mIn, tree, n);
      } else {
        NotPut(mOut, data, mIn, tree, n);
      }
    }
    if error == 0 {
      StoredIsCarried(out[..], n, mOut, data, mIn);
    }
    OnlyPalettes(n, mOut, data, mIn);
  }

  /** The channels of pixel `k` have gone from where the one mode has them to where the other one does. */
  ghost predicate Carried(out: seq<byte>, k: nat, mOut: ColorMode, data: seq<byte>, mIn: ColorMode) {
    exists px :: LaidOut(px, data, k, mIn) && StoredAs(out, k, mOut, px, TargetPalette(mOut, mIn))
  }

  ghost predicate AllCarried(out: seq<byte>, n: nat, mOut: ColorMode, data: seq<byte>, mIn: ColorMode) {
    forall k :: 0 <= k < n ==> Carried(out, k, mOut, data, mIn)
  }

  lemma StoredIsCarried(out: seq<byte>, n: nat, mOut: ColorMode, data: seq<byte>, mIn: ColorMode)
    requires ModeOk(mOut) && ModeOk(mIn) && AllStored(out, n, mOut, data, mIn)
    ensures AllCarried(out, n, mOut, data, mIn)
  {
    hide SamplesAt, PixelAt, Samples, TargetPalette, Within, LaidOut, StoredAs;
    forall k | 0 <= k < n
      ensures Carried(out, k, mOut, data, mIn)
    {
      var px, palette := PixelAt(data, k, mIn), TargetPalette(mOut, mIn);
      assert PixelStored(out, k, mOut, px, palette);
      var index: nat :| IndexFits(mOut, px, palette, index) && SamplesAt(out, k, mOut) == Samples(mOut, px, index);
      PixelLayout(data, k, mIn);
      StoredLayout(out, k, mOut, px, index, palette);
    }
  }

  /** An RGB image made from RGBA: of every pixel the first three bytes, in their order. */
  lemma RgbFromRgba(out: seq<byte>, n: nat, mOut: ColorMode, data: seq<byte>)
    requires mOut.kind.RGB? && AllCarried(out, n, mOut, data, RGBA8)
    ensures forall k :: 0 <= k < n ==>
              3 * k + 3 <= |out| && 4 * k + 4 <= |data| && out[3 * k..3 * k + 3] == data[4 * k..4 * k + 3]
  {
    hide TargetPalette;
    forall k | 0 <= k < n
      ensures 3 * k + 3 <= |out| && 4 * k + 4 <= |data| && out[3 * k..3 * k + 3] == data[4 * k..4 * k + 3]
    {
      assert Carried(out, k, mOut, data, RGBA8);
      var px :| LaidOut(px, data, k, RGBA8) && StoredAs(out, k, mOut, px, TargetPalette(mOut, RGBA8));
      assert data[4 * k..4 * k + 3] == data[4 * k..4 * k + 4][..3] == [px.r, px.g, px.b];
    }
  }

  lemma CopySize(n: nat, mOut: ColorMode, mIn: ColorMode)
    requires IsCopy(mOut, mIn)
    ensures RawSize(n, mOut) == RawSize(n, mIn)
  {
  }

  /** Room for the colours as bytes. */
  lemma Sizes(n: nat, mOut: ColorMode, mIn: ColorMode, size: nat)
    requires ModeOk(mOut) && size >= RawSize(n, mOut)
    ensures mOut.kind.RGBA? ==> size >= 4 * n
    ensures mOut.kind.RGB? ==> size >= 3 * n
  {
    assert n == 8 * (n / 8) + n % 8;
    if mOut.kind.RGBA? {
      assert Bpp(mOut) == 32;
    } else if mOut.kind.RGB? {
      assert Bpp(mOut) == 24;
    }
  }

  lemma OnlyPalettes(n: nat, mOut: ColorMode, data: seq<byte>, mIn: ColorMode)
    requires ModeOk(mIn)
    ensures Unavailable(n, mOut, data, mIn) ==> mOut.kind.PALETTE?
  {
  }

  lemma IndexesFit(mOut: ColorMode, mIn: ColorMode, tree: ColorTree)
    requires ModeOk(mOut) && ModeOk(mIn) && TreeOk(tree)
    requires mOut.kind.PALETTE? ==> Indexes(tree, TargetPalette(mOut, mIn), |TargetPalette(mOut, mIn)|)
    ensures mOut.kind.PALETTE? ==> forall c: Pixel :: Get(tree, c, 0) <= Highest(mOut.bitdepth)
  {
    hide Get;
    if mOut.kind.PALETTE? {
      HighestIs(mOut.bitdepth);
      forall c: Pixel
        ensures Get(tree, c, 0) <= Highest(mOut.bitdepth)
      {
        IndexInPalette(tree, TargetPalette(mOut, mIn), c);
      }
    }
  }

  lemma NotPut(mOut: ColorMode, data: seq<byte>, mIn: ColorMode, tree: ColorTree, n: nat)
    requires ModeOk(mOut) && ModeOk(mIn) && TreeOk(tree)
    requires mOut.kind.PALETTE? ==> Indexes(tree, TargetPalette(mOut, mIn), |TargetPalette(mOut, mIn)|)
    requires exists k :: 0 <= k < n && Within(data, k, mIn) && !Puttable(mOut, tree, PixelAt(data, k, mIn))
    ensures Unavailable(n, mOut, data, mIn)
  {
    hide Get, PixelAt, TargetPalette, Indexes, Within;
    var k :| 0 <= k < n && Within(data, k, mIn) && !Puttable(mOut, tree, PixelAt(data, k, mIn));
    IndexInPalette(tree, TargetPalette(mOut, mIn), PixelAt(data, k, mIn));
  }

  // ----- pixels that survive

  /** Storing the colour in this mode loses nothing. */
  predicate Keeps(m: ColorMode, px: Pixel)
    requires ModeOk(m)
  {
    if m.kind.PALETTE? then px in m.palette && |m.palette| <= Pow2(m.bitdepth)
    else SamplesOk(m, Samples(m, px, 0)) && Shown(m, Samples(m, px, 0)) == px
  }

  lemma KeptPixel(out: seq<byte>, k: nat, m: ColorMode, mIn: ColorMode, px: Pixel)
    requires ModeOk(m) && PixelStored(out, k, m, px, TargetPalette(m, mIn)) && Keeps(m, px)
    ensures PixelAt(out, k, m) == px
  {
    hide SamplesAt, Shr, Low;
    var index: nat :| IndexFits(m, px, TargetPalette(m, mIn), index) && SamplesAt(out, k, m) == Samples(m, px, index);
  }

  /** The two images show the same pixels. */
  ghost predicate SamePixels(out: seq<byte>, mOut: ColorMode, data: seq<byte>, mIn: ColorMode, n: nat)
    requires ModeOk(mOut) && ModeOk(mIn)
  {
    forall k :: 0 <= k < n ==>
      Within(out, k, mOut) && Within(data, k, mIn) && PixelAt(out, k, mOut) == PixelAt(data, k, mIn)
  }

  ghost predicate AllKept(n: nat, mOut: ColorMode, data: seq<byte>, mIn: ColorMode)
    requires ModeOk(mOut) && ModeOk(mIn)
  {
    forall k :: 0 <= k < n ==> Within(data, k, mIn) && Keeps(mOut, PixelAt(data, k, mIn))
  }

  lemma {:induction false} ReadBitsSame(a: seq<byte>, b: seq<byte>, j: nat, n: nat, size: nat)
    requires size <= |a| && size <= |b| && a[..size] == b[..size] && j + n <= 8 * size
    ensures ReadBits(a, j, n) == ReadBits(b, j, n)
    decreases n
  {
    hide Shr;
    if n > 0 {
      ReadBitsSame(a, b, j, n - 1, size);
      var at := (j + n - 1) / 8;
      assert a[at] == a[..size][at] && b[at] == b[..size][at];
    }
  }

  lemma SamplesSame(a: seq<byte>, b: seq<byte>, k: nat, m: ColorMode, size: nat)
    requires ModeOk(m) && size <= |a| && size <= |b| && a[..size] == b[..size] && Within(a[..size], k, m)
    ensures Within(a, k, m) && Within(b, k, m) && SamplesAt(a, k, m) == SamplesAt(b, k, m)
  {
    hide ReadBits;
    if m.bitdepth < 8 {
      ReadBitsSame(a, b, m.bitdepth * k, m.bitdepth, size);
    } else {
      assert forall i :: 0 <= i < size ==> a[i] == a[..size][i] == b[..size][i] == b[i];
    }
  }

  lemma CopyShows(out: seq<byte>, mOut: ColorMode, data: seq<byte>, mIn: ColorMode, n: nat)
    requires ModeOk(mOut) && ModeOk(mIn) && SameMode(mOut, mIn)
    requires RawSize(n, mIn) <= |out| && RawSize(n, mIn) <= |data| && out[..RawSize(n, mIn)] == data[..RawSize(n, mIn)]
    ensures SamePixels(out, mOut, data, mIn, n)
  {
    hide SamplesAt, Grey, RawSize;
    var size := RawSize(n, mIn);
    forall k | 0 <= k < n
      ensures Within(out, k, mOut) && Within(data, k, mIn) && PixelAt(out, k, mOut) == PixelAt(data, k, mIn)
    {
      RoomFor(size, n, mIn, data[..size]);
      EarlierWithin(data[..size], n - 1, mIn, k);
      SamplesSame(data, out, k, mIn, size);
      SameModeSamples(out, k, mOut, mIn);
    }
  }

  lemma SameModeSamples(out: seq<byte>, k: nat, mOut: ColorMode, mIn: ColorMode)
    requires ModeOk(mOut) && ModeOk(mIn) && SameMode(mOut, mIn) && Within(out, k, mIn)
    ensures Within(out, k, mOut) && SamplesAt(out, k, mOut) == SamplesAt(out, k, mIn)
  {
    hide ReadBits;
  }

  lemma StoredShows(out: seq<byte>, mOut: ColorMode, data: seq<byte>, mIn: ColorMode, n: nat)
    requires ModeOk(mOut) && ModeOk(mIn) && AllKept(n, mOut, data, mIn) && AllStored(out, n, mOut, data, mIn)
    ensures SamePixels(out, mOut, data, mIn, n)
  {
    hide PixelAt, TargetPalette, Keeps, PixelStored, Within;
    forall k | 0 <= k < n
      ensures Within(out, k, mOut) && Within(data, k, mIn) && PixelAt(out, k, mOut) == PixelAt(data, k, mIn)
    {
      StoredWithin(out, k, mOut, PixelAt(data, k, mIn), TargetPalette(mOut, mIn));
      KeptPixel(out, k, mOut, mIn, PixelAt(data, k, mIn));
    }
  }

  lemma StoredWithin(out: seq<byte>, k: nat, m: ColorMode, px: Pixel, palette: seq<Pixel>)
    requires ModeOk(m) && PixelStored(out, k, m, px, palette)
    ensures Within(out, k, m)
  {
  }

  lemma KeptIsAvailable(n: nat, mOut: ColorMode, data: seq<byte>, mIn: ColorMode)
    requires ModeOk(mOut) && ModeOk(mIn) && AllKept(n, mOut, data, mIn)
    ensures !Unavailable(n, mOut, data, mIn)
    ensures n > 0 && IsCopy(mOut, mIn) ==> SameMode(mOut, mIn)
  {
    hide PixelAt;
    if n > 0 {
      assert Keeps(mOut, PixelAt(data, 0, mIn));
    }
  }

  /** If the output mode can keep every colour of the image, the conversion succeeds and changes no pixel. */
  method ConvertKeeping(out: array<byte>, data: seq<byte>, mOut: ColorMode, mIn: ColorMode, w: nat, h: nat)
    returns (error: nat)
    requires ModeOk(mOut) && ModeOk(mIn) && (mIn.kind.PALETTE? ==> mIn.palette != [])
    requires |data| >= RawSize(w * h, mIn) && out.Length >= RawSize(w * h, mOut)
    requires AllKept(w * h, mOut, data, mIn)
    modifies out
    ensures error == 0 && SamePixels(out[..], mOut, data, mIn, w * h)
  {
    hide AllStored, Unavailable, PixelAt, RawSize, Within, IsCopy, SameMode;
    error := Convert(out, data, mOut, mIn, w, h);
    KeptIsAvailable(w * h, mOut, data, mIn);
    if IsCopy(mOut, mIn) {
      if w * h > 0 {
        CopyShows(out[..], mOut, data, mIn, w * h);
      }
    } else {
      StoredShows(out[..], mOut, data, mIn, w * h);
    }
  }
}
