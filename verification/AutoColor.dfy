/**
  The automatic choice of a colour mode for an image of eight-bit RGBA pixels, from statistics of its colours.
 */
module AutoColor {
  import opened Bits
  import opened ColorTrees
  import opened ColorModes
  import opened ColorConversion
  import opened ColorStatistics

  // ----- choosing the mode

  /** The least depth of a palette with so many colours. */
  function PaletteBits(n: nat): (bits: nat)
    ensures bits == 1 || bits == 2 || bits == 4 || bits == 8
    ensures n <= 256 ==> n <= Pow2(bits)
    ensures bits > 1 ==> n > Pow2(bits / 2)
  {
    Pow2Values();
    if n <= 2 then 1 else if n <= 4 then 2 else if n <= 16 then 4 else 8
  }

  /** The mode without a palette; for small images, a key is not worth its room. */
  ghost function Plain(stats: ColorStats): ColorMode
    reads stats
  {
    PlainMode(stats, stats.key && stats.numpixels > 16)
  }

  /**
    The mode for the colours that the statistics allow: a palette is used if there are few colours, and if it takes fewer
    bits than a grey mode would.
   */
  method AutoChooseColor(stats: ColorStats) returns (m: ColorMode)
    requires stats.Consistent()
    ensures ModeOk(m)
    ensures m.kind.PALETTE? ==> m.palette == stats.palette && 0 < stats.numcolors <= 256
    ensures m.kind.PALETTE? ==> m.bitdepth == PaletteBits(stats.numcolors)
    ensures !m.kind.PALETTE? ==> m == Plain(stats)
    ensures m.kind.PALETTE? <==>
              && stats.allowPalette && 0 < stats.numcolors <= 256 && stats.numpixels >= 2 * stats.numcolors
              && (Plain(stats).kind.GREY? ==> PaletteBits(stats.numcolors) < Plain(stats).bitdepth)
  {
    var alpha, key, bits := stats.alpha, stats.key, stats.bits;
    if key && stats.numpixels <= 16 {
      alpha, key := true, false;
      if bits < 8 {
        bits := 8;
      }
    }
    var grayOk := !stats.colored && stats.allowGreyscale;
    if !grayOk && bits < 8 {
      bits := 8;
    }
    var n := stats.numcolors;
    var palettebits := PaletteBits(n);
    var paletteOk := n <= 256 && bits <= 8 && n != 0;
    if stats.numpixels < n * 2 {
      paletteOk := false;
    }
    if grayOk && !alpha && bits <= palettebits {
      paletteOk := false;
    }
    if !stats.allowPalette {
      paletteOk := false;
    }
    if paletteOk {
      m := ColorMode(PALETTE, palettebits, false, 0, 0, 0, stats.palette);
    } else {
      m := ColorMode(if alpha then (if grayOk then GREY_ALPHA else RGBA) else if grayOk then GREY else RGB,
                     bits, key, 0, 0, 0, []);
      if key {
        m := m.(keyR := Low(stats.keyR, bits), keyG := Low(stats.keyG, bits), keyB := Low(stats.keyB, bits));
      }
    }
  }

  /** The mode without a palette, with or without the key. */
  ghost function PlainMode(stats: ColorStats, key: bool): ColorMode
    reads stats
  {
    var alpha := stats.alpha || (stats.key && !key);
    var gray := !stats.colored && stats.allowGreyscale;
    var bits := if (stats.key && !key) || !gray then 8 else stats.bits;
    ColorMode(if alpha then (if gray then GREY_ALPHA else RGBA) else if gray then GREY else RGB, bits, key,
              if key then Low(stats.keyR, bits) else 0, if key then Low(stats.keyG, bits) else 0,
              if key then Low(stats.keyB, bits) else 0, [])
  }

  // ----- nothing is lost

  lemma {:induction false} ShlIsTimes(v: nat, k: nat)
    ensures Shl(v, k) == Pow2(k) * v
  {
    if k > 0 {
      ShlIsTimes(v, k - 1);
      assert 2 * (Pow2(k - 1) * v) == 2 * Pow2(k - 1) * v;
    }
  }

  /** Quotient and remainder of a power of two. */
  lemma Parts(v: nat, k: nat, p: nat)
    requires p == Pow2(k)
    ensures v == p * Shr(v, k) + Low(v, k) && Low(v, k) < p
  {
    SplitAt(v, k);
    ShlIsTimes(Shr(v, k), k);
  }

  lemma OneBit(v: byte)
    requires v % 255 == 0
    ensures var s := Low(Shr(v, 7), 1); s <= 1 && Grey(s, 1) == v && Low(v * 257, 1) == s
  {
    hide Shr, Low, Pow2;
    Pow2Values();
    Parts(v, 7, 128);
    Parts(Shr(v, 7), 1, 2);
    Parts(v * 257, 1, 2);
  }

  lemma TwoBits(v: byte)
    requires v % 85 == 0
    ensures var s := Low(Shr(v, 6), 2); s <= 3 && Grey(s, 2) == v && Low(v * 257, 2) == s
  {
    hide Shr, Low, Pow2;
    Pow2Values();
    Parts(v, 6, 64);
    Parts(Shr(v, 6), 2, 4);
    Parts(v * 257, 2, 4);
    var k := v / 85;
    assert v == 85 * k && k <= 3;
  }

  lemma FourBits(v: byte)
    requires v % 17 == 0
    ensures var s := Low(Shr(v, 4), 4); s <= 15 && Grey(s, 4) == v && Low(v * 257, 4) == s
  {
    hide Shr, Low, Pow2;
    Pow2Values();
    Parts(v, 4, 16);
    Parts(Shr(v, 4), 4, 16);
    Parts(v * 257, 4, 16);
    var k := v / 17;
    assert v == 17 * k && k <= 15;
    assert Shr(v, 4) == k && v * 257 == 16 * (273 * k) + k;
  }

  /** A grey value that the depth can stand for survives, and the low bits of a doubled byte are its sample. */
  lemma GreySurvives(v: byte, bits: nat)
    requires FitsBits(v, bits)
    ensures bits == 1 || bits == 2 || bits == 4 || bits == 8
    ensures var s := if bits == 8 then v else Low(Shr(v, 8 - bits), bits);
            s <= Highest(bits) && Grey(s, bits) == v && Low(v * 257, bits) == s
  {
    hide Shr, Low, Grey;
    if bits == 1 {
      OneBit(v);
    } else if bits == 2 {
      TwoBits(v);
    } else if bits == 4 {
      FourBits(v);
    } else {
      hide Pow2;
      Pow2Values();
      Parts(v * 257, 8, 256);
      GreyOfByte(v);
    }
  }

  lemma DoubledByte(v: byte)
    ensures Low(v * 257, 8) == v
  {
    GreySurvives(v, 8);
  }

  /** What is known of a pixel and of the one that the key comes from. */
  ghost predicate Counted(stats: ColorStats, px: Pixel, kp: Pixel)
    reads stats
  {
    && stats.Consistent() && stats.Allows(px, 257)
    && (stats.key ==> stats.IsKey(kp, 257) && stats.Allows(kp, 257))
    && (stats.key && px.a != 0 ==> !stats.HasKey(px, 257))
  }

  lemma GreyKeeps(stats: ColorStats, key: bool, px: Pixel, kp: Pixel)
    requires Counted(stats, px, kp) && (key ==> stats.key) && PlainMode(stats, key).kind.GREY?
    ensures Keeps(PlainMode(stats, key), px)
  {
    hide Shr, Low, Grey, FitsBits, Highest;
    GreySurvives(px.r, stats.bits);
    if key {
      GreySurvives(kp.r, stats.bits);
    }
  }

  lemma RgbKeeps(stats: ColorStats, key: bool, px: Pixel, kp: Pixel)
    requires Counted(stats, px, kp) && (key ==> stats.key) && PlainMode(stats, key).kind.RGB?
    ensures Keeps(PlainMode(stats, key), px)
  {
    hide Shr, Low, Grey, FitsBits;
    DoubledByte(kp.r);
    DoubledByte(kp.g);
    DoubledByte(kp.b);
  }

  /** Without a palette, every pixel that the statistics allow survives. */
  lemma PlainKeeps(stats: ColorStats, key: bool, px: Pixel, kp: Pixel)
    requires Counted(stats, px, kp) && (key ==> stats.key)
    ensures ModeOk(PlainMode(stats, key)) && Keeps(PlainMode(stats, key), px)
  {
    hide Shr, Low, Grey, FitsBits;
    var m := PlainMode(stats, key);
    if m.kind.GREY? {
      GreyKeeps(stats, key, px, kp);
    } else if m.kind.RGB? {
      RgbKeeps(stats, key, px, kp);
    }
  }

  /** Whatever mode is chosen from the statistics of an image, each of its pixels survives. */
  lemma ChosenKeeps(stats: ColorStats, m: ColorMode, data: seq<byte>, n: nat, k: nat)
    requires |data| >= 4 * n && stats.Describes(data, n, 257) && stats.KeyChecked(data, n, 257) && k < n
    requires m.kind.PALETTE? ==> m.palette == stats.palette && 0 < stats.numcolors <= 256
    requires m.kind.PALETTE? ==> m.bitdepth == PaletteBits(stats.numcolors)
    requires !m.kind.PALETTE? ==> m == Plain(stats)
    ensures ModeOk(m) && Keeps(m, Px(data, k))
  {
    hide Px, PlainMode, FitsBits, PaletteBits;
    assert stats.Allows(Px(data, k), 257);
    if !m.kind.PALETTE? {
      var kp := Px(data, k);
      if stats.key {
        var i :| 0 <= i < n && stats.IsKey(Px(data, i), 257);
        assert stats.Allows(Px(data, i), 257);
        kp := Px(data, i);
      }
      PlainKeeps(stats, stats.key && stats.numpixels > 16, Px(data, k), kp);
    }
  }

  // ----- there and back

  lemma SameBytes(a: seq<byte>, b: seq<byte>, n: nat)
    requires |a| >= 4 * n && |b| >= 4 * n && forall k :: 0 <= k < n ==> Px(a, k) == Px(b, k)
    ensures a[..4 * n] == b[..4 * n]
  {
    forall i | 0 <= i < 4 * n
      ensures a[i] == b[i]
    {
      PxIs(a, i / 4);
      PxIs(b, i / 4);
      assert Px(a, i / 4) == Px(b, i / 4);
    }
  }

  /** A mode with the pixels of an image goes back to the bytes of the image. */
  lemma BackToBytes(back: seq<byte>, there: seq<byte>, m: ColorMode, data: seq<byte>, n: nat)
    requires ModeOk(m) && |data| >= 4 * n && |back| == 4 * n
    requires SamePixels(there, m, data, RGBA8, n) && SamePixels(back, RGBA8, there, m, n)
    ensures back == data[..4 * n]
  {
    hide PixelAt, Within, Px;
    forall k | 0 <= k < n
      ensures Px(back, k) == Px(data, k)
    {
      PxIs(back, k);
      PxIs(data, k);
    }
    SameBytes(back, data, n);
    assert back[..4 * n] == back;
  }

  lemma RgbaKeepsAll(there: seq<byte>, m: ColorMode, data: seq<byte>, n: nat)
    requires ModeOk(m) && SamePixels(there, m, data, RGBA8, n)
    ensures AllKept(n, RGBA8, there, m)
  {
    hide PixelAt;
  }

  lemma ChosenKeepsAll(stats: ColorStats, m: ColorMode, data: seq<byte>, n: nat)
    requires |data| >= 4 * n && stats.Describes(data, n, 257) && stats.KeyChecked(data, n, 257) && ModeOk(m)
    requires m.kind.PALETTE? ==> m.palette == stats.palette && 0 < stats.numcolors <= 256
    requires m.kind.PALETTE? ==> m.bitdepth == PaletteBits(stats.numcolors)
    requires !m.kind.PALETTE? ==> m == Plain(stats)
    ensures AllKept(n, m, data, RGBA8)
  {
    hide Px, PixelAt, Keeps, PlainMode, PaletteBits;
    forall k | 0 <= k < n
      ensures Within(data, k, RGBA8) && Keeps(m, PixelAt(data, k, RGBA8))
    {
      PxIs(data, k);
      ChosenKeeps(stats, m, data, n, k);
    }
  }

  /**
    Automatic colour choice loses nothing: an image converted to the mode that is chosen for it and back is the same,
    byte for byte, and neither conversion fails.
   */
  method ConvertThereAndBack(data: seq<byte>, w: nat, h: nat, allowPalette: bool, allowGreyscale: bool)
    returns (m: ColorMode, there: array<byte>, back: array<byte>, error: nat)
    requires |data| >= 4 * (w * h)
    ensures error == 0 && ModeOk(m) && there.Length == RawSize(w * h, m)
    ensures back.Length == 4 * (w * h) && back[..] == data[..4 * (w * h)]
  {
    hide AllKept, SamePixels, RawSize, PlainMode, PaletteBits;
    ghost var n := w * h;
    WholeSize(w * h, RGBA8);
    var stats := new ColorStats(allowPalette, allowGreyscale);
    stats.Compute(data, w, h);
    m := AutoChooseColor(stats);
    there, back := new byte[RawSize(w * h, m)], new byte[4 * (w * h)];
    ChosenKeepsAll(stats, m, data, n);
    error := ConvertKeeping(there, data, m, RGBA8, w, h);
    RgbaKeepsAll(there[..], m, data, n);
    error := ConvertKeeping(back, there[..], RGBA8, m, w, h);
    BackToBytes(back[..], there[..], m, data, n);
  }
}
