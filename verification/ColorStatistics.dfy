/**
  Statistics of the colours of an image of eight-bit RGBA pixels: they are exactly what the pixels make them.
 */
module ColorStatistics {
  import opened Bits
  import opened ColorTrees
  import opened ColorModes
  import opened ColorConversion

  /** Bits needed for a grey value: smaller depths scale by multiples of 255, 85 and 17. */
  function RequiredBits(v: byte): (bits: nat)
    ensures bits == 1 || bits == 2 || bits == 4 || bits == 8
  {
    if v == 0 || v == 255 then 1
    else if v % 17 == 0 then if v % 85 == 0 then 2 else 4
    else 8
  }

  /** The value is one of those that this many bits can stand for. */
  predicate FitsBits(v: byte, bits: nat) {
    if bits == 1 then v % 255 == 0 else if bits == 2 then v % 85 == 0 else if bits == 4 then v % 17 == 0 else bits == 8
  }

  lemma RequiredFits(v: byte, bits: nat)
    requires RequiredBits(v) <= bits && (bits == 1 || bits == 2 || bits == 4 || bits == 8)
    ensures FitsBits(v, bits)
  {
  }

  lemma FitsRequired(v: byte, bits: nat)
    requires FitsBits(v, bits)
    ensures RequiredBits(v) <= bits
  {
  }

  predicate IsGrey(px: Pixel) {
    px.r == px.g == px.b
  }

  lemma FitsMore(v: byte, bits: nat, more: nat)
    requires FitsBits(v, bits) && bits <= more && (more == 1 || more == 2 || more == 4 || more == 8)
    ensures FitsBits(v, more)
  {
  }

  function Px(data: seq<byte>, k: nat): Pixel
    requires 4 * k + 4 <= |data|
  {
    PixelAt(data, k, RGBA8)
  }

  lemma PxIs(data: seq<byte>, k: nat)
    requires 4 * k + 4 <= |data|
    ensures Within(data, k, RGBA8) && PixelAt(data, k, RGBA8) == Px(data, k)
    ensures Px(data, k) == Pixel(data[4 * k], data[4 * k + 1], data[4 * k + 2], data[4 * k + 3])
  {
  }

  /** The same colour, apart from the opacity. */
  predicate SameRgb(p: Pixel, q: Pixel) {
    p.r == q.r && p.g == q.g && p.b == q.b
  }

  /** A reason why no single colour can stand for what is transparent. */
  predicate Clash(p: Pixel, q: Pixel) {
    0 < p.a < 255 || (p.a == 0 && q.a == 0 && !SameRgb(p, q)) || (p.a == 0 && q.a == 255 && SameRgb(p, q))
  }

  ghost predicate SomeColored(data: seq<byte>, n: nat)
    requires |data| >= 4 * n
  {
    exists k :: 0 <= k < n && !IsGrey(Px(data, k))
  }

  ghost predicate SomeInvisible(data: seq<byte>, n: nat)
    requires |data| >= 4 * n
  {
    exists k :: 0 <= k < n && Px(data, k).a == 0
  }

  ghost predicate SomeClash(data: seq<byte>, n: nat)
    requires |data| >= 4 * n
  {
    exists i, j :: 0 <= i < n && 0 <= j < n && Clash(Px(data, i), Px(data, j))
  }

  ghost predicate Occurs(data: seq<byte>, n: nat, px: Pixel)
    requires |data| >= 4 * n
  {
    exists k :: 0 <= k < n && Px(data, k) == px
  }

  /** Some grey value needs so many bits. */
  ghost predicate SomeNeeds(data: seq<byte>, n: nat, bits: nat)
    requires |data| >= 4 * n
  {
    exists k :: 0 <= k < n && RequiredBits(Px(data, k).r) == bits
  }

  /** There are pixels that are the reasons for colours, an alpha channel and the number of bits. */
  ghost predicate Reasons(data: seq<byte>, n: nat, colored: bool, alpha: bool, bits: nat)
    requires |data| >= 4 * n
  {
    && (colored ==> SomeColored(data, n)) && (alpha ==> SomeClash(data, n))
    && (bits > 1 && !colored && !alpha ==> SomeNeeds(data, n, bits))
  }

  /** What a pixel changes, it is the reason for. */
  lemma ReasonsMore(data: seq<byte>, n: nat, colored: bool, alpha: bool, bits: nat, colored': bool, alpha': bool, bits': nat,
                    kp: Pixel)
    requires |data| >= 4 * n + 4 && Reasons(data, n, colored, alpha, bits)
    requires colored' <==> colored || !IsGrey(Px(data, n))
    requires alpha' ==> alpha || Clash(Px(data, n), Px(data, n)) || (Clash(kp, Px(data, n)) && Occurs(data, n, kp))
    requires alpha ==> alpha'
    requires !colored' && !alpha' ==> bits' == bits || bits' == RequiredBits(Px(data, n).r)
    ensures Reasons(data, n + 1, colored', alpha', bits')
  {
    hide IsGrey, RequiredBits, Px, Clash;
    if alpha' && !alpha && !Clash(Px(data, n), Px(data, n)) {
      var k :| 0 <= k < n && Px(data, k) == kp;
      assert Clash(Px(data, k), Px(data, n));
    }
  }

  /** The colours of a palette all occur, none is listed twice, and when there are too many, another one occurs as well. */
  ghost predicate Listed(data: seq<byte>, n: nat, palette: seq<Pixel>, numcolors: nat)
    requires |data| >= 4 * n
  {
    && (forall i, j :: 0 <= i < j < |palette| ==> palette[i] != palette[j])
    && (forall i :: 0 <= i < |palette| ==> Occurs(data, n, palette[i]))
    && (numcolors > 256 ==> exists k :: 0 <= k < n && Px(data, k) !in palette)
  }

  /** The colour of a pixel was known, or is new and has been added unless the palette is full. */
  predicate TakenUp(px: Pixel, palette: seq<Pixel>, numcolors: nat, palette': seq<Pixel>, numcolors': nat) {
    || (palette' == palette && numcolors' == numcolors)
    || (px !in palette && palette' == palette + [px] && numcolors' <= 256)
    || (px !in palette && palette' == palette)
  }

  lemma OccursMore(data: seq<byte>, n: nat, px: Pixel)
    requires |data| >= 4 * n + 4
    ensures Occurs(data, n + 1, Px(data, n)) && (Occurs(data, n, px) ==> Occurs(data, n + 1, px))
  {
    hide Px;
  }

  lemma ListedMore(data: seq<byte>, n: nat, palette: seq<Pixel>, numcolors: nat, palette': seq<Pixel>, numcolors': nat)
    requires |data| >= 4 * n + 4 && Listed(data, n, palette, numcolors)
    requires TakenUp(Px(data, n), palette, numcolors, palette', numcolors')
    ensures Listed(data, n + 1, palette', numcolors')
  {
    hide Px;
    forall i | 0 <= i < |palette'|
      ensures Occurs(data, n + 1, palette'[i])
    {
      if i < |palette| {
        assert Occurs(data, n, palette[i]);
      } else {
        assert palette'[i] == Px(data, n);
      }
    }
  }

  class ColorStats {
    var colored: bool
    var key: bool
    var keyR: nat
    var keyG: nat
    var keyB: nat
    var alpha: bool
    var numcolors: nat
    var palette: seq<Pixel>
    var bits: nat
    var numpixels: nat
    var allowPalette: bool
    var allowGreyscale: bool

    constructor (allowPalette: bool, allowGreyscale: bool)
      ensures Initial() && this.allowPalette == allowPalette && this.allowGreyscale == allowGreyscale
    {
      colored, key, keyR, keyG, keyB := false, false, 0, 0, 0;
      alpha, numcolors, palette, bits, numpixels := false, 0, [], 1, 0;
      this.allowPalette, this.allowGreyscale := allowPalette, allowGreyscale;
    }

    predicate Initial()
      reads this
    {
      !colored && !key && !alpha && numcolors == 0 && palette == [] && bits == 1 && numpixels == 0
    }

    /** The colour of the key. It is kept with eight bits per channel while counting, and with sixteen at the end. */
    predicate HasKey(px: Pixel, scale: nat)
      reads this
    {
      px.r * scale == keyR && px.g * scale == keyG && px.b * scale == keyB
    }

    /** What the statistics say of every pixel that has been counted. */
    ghost predicate Allows(px: Pixel, scale: nat)
      reads this
    {
      && FitsBits(px.r, bits)
      && (colored || IsGrey(px))
      && (alpha || px.a == 255 || (key && px.a == 0 && HasKey(px, scale)))
      && (0 < numcolors <= 256 ==> px in palette)
    }

    /** How the statistics hang together. */
    ghost predicate Consistent()
      reads this
    {
      && (bits == 1 || bits == 2 || bits == 4 || bits == 8)
      && (colored ==> bits == 8) && (alpha ==> bits == 8 && !key)
      && numcolors <= 257 && |palette| == (if numcolors <= 256 then numcolors else 256)
      && (!allowPalette ==> numcolors == 0)
    }

    /** The tree finds the colours of the palette, as long as they all are in it. */
    ghost predicate TreeFor(tree: ColorTree)
      reads this
    {
      TreeOk(tree) && (numcolors <= 256 ==> Indexes(tree, palette, numcolors))
    }

    /** An image needs an alpha channel: a key is given up, and the bit depth must be eight. */
    method NeedAlpha()
      requires Consistent()
      modifies this
      ensures Consistent() && alpha && !key && unchanged(`colored, `numcolors, `palette, `allowPalette, `keyR, `keyG, `keyB)
      ensures unchanged(`numpixels, `allowGreyscale) && bits == 8
      ensures forall px: Pixel :: old(Allows(px, 1)) ==> Allows(px, 1)
    {
      hide FitsBits;
      ghost var bits0 := bits;
      alpha, key := true, false;
      if bits < 8 {
        bits := 8;
      }
      forall px: Pixel | old(Allows(px, 1))
        ensures Allows(px, 1)
      {
        FitsMore(px.r, bits0, bits);
      }
    }

    /** The key with sixteen bits per channel: each byte is repeated. */
    method ScaleKey()
      requires Consistent()
      modifies this
      ensures Consistent() && unchanged(`colored, `numcolors, `palette, `allowPalette, `key, `alpha, `bits)
      ensures unchanged(`numpixels, `allowGreyscale)
      ensures forall px: Pixel :: HasKey(px, 257) <==> old(HasKey(px, 1))
    {
      keyR, keyG, keyB := keyR + keyR * 256, keyG + keyG * 256, keyB + keyB * 256;
    }

    /** Counts the grey value of a pixel, and whether it has a colour. */
    method CountGrey(px: Pixel)
      requires Consistent()
      modifies `bits, `colored
      ensures Consistent() && FitsBits(px.r, bits) && (colored || IsGrey(px))
      ensures colored <==> old(colored) || !IsGrey(px)
      ensures !colored ==> bits == old(bits) || bits == RequiredBits(px.r)
      ensures forall px': Pixel :: old(Allows(px', 1)) ==> Allows(px', 1)
    {
      hide FitsBits, RequiredBits;
      ghost var bits0 := bits;
      if bits < 8 {
        var required := RequiredBits(px.r);
        if required > bits {
          bits := required;
        }
      }
      RequiredFits(px.r, bits);
      ghost var bits1 := bits;
      if !colored && (px.r != px.g || px.r != px.b) {
        colored := true;
        if bits < 8 {
          bits := 8;
        }
      }
      FitsMore(px.r, bits1, bits);
      forall px': Pixel | old(Allows(px', 1))
        ensures Allows(px', 1)
      {
        FitsMore(px'.r, bits0, bits);
      }
    }

    /** Counts the opacity of a pixel: the first invisible one makes the key. */
    method CountOpacity(px: Pixel, ghost kp: Pixel)
      requires Consistent() && FitsBits(px.r, bits) && (colored || IsGrey(px)) && (key ==> IsKey(kp, 1))
      modifies this
      ensures Consistent() && unchanged(`numcolors, `palette, `allowPalette, `numpixels, `allowGreyscale)
      ensures FitsBits(px.r, bits) && (colored || IsGrey(px))
      ensures alpha || px.a == 255 || (key && px.a == 0 && HasKey(px, 1))
      ensures key ==> IsKey(px, 1) || (old(key) && unchanged(`keyR, `keyG, `keyB))
      ensures unchanged(`colored) && (!alpha ==> unchanged(`bits))
      ensures (alpha ==> old(alpha) || Clash(px, px) || (old(key) && Clash(kp, px))) && (old(alpha) ==> alpha)
      ensures forall px': Pixel :: old(Allows(px', 1)) ==> Allows(px', 1)
    {
      hide FitsBits, IsGrey;
      ghost var bits0 := bits;
      if !alpha {
        var matchkey := HasKey(px, 1);
        if px.a != 255 && (px.a != 0 || (key && !matchkey)) {
          NeedAlpha();
        } else if px.a == 0 && !key {
          key, keyR, keyG, keyB := true, px.r, px.g, px.b;
        } else if px.a == 255 && key && matchkey {
          NeedAlpha();
        }
      }
      FitsMore(px.r, bits0, bits);
    }

    /** Counts a pixel whose colour may be new. */
    method CountColor(px: Pixel, tree: ColorTree) returns (tree': ColorTree)
      requires Consistent() && TreeFor(tree)
      modifies `numcolors, `palette
      ensures Consistent() && TreeFor(tree')
      ensures 0 < numcolors <= 256 ==> px in palette
      ensures allowPalette ==> numcolors > 0
      ensures TakenUp(px, old(palette), old(numcolors), palette, numcolors)
      ensures forall px': Pixel :: old(Allows(px', 1)) && (old(numcolors) > 0 || !allowPalette) ==> Allows(px', 1)
    {
      hide Get, Add, FitsBits, IsGrey;
      tree' := tree;
      if allowPalette && numcolors < 257 {
        EmptyOrFound(tree, px);
        if Get(tree, px, 0) < 0 {
          tree' := Add(tree, px, 0, numcolors);
          if numcolors < 256 {
            AddColor(tree, px);
            palette := palette + [px];
          }
          numcolors := numcolors + 1;
        }
      }
    }

    /** Counts a pixel of an image: it is allowed from now on, and what was allowed before still is. */
    method CountPixel(px: Pixel, tree: ColorTree, ghost kp: Pixel) returns (tree': ColorTree)
      requires Consistent() && TreeFor(tree) && (key ==> IsKey(kp, 1))
      modifies this
      ensures Consistent() && TreeFor(tree') && unchanged(`numpixels, `allowPalette, `allowGreyscale)
      ensures Allows(px, 1) && (allowPalette ==> numcolors > 0)
      ensures key ==> IsKey(px, 1) || (old(key) && unchanged(`keyR, `keyG, `keyB))
      ensures colored <==> old(colored) || !IsGrey(px)
      ensures (alpha ==> old(alpha) || Clash(px, px) || (old(key) && Clash(kp, px))) && (old(alpha) ==> alpha)
      ensures !colored && !alpha ==> bits == old(bits) || bits == RequiredBits(px.r)
      ensures TakenUp(px, old(palette), old(numcolors), palette, numcolors)
      ensures forall px': Pixel :: old(Allows(px', 1)) && (old(numcolors) > 0 || !allowPalette) ==> Allows(px', 1)
    {
      hide FitsBits, IsGrey, TreeOk, Indexes, RequiredBits;
      CountGrey(px);
      CountOpacity(px, kp);
      tree' := CountColor(px, tree);
    }

    /** What has been counted so far. */
    ghost predicate Counted(data: seq<byte>, n: nat)
      requires |data| >= 4 * n
      reads this
    {
      Consistent() && forall k :: 0 <= k < n ==> Allows(Px(data, k), 1)
    }

    /** What has been counted of an image; once the key has been checked, no opaque pixel has its colour. */
    ghost predicate Describes(data: seq<byte>, n: nat, scale: nat)
      requires |data| >= 4 * n
      reads this
    {
      && Consistent() && (forall k :: 0 <= k < n ==> Allows(Px(data, k), scale))
      && (key ==> exists k :: 0 <= k < n && IsKey(Px(data, k), scale))
    }

    /** Nothing is more expensive than the pixels make it. */
    ghost predicate Needed(data: seq<byte>, n: nat)
      requires |data| >= 4 * n
      reads this
    {
      && Reasons(data, n, colored, alpha, bits) && Listed(data, n, palette, numcolors)
      && (allowPalette && n > 0 ==> numcolors > 0)
    }

    /** The statistics are exactly those of the pixels. */
    ghost predicate Exact(data: seq<byte>, n: nat)
      requires |data| >= 4 * n
      reads this
    {
      && (colored <==> SomeColored(data, n)) && (alpha <==> SomeClash(data, n))
      && (key <==> !alpha && SomeInvisible(data, n))
      && (if colored || alpha then bits == 8
          else (forall k :: 0 <= k < n ==> RequiredBits(Px(data, k).r) <= bits) && (bits > 1 ==> SomeNeeds(data, n, bits)))
      && Listed(data, n, palette, numcolors)
      && (allowPalette && numcolors <= 256 ==> forall k :: 0 <= k < n ==> Px(data, k) in palette)
    }

    /** A pixel that is the reason for the key. */
    ghost predicate IsKey(px: Pixel, scale: nat)
      reads this
    {
      px.a == 0 && HasKey(px, scale)
    }

    ghost predicate KeyChecked(data: seq<byte>, n: nat, scale: nat)
      requires |data| >= 4 * n
      reads this
    {
      forall k :: 0 <= k < n && key && Px(data, k).a != 0 ==> !HasKey(Px(data, k), scale)
    }

    /** Counts all pixels: of eight-bit RGBA nothing is known in advance, so no pixel is left out. */
    method CountPixels(data: seq<byte>, n: nat)
      requires Initial() && |data| >= 4 * n
      modifies this
      ensures Describes(data, n, 1) && Needed(data, n) && numpixels == n && unchanged(`allowPalette, `allowGreyscale)
    {
      hide FitsBits, IsGrey, Indexes, Px, Allows, Reasons, Listed, Clash, TakenUp, RequiredBits;
      NothingNeeded(data);
      numpixels := numpixels + n;
      var tree := EMPTY_NODE;
      ghost var kp := Pixel(0, 0, 0, 0);
      EmptyIndexes(palette);
      for i := 0 to n
        invariant Counted(data, i) && Needed(data, i) && TreeFor(tree) && numpixels == n
        invariant key ==> IsKey(kp, 1) && Occurs(data, i, kp)
        invariant unchanged(`allowPalette, `allowGreyscale)
      {
        var px := GetPixelColorRGBA8(data, i, RGBA8);
        PxIs(data, i);
        ghost var colored0, alpha0, bits0, palette0, numcolors0 := colored, alpha, bits, palette, numcolors;
        tree := CountPixel(px, tree, kp);
        ReasonsMore(data, i, colored0, alpha0, bits0, colored, alpha, bits, kp);
        ListedMore(data, i, palette0, numcolors0, palette, numcolors);
        OccursMore(data, i, kp);
        kp := if IsKey(kp, 1) then kp else px;
      }
    }

    /** A key that an opaque pixel has the colour of is no key. */
    method CheckKey(data: seq<byte>, n: nat)
      requires |data| >= 4 * n && Describes(data, n, 1) && Needed(data, n)
      modifies this
      ensures Describes(data, n, 1) && KeyChecked(data, n, 1) && Needed(data, n)
      ensures unchanged(`numpixels, `allowPalette, `allowGreyscale)
    {
      hide FitsBits, IsGrey, Px, Allows, SomeClash, SomeColored, SomeNeeds, Listed;
      if key && !alpha {
        for i := 0 to n
          invariant Describes(data, n, 1) && KeyChecked(data, i, 1) && Needed(data, n) && (key || alpha)
          invariant unchanged(`numpixels, `allowPalette, `allowGreyscale)
        {
          var px := GetPixelColorRGBA8(data, i, RGBA8);
          PxIs(data, i);
          if px.a != 0 && px.r == keyR && px.g == keyG && px.b == keyB {
            KeySpoiled(data, n, i);
            NeedAlpha();
          }
        }
      }
    }

    /** The statistics of an image. */
    method Compute(data: seq<byte>, w: nat, h: nat)
      requires Initial() && |data| >= 4 * (w * h)
      modifies this
      ensures Describes(data, w * h, 257) && KeyChecked(data, w * h, 257) && Exact(data, w * h) && numpixels == w * h
      ensures unchanged(`allowPalette, `allowGreyscale)
    {
      hide FitsBits, IsGrey, Px, HasKey, Needed, Listed, SomeNeeds, SomeColored, SomeClash, SomeInvisible, RequiredBits;
      CountPixels(data, w * h);
      CheckKey(data, w * h);
      ThenExact(data, w * h);
      ScaleKey();
    }

    lemma NothingNeeded(data: seq<byte>)
      requires Initial()
      ensures Needed(data, 0)
    {
    }

    /** A visible pixel with the colour of the key. */
    lemma KeySpoiled(data: seq<byte>, n: nat, i: nat)
      requires |data| >= 4 * n && i < n && Describes(data, n, 1) && Needed(data, n) && (key || alpha)
      requires Px(data, i).a != 0 && HasKey(Px(data, i), 1)
      ensures SomeClash(data, n)
    {
      hide Px, FitsBits, IsGrey;
      if key {
        var k :| 0 <= k < n && IsKey(Px(data, k), 1);
        assert Allows(Px(data, i), 1);
        assert Clash(Px(data, k), Px(data, i));
      }
    }

    lemma NoClash(data: seq<byte>, n: nat)
      requires |data| >= 4 * n && Describes(data, n, 1) && KeyChecked(data, n, 1) && !alpha
      ensures !SomeClash(data, n)
    {
      hide Px, FitsBits, IsGrey;
      forall i, j | 0 <= i < n && 0 <= j < n
        ensures !Clash(Px(data, i), Px(data, j))
      {
        assert Allows(Px(data, i), 1) && Allows(Px(data, j), 1);
      }
    }

    lemma ThenExact(data: seq<byte>, n: nat)
      requires |data| >= 4 * n && Describes(data, n, 1) && Needed(data, n) && KeyChecked(data, n, 1)
      ensures Exact(data, n)
    {
      hide Px, FitsBits, IsGrey, RequiredBits, Listed, SomeNeeds;
      if SomeColored(data, n) {
        var k :| 0 <= k < n && !IsGrey(Px(data, k));
        assert Allows(Px(data, k), 1);
      }
      if !alpha {
        NoClash(data, n);
      }
      if SomeInvisible(data, n) {
        var k :| 0 <= k < n && Px(data, k).a == 0;
        assert Allows(Px(data, k), 1);
      }
      forall k | 0 <= k < n
        ensures RequiredBits(Px(data, k).r) <= bits
        ensures allowPalette && numcolors <= 256 ==> Px(data, k) in palette
      {
        assert Allows(Px(data, k), 1);
        FitsRequired(Px(data, k).r, bits);
      }
    }

    lemma EmptyOrFound(tree: ColorTree, px: Pixel)
      requires Consistent() && TreeFor(tree) && numcolors <= 256
      ensures if Get(tree, px, 0) >= 0 then px in palette && numcolors > 0 else px !in palette
    {
      hide Get;
      assert IndexRight(tree, palette, numcolors, px) && palette[..numcolors] == palette;
    }

    lemma AddColor(tree: ColorTree, px: Pixel)
      requires Consistent() && TreeFor(tree) && numcolors < 256
      ensures Indexes(Add(tree, px, 0, numcolors), palette + [px], numcolors + 1)
    {
      hide Get, Add;
      PaletteGrows(tree, palette, numcolors, px);
      AddIndexes(tree, palette + [px], numcolors, px);
    }
  }

  lemma PaletteGrows(tree: ColorTree, palette: seq<Pixel>, n: nat, px: Pixel)
    requires Indexes(tree, palette, n)
    ensures Indexes(tree, palette + [px], n)
  {
    hide Get;
    assert (palette + [px])[..n] == palette[..n];
    forall c: Pixel
      ensures IndexRight(tree, palette + [px], n, c)
    {
      assert IndexRight(tree, palette, n, c);
    }
  }
}
