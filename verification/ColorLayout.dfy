/**
  Where the channels of a pixel stand in the bytes of an image, in plain arithmetic, without the functions that reading
  and writing pixels share.
 */
module ColorLayout {
  import opened Bits
  import opened ColorTrees
  import opened ColorModes
  import PaddingBits

  /** Bit `k` of an image, most significant bit of a byte first. */
  function LeadingBit(data: seq<byte>, k: nat): nat {
    if k / 8 >= |data| then 0
    else
      match k % 8
      case 0 => data[k / 8] / 128 % 2
      case 1 => data[k / 8] / 64 % 2
      case 2 => data[k / 8] / 32 % 2
      case 3 => data[k / 8] / 16 % 2
      case 4 => data[k / 8] / 8 % 2
      case 5 => data[k / 8] / 4 % 2
      case 6 => data[k / 8] / 2 % 2
      case _ => data[k / 8] % 2
  }

  /** A number of `n` bits, most significant first. */
  function LeadingNumber(data: seq<byte>, j: nat, n: nat): nat
    decreases n
  {
    if n == 0 then 0 else 2 * LeadingNumber(data, j, n - 1) + LeadingBit(data, j + n - 1)
  }

  lemma BitIsLeading(data: seq<byte>, k: nat)
    requires k < 8 * |data|
    ensures PaddingBits.ReversedBit(data, k) as nat == LeadingBit(data, k)
  {
    hide Shr;
    assert k / 8 < |data|;
    ShrSmall(data[k / 8]);
    ShrLarge(data[k / 8]);
  }

  lemma {:induction false} BitsAreLeading(data: seq<byte>, j: nat, n: nat)
    requires j + n <= 8 * |data|
    ensures ReadBits(data, j, n) == LeadingNumber(data, j, n)
    decreases n
  {
    hide PaddingBits.ReversedBit, LeadingBit;
    if n > 0 {
      BitsAreLeading(data, j, n - 1);
      BitIsLeading(data, j + n - 1);
    }
  }

  // ----- reading

  /** The number that stands for pixel `i` in a mode of one channel. */
  function OnlySample(data: seq<byte>, i: nat, bitdepth: nat): nat {
    if bitdepth < 8 then LeadingNumber(data, bitdepth * i, bitdepth) else if i < |data| then data[i] as nat else 0
  }

  /** The pixel has these bytes as its channels. */
  predicate HasChannels(px: Pixel, r: nat, g: nat, b: nat, a: nat) {
    px.r as nat == r && px.g as nat == g && px.b as nat == b && px.a as nat == a
  }

  /** What the bytes at pixel `i` mean: which of them are red, green, blue and alpha, and what a grey or an index means. */
  predicate LaidOut(px: Pixel, data: seq<byte>, i: nat, m: ColorMode) {
    match m.kind
    case RGBA => 4 * i + 4 <= |data| && [px.r, px.g, px.b, px.a] == data[4 * i..4 * i + 4]
    case RGB =>
      && 3 * i + 3 <= |data| && [px.r, px.g, px.b] == data[3 * i..3 * i + 3]
      && px.a == if m.keyDefined && [px.r as nat, px.g as nat, px.b as nat] == [m.keyR, m.keyG, m.keyB] then 0 else 255
    case GREY_ALPHA => 2 * i + 2 <= |data| && HasChannels(px, data[2 * i], data[2 * i], data[2 * i], data[2 * i + 1])
    case GREY =>
      var v := OnlySample(data, i, m.bitdepth);
      var g := v * if m.bitdepth == 1 then 255 else if m.bitdepth == 2 then 85 else if m.bitdepth == 4 then 17 else 1;
      HasChannels(px, g, g, g, if m.keyDefined && v == m.keyR then 0 else 255)
    case PALETTE =>
      var v := OnlySample(data, i, m.bitdepth);
      if v < |m.palette| then px == m.palette[v] else HasChannels(px, 0, 0, 0, 255)
  }

  lemma OnlySampleIs(data: seq<byte>, i: nat, m: ColorMode)
    requires ModeOk(m) && Within(data, i, m) && Channels(m.kind) == 1
    ensures SamplesAt(data, i, m) == [OnlySample(data, i, m.bitdepth)]
  {
    hide ReadBits, LeadingNumber;
    if m.bitdepth < 8 {
      BitsAreLeading(data, m.bitdepth * i, m.bitdepth);
    }
  }

  lemma GreyScale(v: nat, bitdepth: nat)
    requires v <= Highest(bitdepth) && (bitdepth == 1 || bitdepth == 2 || bitdepth == 4 || bitdepth == 8)
    ensures Grey(v, bitdepth) as nat
         == v * if bitdepth == 1 then 255 else if bitdepth == 2 then 85 else if bitdepth == 4 then 17 else 1
  {
  }

  /** The pixel that is read has the channels that stand there. */
  lemma PixelLayout(data: seq<byte>, i: nat, m: ColorMode)
    requires ModeOk(m) && Within(data, i, m)
    ensures LaidOut(PixelAt(data, i, m), data, i, m)
  {
    hide ReadBits, LeadingNumber, OnlySample, Grey;
    if m.kind.GREY? || m.kind.PALETTE? {
      OnlySampleIs(data, i, m);
      assert SamplesOk(m, SamplesAt(data, i, m)) && SamplesAt(data, i, m)[0] <= Highest(m.bitdepth);
      if m.kind.GREY? {
        GreyScale(SamplesAt(data, i, m)[0], m.bitdepth);
      }
    }
  }

  // ----- writing

  /**
    How a pixel is stored: its bytes in this order, its red for the grey of a mode that has one channel, of which only
    the leading bits are kept if there is no room for more, or its index in the palette.
   */
  predicate StoredAs(out: seq<byte>, k: nat, m: ColorMode, px: Pixel, palette: seq<Pixel>) {
    match m.kind
    case RGBA => 4 * k + 4 <= |out| && out[4 * k..4 * k + 4] == [px.r, px.g, px.b, px.a]
    case RGB => 3 * k + 3 <= |out| && out[3 * k..3 * k + 3] == [px.r, px.g, px.b]
    case GREY_ALPHA => 2 * k + 2 <= |out| && out[2 * k..2 * k + 2] == [px.r, px.a]
    case GREY =>
      OnlySample(out, k, m.bitdepth)
      == px.r as nat / if m.bitdepth == 1 then 128 else if m.bitdepth == 2 then 64 else if m.bitdepth == 4 then 16 else 1
    case PALETTE =>
      var index := OnlySample(out, k, m.bitdepth);
      index < |palette| && palette[index] == px
  }

  lemma LeadingBits(v: byte)
    ensures Low(Shr(v, 7), 1) == v / 128 && Low(Shr(v, 6), 2) == v / 64 && Low(Shr(v, 4), 4) == v / 16
  {
    hide Shr, Low;
    ShrLarge(v);
    Pow2Values();
    LowSmall(v / 128, 1);
    LowSmall(v / 64, 2);
    LowSmall(v / 16, 4);
  }

  /** A pixel whose samples are stored at `k` is stored there as it should. */
  lemma StoredLayout(out: seq<byte>, k: nat, m: ColorMode, px: Pixel, index: nat, palette: seq<Pixel>)
    requires ModeOk(m) && Within(out, k, m) && SamplesAt(out, k, m) == Samples(m, px, index)
    requires m.kind.PALETTE? ==> index < |palette| && palette[index] == px
    ensures StoredAs(out, k, m, px, palette)
  {
    hide ReadBits, LeadingNumber, OnlySample, Shr, Low;
    if m.kind.GREY? || m.kind.PALETTE? {
      OnlySampleIs(out, k, m);
      assert OnlySample(out, k, m.bitdepth) == Samples(m, px, index)[0];
      LeadingBits(px.r);
    } else {
      var s := SamplesAt(out, k, m);
      assert forall i :: 0 <= i < |s| ==> s[i] == Samples(m, px, index)[i];
    }
  }
}
