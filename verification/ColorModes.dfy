/**
  Colour modes of up to eight bits per channel: how pixels are stored, and conversion from one mode to another.
 */
module ColorModes {
  import opened Bits
  import opened Modular
  import opened ColorTrees
  import PaddingBits

  datatype ColorType = GREY | RGB | PALETTE | GREY_ALPHA | RGBA

  datatype ColorMode = ColorMode(kind: ColorType, bitdepth: nat, keyDefined: bool, keyR: nat, keyG: nat, keyB: nat,
                                 palette: seq<Pixel>)

  const RGBA8: ColorMode := ColorMode(RGBA, 8, false, 0, 0, 0, [])

  /** A colour type and bit depth that go together, of those with at most eight bits. */
  predicate ModeOk(m: ColorMode) {
    && (m.bitdepth == 8 || ((m.kind.GREY? || m.kind.PALETTE?) && (m.bitdepth == 1 || m.bitdepth == 2 || m.bitdepth == 4)))
    && |m.palette| <= 256
  }

  function Channels(k: ColorType): (n: nat)
    ensures 1 <= n <= 4
  {
    match k
    case GREY => 1
    case RGB => 3
    case PALETTE => 1
    case GREY_ALPHA => 2
    case RGBA => 4
  }

  function Bpp(m: ColorMode): nat {
    Channels(m.kind) * m.bitdepth
  }

  /** Bytes of `n` pixels, without padding of lines. */
  function RawSize(n: nat, m: ColorMode): nat {
    n / 8 * Bpp(m) + (n % 8 * Bpp(m) + 7) / 8
  }

  // ----- the samples of a pixel

  /** Some bits, most significant first. */
  function ReadBits(data: seq<byte>, j: nat, n: nat): (v: nat)
    requires j + n <= 8 * |data|
    ensures v < Pow2(n)
    decreases n
  {
    if n == 0 then 0 else 2 * ReadBits(data, j, n - 1) + PaddingBits.ReversedBit(data, j + n - 1)
  }

  /** Pixel `i` lies within the data. */
  predicate Within(data: seq<byte>, i: nat, m: ColorMode)
    requires ModeOk(m)
  {
    if m.bitdepth == 8 then Channels(m.kind) * i + Channels(m.kind) <= |data| else m.bitdepth * i + m.bitdepth <= 8 * |data|
  }

  /** The largest value of so many bits. */
  function Highest(bitdepth: nat): (n: nat)
    ensures 0 < n < 256
  {
    if bitdepth == 1 then 1 else if bitdepth == 2 then 3 else if bitdepth == 4 then 15 else 255
  }

  lemma HighestIs(bitdepth: nat)
    requires bitdepth == 1 || bitdepth == 2 || bitdepth == 4 || bitdepth == 8
    ensures Highest(bitdepth) == Pow2(bitdepth) - 1
  {
    Pow2Values();
  }

  predicate SamplesOk(m: ColorMode, s: seq<nat>) {
    |s| == Channels(m.kind) && forall k :: 0 <= k < |s| ==> s[k] <= Highest(m.bitdepth)
  }

  function SamplesAt(data: seq<byte>, i: nat, m: ColorMode): (s: seq<nat>)
    requires ModeOk(m) && Within(data, i, m)
    ensures SamplesOk(m, s)
  {
    HighestIs(m.bitdepth);
    if m.bitdepth < 8 then [ReadBits(data, m.bitdepth * i, m.bitdepth)]
    else
      var at := Channels(m.kind) * i;
      match m.kind
      case GREY => [data[at]]
      case PALETTE => [data[at]]
      case GREY_ALPHA => [data[at], data[at + 1]]
      case RGB => [data[at], data[at + 1], data[at + 2]]
      case RGBA => [data[at], data[at + 1], data[at + 2], data[at + 3]]
  }

  /** Palette entries that are not there are opaque black. */
  function PaletteColor(m: ColorMode, index: nat): Pixel {
    if index < |m.palette| then m.palette[index] else Pixel(0, 0, 0, 255)
  }

  function Opacity(transparent: bool): byte {
    if transparent then 0 else 255
  }

  lemma ScaledFits(v: nat, highest: nat)
    requires v <= highest && highest > 0
    ensures v * 255 / highest <= 255
  {
    assert v * 255 <= 255 * highest;
    if v * 255 / highest >= 256 {
      MulMono(256, v * 255 / highest, highest);
    }
  }

  /** The grey of a sample. */
  function Grey(v: nat, bitdepth: nat): (g: byte)
    requires v <= Highest(bitdepth)
  {
    ScaledFits(v, Highest(bitdepth));
    v * 255 / Highest(bitdepth)
  }

  /** What the samples of a pixel show. */
  function Shown(m: ColorMode, s: seq<nat>): Pixel
    requires SamplesOk(m, s)
  {
    match m.kind
    case GREY =>
      var g := Grey(s[0], m.bitdepth);
      Pixel(g, g, g, Opacity(m.keyDefined && s[0] == m.keyR))
    case RGB => Pixel(s[0], s[1], s[2], Opacity(m.keyDefined && s[0] == m.keyR && s[1] == m.keyG && s[2] == m.keyB))
    case PALETTE => PaletteColor(m, s[0])
    case GREY_ALPHA => Pixel(s[0], s[0], s[0], s[1])
    case RGBA => Pixel(s[0], s[1], s[2], s[3])
  }

  function PixelAt(data: seq<byte>, i: nat, m: ColorMode): Pixel
    requires ModeOk(m) && Within(data, i, m)
  {
    Shown(m, SamplesAt(data, i, m))
  }

  /** The samples that stand for a pixel, given its index in the palette. */
  function Samples(m: ColorMode, px: Pixel, index: nat): (s: seq<nat>)
    requires ModeOk(m)
    ensures |s| == Channels(m.kind)
  {
    match m.kind
    case GREY => [if m.bitdepth == 8 then px.r else Low(Shr(px.r, 8 - m.bitdepth), m.bitdepth)]
    case RGB => [px.r, px.g, px.b]
    case PALETTE => [index]
    case GREY_ALPHA => [px.r, px.a]
    case RGBA => [px.r, px.g, px.b, px.a]
  }

  // ----- groups of bits in a byte

  lemma {:induction false} ReadInByte(data: seq<byte>, b: nat, off: nat, n: nat)
    requires b < |data| && off + n <= 8
    ensures ReadBits(data, 8 * b + off, n) == Low(Shr(data[b], 8 - off - n), n)
    decreases n
  {
    if n > 0 {
      var t := 8 - off - n;
      ReadInByte(data, b, off, n - 1);
      ShrShr(data[b], t, 1);
      assert Shr(data[b], t + 1) == Shr(data[b], t) / 2;
      var k := 8 * b + off + n - 1;
      assert k / 8 == b && k % 8 == off + n - 1;
    }
  }

  /** Bitwise or. */
  function Or(a: nat, b: nat): nat
    decreases a + b
  {
    if a == 0 then b else if b == 0 then a
    else 2 * Or(a / 2, b / 2) + if a % 2 == 1 || b % 2 == 1 then 1 else 0
  }

  lemma {:induction false} OrDisjoint(a: nat, b: nat, k: nat)
    requires Low(a, k) == 0 && b < Pow2(k)
    ensures Or(a, b) == a + b
    decreases k
  {
    if a > 0 && b > 0 {
      OrDisjoint(a / 2, b / 2, k - 1);
    }
  }

  /** A group of `d` bits put at bit `s` of a byte that has no bits below. */
  lemma GroupAdded(x: nat, v: nat, s: nat, d: nat)
    requires Low(x, s + d) == 0 && v < Pow2(d)
    ensures var x' := x + Shl(v, s);
            Shr(x', s + d) == Shr(x, s + d) && Low(Shr(x', s), d) == v && Low(x', s) == 0
  {
    hide Shl, Shr, Low, Pow2;
    var y := Shr(x, s + d);
    SplitAt(x, s + d);
    ShlShl(y, d, s);
    ShlAdd(Shl(y, d), v, s);
    Pow2Positive(s);
    SplitUnique(Shl(y, d) + v, 0, s);
    SplitUnique(y, v, d);
    ShrShr(x + Shl(v, s), s, d);
  }

  lemma Pow2Positive(k: nat)
    ensures 0 < Pow2(k)
  {
  }

  /** The byte stays a byte. */
  lemma GroupFits(x: nat, v: nat, s: nat, d: nat)
    requires x < 256 && Low(x, s + d) == 0 && v < Pow2(d) && s + d <= 8
    ensures x + Shl(v, s) < 256 && Shl(v, s) < Pow2(s + d)
  {
    hide Shl, Shr, Low, Pow2;
    var y := Shr(x, s + d);
    Pow2Values();
    ShrBound(x, s + d, 8 - s - d);
    SplitAt(x, s + d);
    ShlStep(y, Pow2(8 - s - d), s + d);
    ShlPow2(8 - s - d, s + d);
    ShlStep(v, Pow2(d), s);
    ShlPow2(d, s);
    Pow2Positive(s);
  }

  // ----- writing pixels of less than a byte

  /** Where group `i` of `d` bits is. */
  lemma GroupPlace(i: nat, d: nat)
    requires d == 1 || d == 2 || d == 4
    ensures var p := i % (8 / d);
            d * i == 8 * (i * d / 8) + d * p && d * p + d <= 8 && i * d / 8 == i / (8 / d)
  {
  }

  /** The bits of the byte in which group `n` is, from that group on, are clear. */
  predicate ClearFrom(out: seq<byte>, n: nat, d: nat)
    requires d == 1 || d == 2 || d == 4
  {
    var p := n % (8 / d);
    p > 0 ==> n * d / 8 < |out| && Low(out[n * d / 8], 8 - d * p) == 0
  }

  /** `out` with value `v` as group `i`. */
  function WithGroup(out: seq<byte>, i: nat, d: nat, v: nat): (r: seq<byte>)
    requires (d == 1 || d == 2 || d == 4) && i * d / 8 < |out| && ClearFrom(out, i, d)
    ensures |r| == |out|
  {
    GroupByte(out, i, d, v);
    var p, at := i % (8 / d), i * d / 8;
    var group := Shl(Low(v, d), 8 - d * p - d);
    out[at := if p == 0 then group else Or(out[at], group)]
  }

  lemma GroupByte(out: seq<byte>, i: nat, d: nat, v: nat)
    requires (d == 1 || d == 2 || d == 4) && i * d / 8 < |out| && ClearFrom(out, i, d)
    ensures var p, at := i % (8 / d), i * d / 8;
            var s := 8 - d * p - d;
            var group := Shl(Low(v, d), s);
            var x := if p == 0 then 0 else out[at];
            && s >= 0 && group < 256 && Low(x, s + d) == 0 && x + group < 256
            && (p > 0 ==> Or(out[at], group) == x + group)
  {
    hide Shl, Low, Or;
    GroupPlace(i, d);
    var p, at := i % (8 / d), i * d / 8;
    var s := 8 - d * p - d;
    var x := if p == 0 then 0 else out[at];
    LowOfZero(s + d);
    SplitAt(v, d);
    GroupFits(x, Low(v, d), s, d);
    if p > 0 {
      OrDisjoint(x, Shl(Low(v, d), s), s + d);
    }
  }

  lemma {:induction false} LowOfZero(k: nat)
    ensures Low(0, k) == 0
  {
    if k > 0 {
      LowOfZero(k - 1);
    }
  }

  /** Group `k` of `d` bits, read as a part of its byte. */
  lemma GroupRead(data: seq<byte>, k: nat, d: nat)
    requires (d == 1 || d == 2 || d == 4) && d * k + d <= 8 * |data|
    ensures var p := k % (8 / d);
            && k * d / 8 < |data| && d * p + d <= 8
            && ReadBits(data, d * k, d) == Low(Shr(data[k * d / 8], 8 - d * p - d), d)
  {
    hide Low, Shr, ReadBits;
    GroupPlace(k, d);
    ReadInByte(data, k * d / 8, d * (k % (8 / d)), d);
  }

  /** An earlier group of the same byte is above the bits that are changed. */
  lemma EarlierGroup(x: nat, x': nat, t: nat, t': nat, d: nat)
    requires t' >= t && Shr(x', t) == Shr(x, t)
    ensures Low(Shr(x', t'), d) == Low(Shr(x, t'), d)
  {
    hide Low, Shr;
    ShrShr(x, t, t' - t);
    ShrShr(x', t, t' - t);
  }

  lemma SameByte(k: nat, i: nat, d: nat)
    requires (d == 1 || d == 2 || d == 4) && k < i
    ensures k * d / 8 == i * d / 8 ==> k % (8 / d) < i % (8 / d)
    ensures d * (k % (8 / d)) + d <= d * (i % (8 / d)) || k * d / 8 != i * d / 8
  {
  }

  /** Writing group `i` leaves the groups before it, and those after it in its byte clear. */
  lemma WithGroupReads(out: seq<byte>, i: nat, d: nat, v: nat, k: nat)
    requires (d == 1 || d == 2 || d == 4) && d * i + d <= 8 * |out| && i * d / 8 < |out| && ClearFrom(out, i, d) && k <= i
    ensures d * k + d <= 8 * |out|
    ensures ReadBits(WithGroup(out, i, d, v), d * k, d) == if k == i then Low(v, d) else ReadBits(out, d * k, d)
  {
    hide Low, Shr, Shl, ReadBits, Or;
    var r, p := WithGroup(out, i, d, v), i % (8 / d);
    GroupPlace(i, d);
    GroupPlace(k, d);
    GroupRead(out, k, d);
    GroupRead(r, k, d);
    GroupByte(out, i, d, v);
    SplitAt(v, d);
    var s, at := 8 - d * p - d, i * d / 8;
    var x := if p == 0 then 0 else out[at];
    GroupAdded(x, Low(v, d), s, d);
    if k < i && k * d / 8 == at {
      SameByte(k, i, d);
      EarlierGroup(x, r[at], s + d, 8 - d * (k % (8 / d)) - d, d);
    }
  }

  lemma WithGroupClear(out: seq<byte>, i: nat, d: nat, v: nat)
    requires (d == 1 || d == 2 || d == 4) && i * d / 8 < |out| && ClearFrom(out, i, d)
    ensures ClearFrom(WithGroup(out, i, d, v), i + 1, d)
  {
    hide Low, Shr, Shl, Or;
    var p := i % (8 / d);
    GroupPlace(i, d);
    GroupPlace(i + 1, d);
    GroupByte(out, i, d, v);
    SplitAt(v, d);
    var s, at := 8 - d * p - d, i * d / 8;
    GroupAdded(if p == 0 then 0 else out[at], Low(v, d), s, d);
    NextGroup(i, d);
  }

  lemma NextGroup(i: nat, d: nat)
    requires d == 1 || d == 2 || d == 4
    ensures var p, p' := i % (8 / d), (i + 1) % (8 / d);
            p' > 0 ==> p' == p + 1 && (i + 1) * d / 8 == i * d / 8
  {
  }
}
