/**
  Bits stored most significant first, as pixels of less than a byte are, and the
  padding bits that fill the lines of such an image to whole bytes.
 */
module PaddingBits {
  import opened Sequences
  import opened Options
  import opened Bits
  import opened ScanlineFilter
  import opened ScanlineImage
  import BitStreams

  /** Bit `k` of a buffer, first bit of each byte most significant. */
  function ReversedBit(data: seq<byte>, k: nat): bit
    requires k < 8 * |data|
  {
    Shr(data[k / 8], 7 - k % 8) % 2
  }

  function ReversedBits(data: seq<byte>): (bits: seq<bit>)
    ensures |bits| == 8 * |data|
    ensures forall k :: 0 <= k < |bits| ==> bits[k] == ReversedBit(data, k)
  {
    seq<bit>(8 * |data|, k requires 0 <= k < 8 * |data| => ReversedBit(data, k))
  }

  /** Clearing or setting the bit of weight 2^k. */
  function WithBit(v: byte, k: nat, b: bit): (r: byte)
    requires k < 8
  {
    if Shr(v, k) % 2 == b then v
    else if b == 1 then (BitStreams.AddBitFits(v, k); v + Pow2(k))
    else (TakeBitFits(v, k); v - Pow2(k))
  }

  lemma TakeBitFits(v: byte, k: nat)
    requires Shr(v, k) % 2 == 1
    ensures v >= Pow2(k)
  {
    SplitAt(v, k);
    ShlMono(1, Shr(v, k), k);
    ShlIsPow2(k);
  }

  lemma {:induction false} ShrOfLow(v: nat, k: nat, m: nat)
    requires m < k
    ensures Shr(Low(v, k), m) % 2 == Shr(v, m) % 2
  {
    if m > 0 {
      ShrOfLow(v / 2, k - 1, m - 1);
      assert Low(v, k) / 2 == Low(v / 2, k - 1);
    }
  }

  /** Flipping the bit of weight 2^k leaves the parts above and below it. */
  lemma WithBitParts(v: byte, k: nat, b: bit)
    requires k < 8
    ensures var r := WithBit(v, k, b);
            Shr(r, k) % 2 == b && Shr(r, k) / 2 == Shr(v, k) / 2 && Low(r, k) == Low(v, k)
  {
    hide Shl, Shr, Low, Pow2;
    var hi, lo := Shr(v, k), Low(v, k);
    SplitAt(v, k);
    ShlIsPow2(k);
    if hi % 2 != b {
      if b == 1 {
        ShlAdd(hi, 1, k);
        SplitUnique(hi + 1, lo, k);
      } else {
        ShlAdd(hi - 1, 1, k);
        SplitUnique(hi - 1, lo, k);
      }
    }
  }

  /** Setting one bit of a byte changes no other. */
  lemma WithBitAt(v: byte, k: nat, b: bit, m: nat)
    requires k < 8 && m < 8
    ensures Shr(WithBit(v, k, b), m) % 2 == if m == k then b else Shr(v, m) % 2
  {
    hide Shl, Low, Pow2, WithBit;
    var r := WithBit(v, k, b);
    WithBitParts(v, k, b);
    if m < k {
      ShrOfLow(r, k, m);
      ShrOfLow(v, k, m);
    } else if m > k {
      ShrShr(r, k, m - k);
      ShrShr(v, k, m - k);
      assert Shr(Shr(r, k), m - k) == Shr(Shr(r, k) / 2, m - k - 1);
    }
  }

  /** Sets a bit and advances the bit pointer. */
  method SetBitOfReversedStream(bitpointer: nat, bitstream: array<byte>, b: bit) returns (next: nat)
    requires bitpointer < 8 * bitstream.Length
    modifies bitstream
    ensures next == bitpointer + 1
    ensures ReversedBits(bitstream[..]) == ReversedBits(old(bitstream[..]))[bitpointer := b]
  {
    hide WithBit, Shr;
    SetOneBit(bitstream[..], bitpointer, b);
    bitstream[bitpointer / 8] := WithBit(bitstream[bitpointer / 8], 7 - bitpointer % 8, b);
    next := bitpointer + 1;
  }

  lemma SetOneBit(data: seq<byte>, p: nat, b: bit)
    requires p < 8 * |data|
    ensures ReversedBits(data[p / 8 := WithBit(data[p / 8], 7 - p % 8, b)]) == ReversedBits(data)[p := b]
  {
    hide WithBit, Shr;
    var next := data[p / 8 := WithBit(data[p / 8], 7 - p % 8, b)];
    forall k | 0 <= k < 8 * |data|
      ensures ReversedBit(next, k) == if k == p then b else ReversedBit(data, k)
    {
      WithBitAt(data[p / 8], 7 - p % 8, b, 7 - k % 8);
      if k / 8 == p / 8 && k % 8 == p % 8 {
        assert k == p;
      }
    }
  }

  method ReadBitFromReversedStream(bitpointer: nat, bitstream: array<byte>) returns (b: bit, next: nat)
    requires bitpointer < 8 * bitstream.Length
    ensures b == ReversedBits(bitstream[..])[bitpointer] && next == bitpointer + 1
  {
    b := Shr(bitstream[bitpointer / 8], 7 - bitpointer % 8) % 2;
    next := bitpointer + 1;
  }

  // ----- padded lines

  /** The first `h` lines of `width` bits, each followed by `padding` zero bits. */
  function Padded(bits: seq<bit>, width: nat, padding: nat, h: nat): (r: seq<bit>)
    requires Times(width, h) <= |bits|
    ensures |r| == Times(width + padding, h)
  {
    if h == 0 then []
    else
      var y := h - 1;
      Padded(bits, width, padding, y) + bits[Times(width, y)..Times(width, y) + width] + BitStreams.Zeros(padding)
  }

  /** The first `width` bits of each of `h` lines. */
  function Unpadded(bits: seq<bit>, width: nat, padding: nat, h: nat): (r: seq<bit>)
    requires Times(width + padding, h) <= |bits|
    ensures |r| == Times(width, h)
  {
    if h == 0 then []
    else
      var start := Times(width + padding, h - 1);
      Unpadded(bits, width, padding, h - 1) + bits[start..start + width]
  }

  lemma {:induction false} PaddedPrefix(bits: seq<bit>, width: nat, padding: nat, h: nat, y: nat)
    requires Times(width, h) <= |bits| && y <= h
    ensures Times(width, y) <= |bits| && Times(width + padding, y) <= Times(width + padding, h)
    ensures Padded(bits, width, padding, h)[..Times(width + padding, y)] == Padded(bits, width, padding, y)
    decreases h
  {
    TimesGrows(width, y, h);
    TimesGrows(width + padding, y, h);
    if y < h {
      PaddedPrefix(bits, width, padding, h - 1, y);
      TimesGrows(width + padding, y, h - 1);
    }
  }

  /** The bits of line `y` in the padded form. */
  lemma PaddedLine(bits: seq<bit>, width: nat, padding: nat, h: nat, y: nat)
    requires Times(width, h) <= |bits| && y < h
    ensures Times(width, y) + width <= |bits| && Times(width + padding, y) + width <= Times(width + padding, h)
    ensures Padded(bits, width, padding, h)[Times(width + padding, y)..Times(width + padding, y) + width]
         == bits[Times(width, y)..Times(width, y) + width]
  {
    hide Times;
    OneMore(width, y);
    OneMore(width + padding, y);
    PaddedPrefix(bits, width, padding, h, y);
    PaddedPrefix(bits, width, padding, h, y + 1);
    var start := Times(width + padding, y);
    var all, line := Padded(bits, width, padding, h), bits[Times(width, y)..Times(width, y) + width];
    var more := Padded(bits, width, padding, y + 1);
    assert more == Padded(bits, width, padding, y) + line + BitStreams.Zeros(padding);
    assert more[start..start + width] == line;
    assert all[start..start + width] == all[..Times(width + padding, y + 1)][start..start + width];
  }

  /** Removing padding bits undoes adding them. */
  lemma {:induction false} UnpadPad(bits: seq<bit>, width: nat, padding: nat, h: nat, y: nat)
    requires Times(width, h) <= |bits| && y <= h
    ensures Times(width, y) <= |bits| && Times(width + padding, y) <= Times(width + padding, h)
    ensures Unpadded(Padded(bits, width, padding, h), width, padding, y) == bits[..Times(width, y)]
    decreases y
  {
    hide Padded, Unpadded, Times;
    TimesGrows(width, y, h);
    TimesGrows(width + padding, y, h);
    NothingUnpadded(Padded(bits, width, padding, h), width, padding);
    if y > 0 {
      OneMore(width, y - 1);
      OneMore(width + padding, y - 1);
      UnpadPad(bits, width, padding, h, y - 1);
      PaddedLine(bits, width, padding, h, y - 1);
      UnpadStep(Padded(bits, width, padding, h), width, padding, y - 1);
      assert bits[..Times(width, y)] == bits[..Times(width, y - 1)] + bits[Times(width, y - 1)..Times(width, y)];
    }
  }

  lemma NothingUnpadded(bits: seq<bit>, width: nat, padding: nat)
    ensures Times(width, 0) == Times(width + padding, 0) == 0 && Unpadded(bits, width, padding, 0) == []
  {
  }

  lemma UnpadStep(bits: seq<bit>, width: nat, padding: nat, y: nat)
    requires Times(width + padding, y) + width + padding <= |bits|
    ensures Times(width + padding, y + 1) <= |bits|
    ensures var start := Times(width + padding, y);
            Unpadded(bits, width, padding, y + 1) == Unpadded(bits, width, padding, y) + bits[start..start + width]
  {
  }

  lemma NothingPadded(bits: seq<bit>, width: nat, padding: nat)
    ensures Times(width, 0) == Times(width + padding, 0) == 0 && Padded(bits, width, padding, 0) == []
  {
  }

  lemma PadStep(bits: seq<bit>, width: nat, padding: nat, y: nat)
    requires Times(width, y) + width <= |bits|
    ensures Times(width, y + 1) <= |bits|
    ensures Padded(bits, width, padding, y + 1)
         == Padded(bits, width, padding, y) + bits[Times(width, y)..Times(width, y) + width] + BitStreams.Zeros(padding)
  {
  }

  // ----- moving bits

  /** Appending a bit to those written over a buffer. */
  lemma AppendBit(before: seq<bit>, o: nat, done: seq<bit>, b: bit)
    requires o + |done| < |before|
    ensures Overwritten(before, o, done)[o + |done| := b] == Overwritten(before, o, done + [b])
  {
  }

  /** Copies bits, possibly within one buffer towards its beginning. */
  method CopyBits(out: array<byte>, obp: nat, input: array<byte>, ibp: nat, count: nat,
                  ghost o: nat, ghost before: seq<bit>, ghost done: seq<bit>, ghost input0: seq<bit>)
    requires obp == o + |done| && obp + count <= |before| == 8 * out.Length && ibp + count <= |input0| == 8 * input.Length
    requires ReversedBits(out[..]) == Overwritten(before, o, done)
    requires if out == input then input0 == before && obp <= ibp else ReversedBits(input[..]) == input0
    modifies out
    ensures ReversedBits(out[..]) == Overwritten(before, o, done + input0[ibp..ibp + count])
  {
    hide ReversedBits, Overwritten;
    var o', i' := obp, ibp;
    assert done + input0[ibp..ibp] == done;
    for x := 0 to count
      invariant o' == obp + x && i' == ibp + x && (out != input ==> ReversedBits(input[..]) == input0)
      invariant ReversedBits(out[..]) == Overwritten(before, o, done + input0[ibp..ibp + x])
    {
      var b;
      b, i' := ReadBitFromReversedStream(i', input);
      if out == input {
        BitBehind(before, o, done + input0[ibp..ibp + x], ibp + x);
      }
      assert b == input0[ibp + x];
      AppendBit(before, o, done + input0[ibp..ibp + x], b);
      assert done + input0[ibp..ibp + x] + [b] == done + input0[ibp..ibp + (x + 1)];
      o' := SetBitOfReversedStream(o', out, b);
    }
  }

  lemma BitBehind(before: seq<bit>, o: nat, done: seq<bit>, k: nat)
    requires o + |done| <= k < |before|
    ensures Overwritten(before, o, done)[k] == before[k]
  {
  }

  /** Adds padding bits to lines of `ilinebits` bits; the input starts at byte `p`. */
  method AddPaddingBits(out: array<byte>, input: array<byte>, p: nat, olinebits: nat, ilinebits: nat, h: nat)
    requires out != input && ilinebits <= olinebits
    requires Times(olinebits, h) <= 8 * out.Length && 8 * p + Times(ilinebits, h) <= 8 * input.Length
    modifies out
    ensures ReversedBits(out[..])
         == Overwritten(ReversedBits(old(out[..])), 0,
                        Padded(ReversedBits(input[..])[8 * p..], ilinebits, olinebits - ilinebits, h))
  {
    hide ReversedBits, Overwritten, Padded, Times;
    var diff := olinebits - ilinebits;
    ghost var before, input0 := ReversedBits(out[..]), ReversedBits(input[..]);
    ghost var bits := input0[8 * p..];
    var obp, ibp := 0, 8 * p;
    NothingPadded(bits, ilinebits, diff);
    TimesGrows(olinebits, 0, h);
    NothingOver(before, 0);
    for y := 0 to h
      invariant Times(olinebits, y) <= Times(olinebits, h) && Times(ilinebits, y) <= |bits|
      invariant obp == Times(olinebits, y) && ibp == 8 * p + Times(ilinebits, y)
      invariant ReversedBits(input[..]) == input0
      invariant ReversedBits(out[..]) == Overwritten(before, 0, Padded(bits, ilinebits, diff, y))
    {
      OneMore(ilinebits, y);
      OneMore(olinebits, y);
      TimesGrows(ilinebits, y + 1, h);
      TimesGrows(olinebits, y + 1, h);
      ghost var done := Padded(bits, ilinebits, diff, y);
      CopyBits(out, obp, input, ibp, ilinebits, 0, before, done, input0);
      obp, ibp := obp + ilinebits, ibp + ilinebits;
      ghost var line := input0[8 * p + Times(ilinebits, y)..8 * p + Times(ilinebits, y) + ilinebits];
      assert line == bits[Times(ilinebits, y)..Times(ilinebits, y) + ilinebits];
      ClearBits(out, obp, diff, 0, before, done + line);
      obp := obp + diff;
      PadStep(bits, ilinebits, diff, y);
    }
  }

  /** Writes zero bits. */
  method ClearBits(out: array<byte>, obp: nat, count: nat, ghost o: nat, ghost before: seq<bit>, ghost done: seq<bit>)
    requires obp == o + |done| && obp + count <= |before| == 8 * out.Length
    requires ReversedBits(out[..]) == Overwritten(before, o, done)
    modifies out
    ensures ReversedBits(out[..]) == Overwritten(before, o, done + BitStreams.Zeros(count))
  {
    hide ReversedBits, Overwritten;
    var o' := obp;
    assert done + BitStreams.Zeros(0) == done;
    for x := 0 to count
      invariant o' == obp + x && ReversedBits(out[..]) == Overwritten(before, o, done + BitStreams.Zeros(x))
    {
      AppendBit(before, o, done + BitStreams.Zeros(x), 0);
      assert done + BitStreams.Zeros(x) + [0] == done + BitStreams.Zeros(x + 1);
      o' := SetBitOfReversedStream(o', out, 0);
    }
  }

  lemma NothingOver<T>(before: seq<T>, o: nat)
    requires o <= |before|
    ensures Overwritten(before, o, []) == before
  {
  }

  /** Removes the padding bits of lines of `ilinebits` bits, possibly in place and towards the beginning. */
  method RemovePaddingBits(out: array<byte>, o: nat, input: array<byte>, p: nat, olinebits: nat, ilinebits: nat, h: nat)
    requires olinebits <= ilinebits && (out == input ==> o <= p)
    requires 8 * o + Times(olinebits, h) <= 8 * out.Length && 8 * p + Times(ilinebits, h) <= 8 * input.Length
    modifies out
    ensures ReversedBits(out[..])
         == Overwritten(ReversedBits(old(out[..])), 8 * o,
                        Unpadded(ReversedBits(old(input[..]))[8 * p..], olinebits, ilinebits - olinebits, h))
  {
    hide ReversedBits, Overwritten, Unpadded, Times;
    var diff := ilinebits - olinebits;
    ghost var before, input0 := ReversedBits(out[..]), ReversedBits(input[..]);
    ghost var bits := input0[8 * p..];
    var obp, ibp := 8 * o, 8 * p;
    NothingUnpadded(bits, olinebits, diff);
    TimesGrows(olinebits, 0, h);
    NothingOver(before, 8 * o);
    for y := 0 to h
      invariant Times(olinebits, y) <= Times(olinebits, h) && Times(ilinebits, y) <= |bits|
      invariant obp == 8 * o + Times(olinebits, y) && ibp == 8 * p + Times(ilinebits, y)
      invariant out != input ==> ReversedBits(input[..]) == input0
      invariant ReversedBits(out[..]) == Overwritten(before, 8 * o, Unpadded(bits, olinebits, diff, y))
      invariant Times(olinebits, y) <= Times(ilinebits, y)
    {
      OneMore(ilinebits, y);
      OneMore(olinebits, y);
      TimesGrows(ilinebits, y + 1, h);
      TimesGrows(olinebits, y + 1, h);
      ghost var done := Unpadded(bits, olinebits, diff, y);
      CopyBits(out, obp, input, ibp, olinebits, 8 * o, before, done, input0);
      ghost var line := input0[ibp..ibp + olinebits];
      assert line == bits[Times(ilinebits, y)..Times(ilinebits, y) + olinebits];
      obp, ibp := obp + olinebits, ibp + olinebits;
      ibp := ibp + diff;
      UnpadStep(bits, olinebits, diff, y);
    }
  }
}
