/**
  Bits, bytes and the two orders in which DEFLATE packs numbers into bits
  (section 3.1.1 of RFC 1951): least significant bit first for plain numbers,
  most significant bit first for Huffman codes.

  Shifts and masks are defined one bit at a time, which keeps every proof about
  them linear.
 */
module Bits {

  type bit = x: int | 0 <= x <= 1
  type byte = x: int | 0 <= x < 256

  /** v << k, without a word size. */
  function Shl(v: nat, k: nat): (r: nat) {
    if k == 0 then v else 2 * Shl(v, k - 1)
  }

  /** v >> k. */
  function Shr(v: nat, k: nat): (r: nat) {
    if k == 0 then v else Shr(v / 2, k - 1)
  }

  /** v & ((1 << k) - 1). */
  function Low(v: nat, k: nat): (r: nat) {
    if k == 0 then 0 else v % 2 + 2 * Low(v / 2, k - 1)
  }

  /** 1 << k. */
  function Pow2(k: nat): (r: nat)
    ensures r >= 1
  {
    if k == 0 then 1 else 2 * Pow2(k - 1)
  }

  /** The number whose bits, least significant first, are `bits`. */
  function Lsb(bits: seq<bit>): (v: nat)
    ensures v < Pow2(|bits|)
  {
    if bits == [] then 0 else bits[0] + 2 * Lsb(bits[1..])
  }

  /** The number whose bits, most significant first, are `bits`. */
  function Msb(bits: seq<bit>): (v: nat)
    ensures v < Pow2(|bits|)
  {
    if bits == [] then 0 else 2 * Msb(bits[..|bits| - 1]) + bits[|bits| - 1]
  }

  /** The `n` low bits of `v`, least significant first. */
  function LsbBits(v: nat, n: nat): (bits: seq<bit>)
    ensures |bits| == n
  {
    if n == 0 then [] else [v % 2] + LsbBits(v / 2, n - 1)
  }

  /** The `n` low bits of `v`, most significant first. */
  function MsbBits(v: nat, n: nat): (bits: seq<bit>)
    ensures |bits| == n
  {
    if n == 0 then [] else MsbBits(v / 2, n - 1) + [v % 2]
  }

  // ----- shifts

  lemma {:induction false} ShlAdd(a: nat, b: nat, k: nat)
    ensures Shl(a + b, k) == Shl(a, k) + Shl(b, k)
  {
    if k > 0 {
      ShlAdd(a, b, k - 1);
    }
  }

  lemma {:induction false} ShlShl(v: nat, a: nat, b: nat)
    ensures Shl(Shl(v, a), b) == Shl(v, a + b)
  {
    if b > 0 {
      ShlShl(v, a, b - 1);
    }
  }

  lemma {:induction false} ShlIsPow2(k: nat)
    ensures Shl(1, k) == Pow2(k) && Shl(0, k) == 0
  {
    if k > 0 {
      ShlIsPow2(k - 1);
    }
  }

  lemma {:induction false} ShlPow2(a: nat, k: nat)
    ensures Shl(Pow2(a), k) == Pow2(a + k)
  {
    if k > 0 {
      ShlPow2(a, k - 1);
    }
  }

  lemma {:induction false} ShlMono(a: nat, b: nat, k: nat)
    requires a <= b
    ensures Shl(a, k) <= Shl(b, k)
  {
    if k > 0 {
      ShlMono(a, b, k - 1);
    }
  }

  lemma ShlStep(a: nat, b: nat, k: nat)
    requires a < b
    ensures Shl(a, k) + Pow2(k) <= Shl(b, k)
  {
    ShlAdd(a, 1, k);
    ShlIsPow2(k);
    ShlMono(a + 1, b, k);
  }

  /** A number is its high part shifted up plus its low part. */
  lemma {:induction false} SplitAt(v: nat, k: nat)
    ensures v == Shl(Shr(v, k), k) + Low(v, k)
    ensures Low(v, k) < Pow2(k)
  {
    if k > 0 {
      SplitAt(v / 2, k - 1);
    }
  }

  lemma {:induction false} SplitUnique(hi: nat, lo: nat, k: nat)
    requires lo < Pow2(k)
    ensures var v := Shl(hi, k) + lo; Shr(v, k) == hi && Low(v, k) == lo
  {
    if k > 0 {
      SplitUnique(hi, lo / 2, k - 1);
      var v := Shl(hi, k) + lo;
      assert v / 2 == Shl(hi, k - 1) + lo / 2 && v % 2 == lo % 2;
    }
  }

  /** Shifting down is taking the quotient: the result brackets the number. */
  lemma ShrBracket(v: nat, k: nat, q: nat)
    ensures Shr(v, k) == q <==> Shl(q, k) <= v < Shl(q + 1, k)
  {
    SplitAt(v, k);
    ShlAdd(q, 1, k);
    ShlIsPow2(k);
    if Shl(q, k) <= v < Shl(q + 1, k) {
      SplitUnique(q, v - Shl(q, k), k);
    }
  }

  lemma {:induction false} ShrShr(v: nat, a: nat, b: nat)
    ensures Shr(Shr(v, a), b) == Shr(v, a + b)
  {
    if a > 0 {
      ShrShr(v / 2, a - 1, b);
    }
  }

  /** Shifts of a byte as divisions. */
  lemma ShrSmall(v: nat)
    ensures Shr(v, 0) == v && Shr(v, 1) == v / 2 && Shr(v, 2) == v / 4 && Shr(v, 3) == v / 8
  {
    assert Shr(v, 2) == Shr(v / 2, 1) && Shr(v, 3) == Shr(v / 2, 2) == Shr(v / 2 / 2, 1);
  }

  lemma ShrLarge(v: nat)
    ensures Shr(v, 4) == v / 16 && Shr(v, 5) == v / 32 && Shr(v, 6) == v / 64 && Shr(v, 7) == v / 128
  {
    hide Shr;
    ShrSmall(v);
    ShrSmall(v / 8);
    ShrSmall(v / 64);
    ShrShr(v, 3, 1);
    ShrShr(v, 3, 2);
    ShrShr(v, 3, 3);
    ShrShr(v, 6, 1);
    assert v / 8 / 2 == v / 16 && v / 8 / 4 == v / 32 && v / 8 / 8 == v / 64 && v / 64 / 2 == v / 128;
  }

  lemma {:induction false} ShrBound(v: nat, k: nat, n: nat)
    requires v < Pow2(n + k)
    ensures Shr(v, k) < Pow2(n)
  {
    if k > 0 {
      ShrBound(v / 2, k - 1, n);
    }
  }

  lemma {:induction false} LowSmall(v: nat, k: nat)
    requires v < Pow2(k)
    ensures Low(v, k) == v && Shr(v, k) == 0
  {
    if k > 0 {
      LowSmall(v / 2, k - 1);
    }
  }

  lemma LowHalves(v: nat, k: nat)
    requires k > 0
    ensures Low(v, k) % 2 == v % 2 && Low(v, k) / 2 == Low(v / 2, k - 1)
  {
    var l := Low(v / 2, k - 1);
    assert Low(v, k) == v % 2 + 2 * l;
  }

  lemma {:induction false} LowLow(v: nat, a: nat, b: nat)
    requires b <= a
    ensures Low(Low(v, a), b) == Low(v, b)
  {
    if b > 0 {
      LowHalves(v, a);
      LowLow(v / 2, a - 1, b - 1);
    }
  }

  /** Truncating a shifted number. */
  lemma {:induction false} LowShl(v: nat, a: nat, n: nat)
    requires a <= n
    ensures Low(Shl(v, a), n) == Shl(Low(v, n - a), a)
  {
    if a > 0 {
      LowShl(v, a - 1, n - 1);
    }
  }

  lemma {:induction false} Pow2Mono(a: nat, b: nat)
    requires a <= b
    ensures Pow2(a) <= Pow2(b)
  {
    if a < b {
      Pow2Mono(a, b - 1);
    }
  }

  lemma Pow2Values()
    ensures Pow2(0) == 1 && Pow2(1) == 2 && Pow2(2) == 4 && Pow2(3) == 8 && Pow2(4) == 16
    ensures Pow2(5) == 32 && Pow2(6) == 64 && Pow2(7) == 128 && Pow2(8) == 256 && Pow2(9) == 512
    ensures Pow2(10) == 1024 && Pow2(11) == 2048 && Pow2(12) == 4096 && Pow2(13) == 8192
    ensures Pow2(14) == 16384 && Pow2(15) == 32768 && Pow2(16) == 65536
  {
    assert Pow2(4) == 16;
    assert Pow2(8) == 256;
    assert Pow2(12) == 4096;
  }

  // ----- bit sequences and numbers

  lemma {:induction false} LsbConcat(a: seq<bit>, b: seq<bit>)
    ensures Lsb(a + b) == Lsb(a) + Shl(Lsb(b), |a|)
  {
    if a == [] {
      assert a + b == b;
    } else {
      assert (a + b)[1..] == a[1..] + b;
      LsbConcat(a[1..], b);
    }
  }

  /** Shifting right drops the first bits, masking keeps them. */
  lemma {:induction false} LsbSplit(bits: seq<bit>, k: nat)
    requires k <= |bits|
    ensures Shr(Lsb(bits), k) == Lsb(bits[k..])
    ensures Low(Lsb(bits), k) == Lsb(bits[..k])
  {
    if k > 0 {
      LsbSplit(bits[1..], k - 1);
      assert bits[1..][k - 1..] == bits[k..];
      assert bits[..k][1..] == bits[1..][..k - 1];
    }
  }

  lemma {:induction false} LsbBitsAt(v: nat, n: nat, i: nat)
    requires i < n
    ensures LsbBits(v, n)[i] == Shr(v, i) % 2
  {
    if i > 0 {
      LsbBitsAt(v / 2, n - 1, i - 1);
    }
  }

  lemma {:induction false} MsbBitsAt(v: nat, n: nat, i: nat)
    requires i < n
    ensures MsbBits(v, n)[i] == Shr(v, n - 1 - i) % 2
  {
    if i < n - 1 {
      MsbBitsAt(v / 2, n - 1, i);
    }
  }

  lemma {:induction false} LsbOfLsbBits(v: nat, n: nat)
    ensures Lsb(LsbBits(v, n)) == Low(v, n)
  {
    if n > 0 {
      LsbOfLsbBits(v / 2, n - 1);
    }
  }

  lemma {:induction false} LsbBitsOfLsb(bits: seq<bit>)
    ensures LsbBits(Lsb(bits), |bits|) == bits
  {
    if bits != [] {
      LsbBitsOfLsb(bits[1..]);
    }
  }

  lemma {:induction false} MsbBitsOfMsb(bits: seq<bit>)
    ensures MsbBits(Msb(bits), |bits|) == bits
  {
    if bits != [] {
      MsbBitsOfMsb(bits[..|bits| - 1]);
    }
  }

  lemma {:induction false} MsbOfMsbBits(v: nat, n: nat)
    ensures Msb(MsbBits(v, n)) == Low(v, n)
  {
    if n > 0 {
      MsbOfMsbBits(v / 2, n - 1);
      var bits := MsbBits(v, n);
      assert bits[..n - 1] == MsbBits(v / 2, n - 1) && bits[n - 1] == v % 2;
    }
  }

  /** The first bits of a number read most significant first are its quotient. */
  lemma {:induction false} MsbPrefix(bits: seq<bit>, k: nat)
    requires k <= |bits|
    ensures Msb(bits[..k]) == Shr(Msb(bits), |bits| - k)
  {
    if k == |bits| {
      assert bits[..k] == bits;
    } else {
      var n := |bits| - 1;
      MsbPrefix(bits[..n], k);
      assert bits[..n][..k] == bits[..k];
    }
  }

  /** Numbers with equal bits are equal, in either order. */
  lemma LsbInjective(a: seq<bit>, b: seq<bit>)
    requires |a| == |b| && Lsb(a) == Lsb(b)
    ensures a == b
  {
    LsbBitsOfLsb(a);
    LsbBitsOfLsb(b);
  }

  // ----- byte buffers as bit sequences

  /** Bit `k` of a byte buffer, first bit of each byte least significant. */
  function BitAt(data: seq<byte>, k: nat): bit
    requires k < 8 * |data|
  {
    Shr(data[k / 8], k % 8) % 2
  }

  function BitsOf(data: seq<byte>): (bits: seq<bit>)
    ensures |bits| == 8 * |data|
    ensures forall k :: 0 <= k < |bits| ==> bits[k] == BitAt(data, k)
  {
    seq<bit>(8 * |data|, k requires 0 <= k < 8 * |data| => BitAt(data, k))
  }

  function PaddedBitAt(data: seq<byte>, k: nat): bit {
    if k < 8 * |data| then BitAt(data, k) else 0
  }

  /** The `n` bits from position `p` on, reading zeros past the end of the buffer. */
  function Peek(data: seq<byte>, p: nat, n: nat): (bits: seq<bit>)
    ensures |bits| == n
    ensures forall i :: 0 <= i < n ==> bits[i] == PaddedBitAt(data, p + i)
  {
    seq<bit>(n, i requires 0 <= i < n => PaddedBitAt(data, p + i))
  }

  lemma PeekInside(data: seq<byte>, p: nat, n: nat)
    requires p + n <= 8 * |data|
    ensures Peek(data, p, n) == BitsOf(data)[p..p + n]
  {
  }

  lemma PeekSplit(data: seq<byte>, p: nat, n: nat, k: nat)
    requires k <= n
    ensures Peek(data, p, n)[..k] == Peek(data, p, k)
    ensures Peek(data, p, n)[k..] == Peek(data, p + k, n - k)
    ensures Peek(data, p, n) == Peek(data, p, k) + Peek(data, p + k, n - k)
  {
  }

  /** Shifting and masking a peeked number. */
  lemma PeekShift(data: seq<byte>, p: nat, n: nat, k: nat)
    requires k <= n
    ensures Shr(Lsb(Peek(data, p, n)), k) == Lsb(Peek(data, p + k, n - k))
    ensures Low(Lsb(Peek(data, p, n)), k) == Lsb(Peek(data, p, k))
  {
    LsbSplit(Peek(data, p, n), k);
    PeekSplit(data, p, n, k);
  }

  lemma PeekConcat(data: seq<byte>, p: nat, n: nat, k: nat)
    requires k <= n
    ensures Lsb(Peek(data, p, n)) == Lsb(Peek(data, p, k)) + Shl(Lsb(Peek(data, p + k, n - k)), k)
  {
    PeekSplit(data, p, n, k);
    LsbConcat(Peek(data, p, k), Peek(data, p + k, n - k));
  }

  lemma PeekByte(data: seq<byte>, i: nat)
    requires i < |data|
    ensures Peek(data, 8 * i, 8) == LsbBits(data[i], 8)
    ensures Lsb(Peek(data, 8 * i, 8)) == data[i]
  {
    forall j: nat | j < 8
      ensures Peek(data, 8 * i, 8)[j] == LsbBits(data[i], 8)[j]
    {
      LsbBitsAt(data[i], 8, j);
      assert (8 * i + j) / 8 == i && (8 * i + j) % 8 == j;
      assert Peek(data, 8 * i, 8)[j] == BitAt(data, 8 * i + j);
    }
    Pow2Values();
    LsbOfLsbBits(data[i], 8);
    LowSmall(data[i], 8);
  }

  lemma {:induction false} PeekPastEnd(data: seq<byte>, p: nat, n: nat)
    requires p >= 8 * |data|
    ensures Lsb(Peek(data, p, n)) == 0
    decreases n
  {
    if n > 0 {
      PeekPastEnd(data, p + 1, n - 1);
      PeekSplit(data, p, n, 1);
    }
  }

  lemma BitsOfConcat(a: seq<byte>, b: seq<byte>)
    ensures BitsOf(a + b) == BitsOf(a) + BitsOf(b)
  {
    forall k: nat | k < 8 * |a + b|
      ensures BitsOf(a + b)[k] == (BitsOf(a) + BitsOf(b))[k]
    {
      if k >= 8 * |a| {
        var j := k - 8 * |a|;
        assert k / 8 == |a| + j / 8 && k % 8 == j % 8;
      }
    }
  }

  lemma BitsOfByte(b: byte)
    ensures BitsOf([b]) == LsbBits(b, 8)
  {
    PeekByte([b], 0);
    PeekInside([b], 0, 8);
  }
}
