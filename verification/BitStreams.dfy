/**
  The bit writer and the bit reader.  The writer appends to a byte vector and
  fills its last byte from the least significant bit up; the reader keeps a
  shift register that is reloaded from whole bytes.
 */
module BitStreams {
  import opened Bits

  function Zeros(n: nat): (bits: seq<bit>)
    ensures |bits| == n
    ensures forall i :: 0 <= i < n ==> bits[i] == 0
  {
    seq<bit>(n, i => 0)
  }

  lemma {:induction false} LsbOfZeros(n: nat)
    ensures Lsb(Zeros(n)) == 0
  {
    if n > 0 {
      assert Zeros(n)[1..] == Zeros(n - 1);
      LsbOfZeros(n - 1);
    }
  }

  /** Number of unused bits in the last byte after `n` bits were written. */
  function Padding(n: nat): (k: nat)
    ensures k < 8 && (n + k) % 8 == 0
  {
    (8 - n % 8) % 8
  }

  class BitWriter {
    var data: seq<byte>
    var bp: byte  // wraps around; only its value modulo 8 matters
    ghost var bits: seq<bit>  // everything in the vector so far

    ghost predicate Valid()
      reads this
    {
      && bp % 8 == |bits| % 8
      && BitsOf(data) == bits + Zeros(Padding(|bits|))
    }

    /** Starts after the bytes already in the vector. */
    constructor (initial: seq<byte>)
      ensures Valid() && data == initial && bits == BitsOf(initial)
    {
      data, bp := initial, 0;
      bits := BitsOf(initial);
    }

    method WriteBit(b: bit)
      requires Valid()
      modifies this
      ensures Valid() && bits == old(bits) + [b]
    {
      hide BitsOf, Zeros, SetBit, Shr;
      var k := bp % 8;
      if k == 0 {
        AppendByte(data, bits);
        data := data + [0];
      }
      assert BitsOf(data) == bits + Zeros(8 - k);
      FillBit(data, bits, k, b);
      data := data[|data| - 1 := SetBit(data[|data| - 1], k, b)];
      bits, bp := bits + [b], (bp + 1) % 256;
      assert BitsOf(data) == bits + Zeros(7 - k);
      NextPosition(old(bp), old(|bits|));
    }

    /** Least significant bit of the value first. */
    method WriteBits(value: nat, nbits: nat)
      requires Valid()
      requires nbits == 1 ==> value < 2  // a single bit is written unmasked
      modifies this
      ensures Valid() && bits == old(bits) + LsbBits(value, nbits)
    {
      if nbits == 1 {
        WriteBit(value);
        assert LsbBits(value, 1) == [value];
      } else {
        var i := 0;
        while i != nbits
          invariant i <= nbits && Valid()
          invariant bits == old(bits) + LsbBits(value, nbits)[..i]
        {
          LsbBitsAt(value, nbits, i);
          WriteBit(Shr(value, i) % 2);
          i := i + 1;
        }
      }
    }

    /** Most significant bit of the value first, as Huffman codes are stored. */
    method WriteBitsReversed(value: nat, nbits: nat)
      requires Valid()
      modifies this
      ensures Valid() && bits == old(bits) + MsbBits(value, nbits)
    {
      var i := 0;
      while i != nbits
        invariant i <= nbits && Valid()
        invariant bits == old(bits) + MsbBits(value, nbits)[..i]
      {
        MsbBitsAt(value, nbits, i);
        WriteBit(Shr(value, nbits - 1 - i) % 2);
        i := i + 1;
      }
    }
  }

  /** The 8-bit bit pointer still counts modulo 8 when it wraps. */
  lemma NextPosition(bp: byte, n: nat)
    requires bp % 8 == n % 8
    ensures ((bp + 1) % 256) % 8 == (n + 1) % 8
    ensures Padding(n + 1) == 7 - bp % 8
  {
    NextModulo8(bp);
    NextModulo8(n);
  }

  lemma NextModulo8(a: nat)
    ensures (a + 1) % 8 == if a % 8 == 7 then 0 else a % 8 + 1
  {
  }

  /** OR-ing a bit into position `k` of a byte. */
  function SetBit(v: byte, k: nat, b: bit): (r: byte)
    requires k < 8
  {
    if Shr(v, k) % 2 == 1 || b == 0 then v else (AddBitFits(v, k); v + Pow2(k))
  }

  lemma EvenBelow(hi: nat, k: nat)
    requires k < 8 && hi < Pow2(8 - k) && hi % 2 == 0
    ensures hi + 1 < Pow2(8 - k)
  {
    assert Pow2(8 - k) == 2 * Pow2(7 - k);
  }

  lemma EightBits()
    ensures Pow2(8) == 256
  {
    Pow2Values();
  }

  lemma AddBitFits(v: byte, k: nat)
    requires k < 8 && Shr(v, k) % 2 == 0
    ensures v + Pow2(k) < 256
  {
    hide Shl, Shr, Low, Pow2;
    SplitAt(v, k);
    EightBits();
    ShrBound(v, k, 8 - k);
    var hi := Shr(v, k);
    EvenBelow(hi, k);
    ShlStep(hi + 1, Pow2(8 - k), k);
    ShlPow2(8 - k, k);
    ShlAdd(hi, 1, k);
    ShlIsPow2(k);
  }

  lemma {:induction false} LsbBitsOfZero(n: nat)
    ensures LsbBits(0, n) == Zeros(n)
  {
    if n > 0 {
      LsbBitsOfZero(n - 1);
    }
  }

  lemma AppendByte(data: seq<byte>, bits: seq<bit>)
    requires |bits| % 8 == 0 && BitsOf(data) == bits
    ensures BitsOf(data + [0]) == bits + Zeros(8)
  {
    BitsOfConcat(data, [0]);
    BitsOfByte(0);
    LsbBitsOfZero(8);
  }

  /** Setting bit `k` in a byte whose bits from `k` on are all zero. */
  lemma PlaceBit(v: byte, used: seq<bit>, b: bit)
    requires |used| < 8 && LsbBits(v, 8) == used + Zeros(8 - |used|)
    ensures LsbBits(SetBit(v, |used|, b), 8) == used + [b] + Zeros(7 - |used|)
  {
    hide LsbBits, Zeros, Shl, Pow2;
    var k := |used|;
    var next := [b] + Zeros(7 - k);
    LsbOfPadded(v, used);
    assert Lsb(used + next) == v + Shl(b, k) by {
      LsbOfZeros(7 - k);
      assert next[1..] == Zeros(7 - k);
      LsbConcat(used, next);
    }
    assert Shr(v, k) % 2 == 0 by {
      LsbBitsAt(v, 8, k);
    }
    assert SetBit(v, k, b) == Lsb(used + next) by {
      ShlIsPow2(k);
    }
    LsbBitsOfLsb(used + next);
    assert used + [b] + Zeros(7 - k) == used + next;
  }

  lemma LsbOfPadded(v: byte, used: seq<bit>)
    requires |used| <= 8 && LsbBits(v, 8) == used + Zeros(8 - |used|)
    ensures v == Lsb(used)
  {
    Pow2Values();
    LsbOfLsbBits(v, 8);
    LowSmall(v, 8);
    LsbConcat(used, Zeros(8 - |used|));
    LsbOfZeros(8 - |used|);
    ShlIsPow2(|used|);
  }

  /** Writing one more bit into a vector whose last byte has room for it. */
  lemma FillBit(data: seq<byte>, bits: seq<bit>, k: nat, b: bit)
    requires |data| > 0 && k < 8 && |bits| == 8 * (|data| - 1) + k
    requires BitsOf(data) == bits + Zeros(8 - k)
    ensures BitsOf(data[|data| - 1 := SetBit(data[|data| - 1], k, b)]) == bits + [b] + Zeros(7 - k)
  {
    var n := |data| - 1;
    var prefix, last, used := data[..n], SetBit(data[n], k, b), bits[8 * n..];
    assert BitsOf(data) == BitsOf(prefix) + LsbBits(data[n], 8) by {
      assert data == prefix + [data[n]];
      BitsOfConcat(prefix, [data[n]]);
      BitsOfByte(data[n]);
    }
    assert BitsOf(data[n := last]) == BitsOf(prefix) + LsbBits(last, 8) by {
      assert data[n := last] == prefix + [last];
      BitsOfConcat(prefix, [last]);
      BitsOfByte(last);
    }
    assert LsbBits(data[n], 8) == BitsOf(data)[8 * n..] == used + Zeros(8 - k);
    assert bits == BitsOf(prefix) + used by {
      assert BitsOf(prefix) == BitsOf(data)[..8 * n] == bits[..8 * n];
    }
    PlaceBit(data[n], used, b);
  }

  class BitReader {
    const data: seq<byte>
    var bp: nat
    var buffer: nat
    ghost var avail: nat  // how many bits of `buffer` stand for the stream

    ghost predicate Valid()
      reads this
    {
      buffer == Lsb(Peek(data, bp, avail))
    }

    constructor (input: seq<byte>)
      ensures Valid() && data == input && bp == 0
    {
      data := input;
      bp, buffer, avail := 0, 0, 0;
    }

    method EnsureBits9(nbits: nat) returns (ok: bool)
      requires nbits <= 9
      modifies this`buffer, this`avail
      ensures Valid() && avail >= 9
      ensures ok <==> bp + nbits <= 8 * |data|
    {
      var start, size := bp / 8, |data|;
      RegisterBytes(data, start);
      Reload(data, bp, 2);
      avail := 16 - bp % 8;
      if start + 1 < size {
        var register := data[start] + Shl(data[start + 1], 8);
        assert register == Register(data, start, 2);
        buffer := Shr(register, bp % 8);
        return true;
      } else {
        var register := 0;
        if start < size {
          register := register + data[start];
        }
        assert register == Register(data, start, 2);
        buffer := Shr(register, bp % 8);
        return bp + nbits <= 8 * size;
      }
    }

    method EnsureBits17(nbits: nat) returns (ok: bool)
      requires nbits <= 17
      modifies this`buffer, this`avail
      ensures Valid() && avail >= 17
      ensures ok <==> bp + nbits <= 8 * |data|
    {
      var start, size := bp / 8, |data|;
      RegisterBytes(data, start);
      Reload(data, bp, 3);
      avail := 24 - bp % 8;
      if start + 2 < size {
        var register := data[start] + Shl(data[start + 1], 8) + Shl(data[start + 2], 16);
        assert register == Register(data, start, 3);
        buffer := Shr(register, bp % 8);
        return true;
      } else {
        var register := 0;
        if start < size {
          register := register + data[start];
        }
        if start + 1 < size {
          register := register + Shl(data[start + 1], 8);
        }
        assert register == Register(data, start, 3);
        buffer := Shr(register, bp % 8);
        return bp + nbits <= 8 * size;
      }
    }

    method EnsureBits25(nbits: nat) returns (ok: bool)
      requires nbits <= 25
      modifies this`buffer, this`avail
      ensures Valid() && avail >= 25
      ensures ok <==> bp + nbits <= 8 * |data|
    {
      var start, size := bp / 8, |data|;
      RegisterBytes(data, start);
      Reload(data, bp, 4);
      avail := 32 - bp % 8;
      if start + 3 < size {
        var register := data[start] + Shl(data[start + 1], 8) + Shl(data[start + 2], 16) + Shl(data[start + 3], 24);
        assert register == Register(data, start, 4);
        buffer := Shr(register, bp % 8);
        return true;
      } else {
        var register := 0;
        if start < size {
          register := register + data[start];
        }
        if start + 1 < size {
          register := register + Shl(data[start + 1], 8);
        }
        if start + 2 < size {
          register := register + Shl(data[start + 2], 16);
        }
        assert register == Register(data, start, 4);
        buffer := Shr(register, bp % 8);
        return bp + nbits <= 8 * size;
      }
    }

    /** The fifth byte is shifted twice, so that bits beyond the 32-bit register drop out. */
    method EnsureBits32(nbits: nat) returns (ok: bool)
      requires nbits <= 32
      modifies this`buffer, this`avail
      ensures Valid() && avail >= 32
      ensures ok <==> bp + nbits <= 8 * |data|
    {
      var start, size := bp / 8, |data|;
      RegisterBytes(data, start);
      Reload(data, bp, 4);
      FifthByte(data, bp, start, bp % 8, ByteOrZero(data, start + 4));
      avail := 32;
      if start + 4 < size {
        var register := data[start] + Shl(data[start + 1], 8) + Shl(data[start + 2], 16) + Shl(data[start + 3], 24);
        assert register == Register(data, start, 4);
        buffer := Shr(register, bp % 8) + Low(Shl(Shl(data[start + 4], 24), 8 - bp % 8), 32);
        return true;
      } else {
        var register := 0;
        if start < size {
          register := register + data[start];
        }
        if start + 1 < size {
          register := register + Shl(data[start + 1], 8);
        }
        if start + 2 < size {
          register := register + Shl(data[start + 2], 16);
        }
        if start + 3 < size {
          register := register + Shl(data[start + 3], 24);
        }
        assert register == Register(data, start, 4);
        buffer := Shr(register, bp % 8);
        return bp + nbits <= 8 * size;
      }
    }

    method PeekBits(nbits: nat) returns (value: nat)
      requires Valid() && nbits <= avail
      ensures value == Lsb(Peek(data, bp, nbits))
    {
      PeekShift(data, bp, avail, nbits);
      value := Low(buffer, nbits);
    }

    method AdvanceBits(nbits: nat)
      requires Valid() && nbits <= avail
      modifies this
      ensures Valid() && bp == old(bp) + nbits && avail == old(avail) - nbits
    {
      PeekShift(data, bp, avail, nbits);
      buffer := Shr(buffer, nbits);
      bp := bp + nbits;
      avail := avail - nbits;
    }

    method ReadBits(nbits: nat) returns (value: nat)
      requires Valid() && nbits <= avail
      modifies this
      ensures Valid() && bp == old(bp) + nbits && avail == old(avail) - nbits
      ensures value == Lsb(Peek(data, old(bp), nbits))
    {
      value := PeekBits(nbits);
      AdvanceBits(nbits);
    }
  }

  /** Byte `i` of a buffer that continues with zero bytes. */
  function ByteOrZero(data: seq<byte>, i: nat): byte {
    if i < |data| then data[i] else 0
  }

  /** `m` bytes from `start` on as one little-endian number. */
  function Register(data: seq<byte>, start: nat, m: nat): nat {
    if m == 0 then 0 else Register(data, start, m - 1) + Shl(ByteOrZero(data, start + m - 1), 8 * (m - 1))
  }

  lemma RegisterBytes(data: seq<byte>, start: nat)
    ensures Register(data, start, 1) == ByteOrZero(data, start)
    ensures Register(data, start, 2) == ByteOrZero(data, start) + Shl(ByteOrZero(data, start + 1), 8)
    ensures Register(data, start, 3) == Register(data, start, 2) + Shl(ByteOrZero(data, start + 2), 16)
    ensures Register(data, start, 4) == Register(data, start, 3) + Shl(ByteOrZero(data, start + 3), 24)
    ensures Shl(0, 8) == Shl(0, 16) == Shl(0, 24) == 0
  {
    ShlIsPow2(8);
    ShlIsPow2(16);
    ShlIsPow2(24);
  }

  lemma PeekWholeByte(data: seq<byte>, i: nat)
    ensures Lsb(Peek(data, 8 * i, 8)) == ByteOrZero(data, i)
  {
    if i < |data| {
      PeekByte(data, i);
    } else {
      PeekPastEnd(data, 8 * i, 8);
    }
  }

  lemma {:induction false} RegisterIsPeek(data: seq<byte>, start: nat, m: nat)
    ensures Register(data, start, m) == Lsb(Peek(data, 8 * start, 8 * m))
  {
    hide Peek, Lsb, Shl, ByteOrZero;
    if m > 0 {
      var k := 8 * (m - 1);
      RegisterIsPeek(data, start, m - 1);
      PeekConcat(data, 8 * start, k + 8, k);
      PeekWholeByte(data, start + m - 1);
      assert 8 * start + k == 8 * (start + m - 1);
    }
  }

  /** Reloading the register and dropping the bits already read. */
  lemma Reload(data: seq<byte>, bp: nat, m: nat)
    requires m > 0
    ensures Shr(Register(data, bp / 8, m), bp % 8) == Lsb(Peek(data, bp, 8 * m - bp % 8))
  {
    hide Register, Lsb;
    RegisterIsPeek(data, bp / 8, m);
    PeekShift(data, 8 * (bp / 8), 8 * m, bp % 8);
    assert 8 * (bp / 8) + bp % 8 == bp;
  }

  /** `k` low bits of a byte on top of a 32-bit register that has room for them. */
  lemma FifthByte(data: seq<byte>, p: nat, start: nat, k: nat, b: byte)
    requires p == 8 * start + k && k < 8 && b == ByteOrZero(data, start + 4)
    ensures Lsb(Peek(data, p, 32)) == Lsb(Peek(data, p, 32 - k)) + Low(Shl(Shl(b, 24), 8 - k), 32)
    ensures b == 0 ==> Low(Shl(Shl(b, 24), 8 - k), 32) == 0
  {
    var q := 8 * (start + 4);
    var top := Lsb(Peek(data, q, k));
    assert Lsb(Peek(data, p, 32)) == Lsb(Peek(data, p, 32 - k)) + Shl(top, 32 - k) by {
      PeekConcat(data, p, 32, 32 - k);
    }
    assert top == Low(b, k) by {
      LowOfByte(data, start + 4, k);
    }
    TwoShifts(b, k);
  }

  lemma TwoShifts(b: nat, k: nat)
    requires k <= 8
    ensures Low(Shl(Shl(b, 24), 8 - k), 32) == Shl(Low(b, k), 32 - k)
    ensures b == 0 ==> Shl(Low(b, k), 32 - k) == 0
  {
    ShlShl(b, 24, 8 - k);
    LowShl(b, 32 - k, 32);
    Pow2Mono(0, k);
    LowSmall(0, k);
    ShlIsPow2(32 - k);
  }

  lemma LowOfByte(data: seq<byte>, i: nat, k: nat)
    requires k <= 8
    ensures Lsb(Peek(data, 8 * i, k)) == Low(ByteOrZero(data, i), k)
  {
    if i < |data| {
      PeekByte(data, i);
      PeekShift(data, 8 * i, 8, k);
    } else {
      PeekPastEnd(data, 8 * i, k);
      LowSmall(0, k);
    }
  }
}
