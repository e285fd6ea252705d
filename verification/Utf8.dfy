/**
  UTF-8 as RapidJSON encodes, decodes and validates it (section 4 of RFC 3629).
 */
module Utf8 {
  import opened Bits

  /** Classes of bytes; those of continuation bytes are single bits, so that a mask can allow several. */
  function GetRange(c: byte): nat {
    if c < 0x80 then 0
    else if c < 0x90 then 0x10
    else if c < 0xA0 then 0x40
    else if c < 0xC0 then 0x20
    else if c < 0xC2 then 8
    else if c < 0xE0 then 2
    else if c == 0xE0 then 10
    else if c == 0xED then 4
    else if c < 0xF0 then 3
    else if c == 0xF0 then 11
    else if c < 0xF4 then 6
    else if c == 0xF4 then 5
    else 8
  }

  /** Whether the class of a byte is one of the bits of a mask of such bits. */
  predicate Allowed(c: byte, mask: nat) {
    0x80 <= c < 0xC0 && mask / GetRange(c) % 2 == 1
  }

  lemma Masks(c: byte)
    ensures Allowed(c, 0x70) <==> 0x80 <= c < 0xC0
    ensures Allowed(c, 0x50) <==> 0x80 <= c < 0xA0
    ensures Allowed(c, 0x10) <==> 0x80 <= c < 0x90
    ensures Allowed(c, 0x20) <==> 0xA0 <= c < 0xC0
    ensures Allowed(c, 0x60) <==> 0x90 <= c < 0xC0
  {
  }

  /** How many units are taken after a first one. */
  function Units(c: byte): (n: nat)
    ensures 1 <= n <= 4
  {
    match GetRange(c)
    case 2 => 2
    case 3 => 3
    case 4 => 3
    case 10 => 3
    case 5 => 4
    case 6 => 4
    case 11 => 4
    case _ => 1
  }

  /** The mask for the second unit. */
  function SecondMask(c: byte): nat {
    match GetRange(c)
    case 4 => 0x50
    case 5 => 0x10
    case 10 => 0x20
    case 11 => 0x60
    case _ => 0x70
  }

  /** Whether the units taken are one valid sequence. */
  predicate Valid(u: seq<byte>) {
    && u != [] && |u| == Units(u[0])
    && (u[0] < 0x80 || |u| > 1)
    && (|u| > 1 ==> Allowed(u[1], SecondMask(u[0])))
    && (|u| > 2 ==> Allowed(u[2], 0x70))
    && (|u| > 3 ==> Allowed(u[3], 0x70))
  }

  // ----- code points

  const MAX_CODE_POINT: nat := 0x10FFFF

  predicate Scalar(cp: nat) {
    cp <= MAX_CODE_POINT && !(0xD800 <= cp < 0xE000)
  }

  function Encode(cp: nat): (u: seq<byte>)
    requires cp <= MAX_CODE_POINT
    ensures 1 <= |u| <= 4
  {
    if cp <= 0x7F then [cp]
    else if cp <= 0x7FF then [0xC0 + cp / 64, 0x80 + cp % 64]
    else if cp <= 0xFFFF then [0xE0 + cp / 4096, 0x80 + cp / 64 % 64, 0x80 + cp % 64]
    else [0xF0 + cp / 262144, 0x80 + cp / 4096 % 64, 0x80 + cp / 64 % 64, 0x80 + cp % 64]
  }

  /** The bits of a first unit that belong to the code point. */
  function FirstBits(c: byte): nat {
    match GetRange(c)
    case 2 => c % 64
    case 3 => c % 32
    case 4 => c % 16
    case 5 => c % 8
    case 6 => c % 4
    case _ => 0
  }

  datatype Decoded = Decoded(ok: bool, cp: nat)

  function Decode(u: seq<byte>): Decoded
    requires u != [] && |u| == Units(u[0])
  {
    if u[0] < 0x80 then Decoded(true, u[0])
    else
      var cp := FirstBits(u[0]);
      Decoded(Valid(u),
              match |u|
              case 1 => cp
              case 2 => cp * 64 + u[1] % 64
              case 3 => (cp * 64 + u[1] % 64) * 64 + u[2] % 64
              case _ => ((cp * 64 + u[1] % 64) * 64 + u[2] % 64) * 64 + u[3] % 64)
  }

  lemma FirstUnit(c: byte)
    ensures c < 0x80 ==> Units(c) == 1
    ensures 0xC2 <= c < 0xE0 ==> Units(c) == 2 && FirstBits(c) == c - 0xC0 && SecondMask(c) == 0x70
    ensures 0xE0 <= c < 0xF0 ==> Units(c) == 3 && FirstBits(c) == c - 0xE0
    ensures 0xE0 <= c < 0xF0 ==> SecondMask(c) == if c == 0xE0 then 0x20 else if c == 0xED then 0x50 else 0x70
    ensures 0xF0 <= c < 0xF5 ==> Units(c) == 4 && FirstBits(c) == c - 0xF0
    ensures 0xF0 <= c < 0xF5 ==> SecondMask(c) == if c == 0xF0 then 0x60 else if c == 0xF4 then 0x10 else 0x70
    ensures Units(c) == 2 ==> 0xC2 <= c < 0xE0
    ensures Units(c) == 3 ==> 0xE0 <= c < 0xF0
    ensures Units(c) == 4 ==> 0xF0 <= c < 0xF5
  {
  }

  lemma Split(cp: nat)
    ensures cp == 64 * (cp / 64) + cp % 64
    ensures cp / 4096 == cp / 64 / 64 && cp / 262144 == cp / 64 / 64 / 64
  {
  }

  lemma DecodeEncodeShort(cp: nat)
    requires cp <= 0x7FF
    ensures var u := Encode(cp); |u| == Units(u[0]) && Decode(u).cp == cp && Decode(u).ok
  {
    hide GetRange, Units, SecondMask, FirstBits, Allowed;
    var u := Encode(cp);
    FirstUnit(u[0]);
    Split(cp);
    if |u| > 1 {
      Masks(u[1]);
    }
  }

  lemma DecodeEncodeMiddle(cp: nat)
    requires 0x7FF < cp <= 0xFFFF
    ensures var u := Encode(cp); |u| == Units(u[0]) && Decode(u).cp == cp && (Decode(u).ok <==> Scalar(cp))
  {
    hide GetRange, Units, SecondMask, FirstBits, Allowed;
    var u := Encode(cp);
    FirstUnit(u[0]);
    Split(cp);
    Split(cp / 64);
    Masks(u[1]);
    Masks(u[2]);
  }

  /** A number is put together again from its digits to base 64. */
  lemma FromDigits(cp: nat)
    ensures cp == ((cp / 262144 * 64 + cp / 4096 % 64) * 64 + cp / 64 % 64) * 64 + cp % 64
  {
    Split(cp);
    Split(cp / 64);
    Split(cp / 64 / 64);
  }

  lemma DecodeEncodeLong(cp: nat)
    requires 0xFFFF < cp <= MAX_CODE_POINT
    ensures var u := Encode(cp); |u| == Units(u[0]) && Decode(u).cp == cp && Decode(u).ok
  {
    hide GetRange, Units, SecondMask, FirstBits, Allowed;
    var u := Encode(cp);
    FirstUnit(u[0]);
    FromDigits(cp);
    Masks(u[1]);
    Masks(u[2]);
    Masks(u[3]);
  }

  /** Decoding what was encoded gives it back, and is refused exactly for surrogates. */
  lemma DecodeEncode(cp: nat)
    requires cp <= MAX_CODE_POINT
    ensures var u := Encode(cp); |u| == Units(u[0]) && Decode(u).cp == cp && (Decode(u).ok <==> Scalar(cp))
  {
    hide Encode, Units, Decode;
    if cp <= 0x7FF {
      DecodeEncodeShort(cp);
    } else if cp <= 0xFFFF {
      DecodeEncodeMiddle(cp);
    } else {
      DecodeEncodeLong(cp);
    }
  }

  lemma Continuation(c: byte)
    requires 0x80 <= c < 0xC0
    ensures c % 64 == c - 0x80
  {
  }

  lemma Parts(a: nat, b: nat)
    requires b < 64
    ensures (a * 64 + b) / 64 == a && (a * 64 + b) % 64 == b
  {
  }

  /** The digits of a number written to base 64. */
  lemma Digits(f: nat, a: nat, b: nat, c: nat)
    requires a < 64 && b < 64 && c < 64
    ensures var cp := ((f * 64 + a) * 64 + b) * 64 + c;
            cp / 262144 == f && cp / 4096 % 64 == a && cp / 64 % 64 == b && cp % 64 == c
  {
    Parts(f, a);
    Parts(f * 64 + a, b);
    Parts((f * 64 + a) * 64 + b, c);
    Split(((f * 64 + a) * 64 + b) * 64 + c);
  }

  lemma EncodeDecodeTwo(u: seq<byte>)
    requires |u| == 2 == Units(u[0]) && Decode(u).ok
    ensures Scalar(Decode(u).cp) && Encode(Decode(u).cp) == u
  {
    hide GetRange, Units, SecondMask, FirstBits, Allowed;
    FirstUnit(u[0]);
    Masks(u[1]);
    Continuation(u[1]);
    Parts(FirstBits(u[0]), u[1] % 64);
  }

  lemma EncodeDecodeThree(u: seq<byte>)
    requires |u| == 3 == Units(u[0]) && Decode(u).ok
    ensures Scalar(Decode(u).cp) && Encode(Decode(u).cp) == u
  {
    hide GetRange, Units, SecondMask, FirstBits, Allowed;
    FirstUnit(u[0]);
    Masks(u[1]);
    Masks(u[2]);
    Continuation(u[1]);
    Continuation(u[2]);
    Parts(FirstBits(u[0]), u[1] % 64);
    Parts(FirstBits(u[0]) * 64 + u[1] % 64, u[2] % 64);
    Split(Decode(u).cp);
  }

  lemma EncodeDecodeFour(u: seq<byte>)
    requires |u| == 4 == Units(u[0]) && Decode(u).ok
    ensures Scalar(Decode(u).cp) && Encode(Decode(u).cp) == u
  {
    hide GetRange, Units, SecondMask, FirstBits, Allowed;
    FirstUnit(u[0]);
    Masks(u[1]);
    Masks(u[2]);
    Masks(u[3]);
    Continuation(u[1]);
    Continuation(u[2]);
    Continuation(u[3]);
    Digits(FirstBits(u[0]), u[1] % 64, u[2] % 64, u[3] % 64);
    var cp := Decode(u).cp;
    assert Encode(cp) == [u[0], u[1], u[2], u[3]];
  }

  /** What is accepted is the encoding of exactly one code point. */
  lemma EncodeDecode(u: seq<byte>)
    requires u != [] && |u| == Units(u[0]) && Decode(u).ok
    ensures Scalar(Decode(u).cp) && Encode(Decode(u).cp) == u
  {
    hide GetRange, SecondMask, FirstBits, Allowed;
    if |u| == 1 {
      assert u == [u[0]];
    } else {
      hide Decode, Encode, Units;
      if |u| == 2 {
        EncodeDecodeTwo(u);
      } else if |u| == 3 {
        EncodeDecodeThree(u);
      } else {
        EncodeDecodeFour(u);
      }
    }
  }

}
