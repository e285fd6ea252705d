/**
  LZ77 tokens, the numbers DEFLATE uses for them (section 3.2.5 of RFC 1951), and
  what a token stream expands to under the decoder's overlapping copies.
 */
module Lz77 {
  import opened Bits

  datatype Token = Literal(value: byte) | Match(length: nat, distance: nat)

  const FIRST_LENGTH_CODE_INDEX: nat := 257
  const LAST_LENGTH_CODE_INDEX: nat := 285
  const MAX_MATCH: nat := 258
  const MAX_DISTANCE: nat := 32768

  const LENGTHBASE: seq<nat> :=
    [3, 4, 5, 6, 7, 8, 9, 10, 11, 13, 15, 17, 19, 23, 27, 31, 35, 43, 51, 59,
     67, 83, 99, 115, 131, 163, 195, 227, 258]

  const LENGTHEXTRA: seq<nat> :=
    [0, 0, 0, 0, 0, 0, 0, 0, 1, 1, 1, 1, 2, 2, 2, 2, 3, 3, 3, 3,
     4, 4, 4, 4, 5, 5, 5, 5, 0]

  const DISTANCEBASE: seq<nat> :=
    [1, 2, 3, 4, 5, 7, 9, 13, 17, 25, 33, 49, 65, 97, 129, 193, 257, 385, 513,
     769, 1025, 1537, 2049, 3073, 4097, 6145, 8193, 12289, 16385, 24577]

  const DISTANCEEXTRA: seq<nat> :=
    [0, 0, 0, 0, 1, 1, 2, 2, 3, 3, 4, 4, 5, 5, 6, 6, 7, 7, 8,
     8, 9, 9, 10, 10, 11, 11, 12, 12, 13, 13]

  /** Copying `length` bytes from `distance` back, byte by byte, so that a copy may read what it wrote. */
  function CopyMatch(out: seq<byte>, distance: nat, length: nat): (r: seq<byte>)
    requires 1 <= distance <= |out|
    ensures |r| == |out| + length
    decreases length
  {
    if length == 0 then out else CopyMatch(out + [out[|out| - distance]], distance, length - 1)
  }

  /** No token reaches back before the first byte, `n` bytes being there already. */
  ghost predicate Expandable(tokens: seq<Token>, n: nat) {
    tokens == [] ||
    match tokens[0]
    case Literal(_) => Expandable(tokens[1..], n + 1)
    case Match(length, distance) => 1 <= distance <= n && Expandable(tokens[1..], n + length)
  }

  function Apply(token: Token, out: seq<byte>): seq<byte>
    requires token.Match? ==> 1 <= token.distance <= |out|
  {
    match token
    case Literal(value) => out + [value]
    case Match(length, distance) => CopyMatch(out, distance, length)
  }

  /** What the tokens expand to, after the bytes that are there already. */
  ghost function Expand(tokens: seq<Token>, out: seq<byte>): seq<byte>
    requires Expandable(tokens, |out|)
  {
    if tokens == [] then out else Expand(tokens[1..], Apply(tokens[0], out))
  }

  /** A token that DEFLATE can represent. */
  ghost predicate ValidToken(token: Token) {
    token.Match? ==> 3 <= token.length <= MAX_MATCH && 1 <= token.distance <= MAX_DISTANCE
  }

  ghost predicate ValidTokens(tokens: seq<Token>) {
    forall i :: 0 <= i < |tokens| ==> ValidToken(tokens[i])
  }

  lemma {:induction false} ExpandAppend(tokens: seq<Token>, token: Token, out: seq<byte>)
    requires Expandable(tokens, |out|)
    requires token.Match? ==> 1 <= token.distance <= |Expand(tokens, out)|
    ensures Expandable(tokens + [token], |out|)
    ensures Expand(tokens + [token], out) == Apply(token, Expand(tokens, out))
    decreases |tokens|
  {
    var longer := tokens + [token];
    if tokens == [] {
      assert longer[1..] == [];
    } else {
      assert longer[1..] == tokens[1..] + [token];
      ExpandAppend(tokens[1..], token, Apply(tokens[0], out));
    }
  }

  /** The bytes from `lo` up to `hi` repeat those `distance` further back. */
  ghost predicate Repeats(data: seq<byte>, lo: nat, hi: nat, distance: nat) {
    distance <= lo && hi <= |data| && forall k :: lo <= k < hi ==> data[k] == data[k - distance]
  }

  /** A match whose bytes agree with those further back reproduces them. */
  lemma {:induction false} CopyMatchIs(data: seq<byte>, pos: nat, distance: nat, length: nat)
    requires 1 <= distance <= pos && pos + length <= |data|
    requires Repeats(data, pos, pos + length, distance)
    ensures CopyMatch(data[..pos], distance, length) == data[..pos + length]
    decreases length
  {
    if length > 0 {
      assert data[pos] == data[pos - distance];
      assert data[..pos] + [data[..pos][pos - distance]] == data[..pos + 1];
      CopyMatchIs(data, pos + 1, distance, length - 1);
    }
  }

  // ----- codes and extra bits

  /** The last index whose base is at most the value. */
  ghost predicate IsCodeIndex(base: seq<nat>, i: nat, value: nat) {
    i < |base| && base[i] <= value && (i + 1 < |base| ==> value < base[i + 1])
  }

  ghost predicate Rising(base: seq<nat>) {
    forall i, j :: 0 <= i < j < |base| ==> base[i] < base[j]
  }

  method SearchCodeIndex(base: seq<nat>, value: nat) returns (index: nat)
    requires |base| >= 2 && Rising(base) && base[0] <= value
    ensures IsCodeIndex(base, index, value)
  {
    var left: nat := 1;
    var right: nat := |base| - 1;
    while left <= right
      invariant 1 <= left <= right + 1 <= |base|
      invariant forall i :: 0 <= i < left ==> i == 0 || base[i] < value
      invariant forall i :: right < i < |base| ==> base[i] >= value
      decreases right + 1 - left
    {
      var mid := (left + right) / 2;
      if base[mid] >= value {
        right := mid - 1;
      } else {
        left := mid + 1;
      }
    }
    if left >= |base| || base[left] > value {
      left := left - 1;
    }
    index := left;
  }

  lemma ExtraBits()
    ensures |LENGTHBASE| == |LENGTHEXTRA| == 29 && |DISTANCEBASE| == |DISTANCEEXTRA| == 30
    ensures forall i :: 0 <= i < 29 ==> LENGTHEXTRA[i] <= 5
    ensures forall i :: 0 <= i < 30 ==> DISTANCEEXTRA[i] <= 13 && DISTANCEBASE[i] >= 1
    ensures LENGTHBASE[0] == 3 && DISTANCEBASE[0] == 1
  {
  }

  lemma BasesRise()
    ensures Rising(LENGTHBASE) && Rising(DISTANCEBASE)
  {
    RisingFromSteps(LENGTHBASE);
    RisingFromSteps(DISTANCEBASE);
  }

  lemma {:induction false} RisingFromSteps(base: seq<nat>)
    requires forall i :: 0 < i < |base| ==> base[i - 1] < base[i]
    ensures Rising(base)
  {
    if |base| > 1 {
      var front := base[..|base| - 1];
      RisingFromSteps(front);
      forall i, j | 0 <= i < j < |base|
        ensures base[i] < base[j]
      {
        if j == |base| - 1 {
          assert i < j - 1 ==> front[i] < front[j - 1];
        } else {
          assert front[i] < front[j];
        }
      }
    }
  }

  /** What the extra bits of a length or distance have to hold fits into them. */
  lemma LengthExtraFits(length: nat, i: nat)
    requires 3 <= length <= MAX_MATCH && IsCodeIndex(LENGTHBASE, i, length)
    ensures length - LENGTHBASE[i] < Pow2(LENGTHEXTRA[i]) && LENGTHEXTRA[i] <= 5
  {
    hide Pow2;
    Pow2Values();
  }

  lemma DistanceExtraFits(distance: nat, i: nat)
    requires 1 <= distance <= MAX_DISTANCE && IsCodeIndex(DISTANCEBASE, i, distance)
    ensures distance - DISTANCEBASE[i] < Pow2(DISTANCEEXTRA[i]) && DISTANCEEXTRA[i] <= 13
  {
    Pow2Values();
  }

  /** The code index of a value is unique, so it may be spoken of as a function. */
  ghost function CodeIndex(base: seq<nat>, value: nat): (i: nat)
    requires |base| >= 2 && Rising(base) && base[0] <= value
    ensures IsCodeIndex(base, i, value)
  {
    CodeIndexExists(base, value, |base| - 1);
    var i: nat :| IsCodeIndex(base, i, value);
    i
  }

  lemma {:induction false} CodeIndexExists(base: seq<nat>, value: nat, top: nat)
    requires |base| >= 2 && Rising(base) && base[0] <= value && top < |base|
    requires top + 1 < |base| ==> value < base[top + 1]
    ensures exists i: nat :: IsCodeIndex(base, i, value)
  {
    if base[top] <= value {
      assert IsCodeIndex(base, top, value);
    } else {
      CodeIndexExists(base, value, top - 1);
    }
  }

  lemma CodeIndexUnique(base: seq<nat>, value: nat, i: nat, j: nat)
    requires Rising(base) && IsCodeIndex(base, i, value) && IsCodeIndex(base, j, value)
    ensures i == j
  {
    RisingAgain(base, i, j);
    RisingAgain(base, j, i);
  }

  lemma RisingAgain(base: seq<nat>, i: nat, j: nat)
    requires Rising(base) && (i >= j || j < |base|)
    ensures i < j ==> base[i + 1] <= base[j]
  {
  }

  /** The numbers that stand for a token between the LZ77 and the Huffman stage. */
  ghost function Codes(token: Token): (codes: seq<nat>)
    requires ValidToken(token)
  {
    match token
    case Literal(value) => [value]
    case Match(length, distance) =>
      BasesRise();
      var li, di := CodeIndex(LENGTHBASE, length), CodeIndex(DISTANCEBASE, distance);
      [FIRST_LENGTH_CODE_INDEX + li, length - LENGTHBASE[li], di, distance - DISTANCEBASE[di]]
  }

  ghost function CodesOf(tokens: seq<Token>): (codes: seq<nat>)
    requires ValidTokens(tokens)
  {
    if tokens == [] then [] else CodesOf(tokens[..|tokens| - 1]) + Codes(tokens[|tokens| - 1])
  }

  lemma CodesAppend(tokens: seq<Token>, token: Token)
    requires ValidTokens(tokens) && ValidToken(token)
    ensures ValidTokens(tokens + [token])
    ensures CodesOf(tokens + [token]) == CodesOf(tokens) + Codes(token)
  {
    assert (tokens + [token])[..|tokens|] == tokens;
  }

  /** Appends the four numbers of a length/distance pair. */
  method AddLengthDistance(values: seq<nat>, length: nat, distance: nat) returns (r: seq<nat>)
    requires 3 <= length <= MAX_MATCH && 1 <= distance <= MAX_DISTANCE
    ensures r == values + Codes(Match(length, distance))
  {
    BasesRise();
    var lengthCode := SearchCodeIndex(LENGTHBASE, length);
    var distCode := SearchCodeIndex(DISTANCEBASE, distance);
    CodeIndexUnique(LENGTHBASE, length, lengthCode, CodeIndex(LENGTHBASE, length));
    CodeIndexUnique(DISTANCEBASE, distance, distCode, CodeIndex(DISTANCEBASE, distance));
    r := values + [FIRST_LENGTH_CODE_INDEX + lengthCode, length - LENGTHBASE[lengthCode],
                   distCode, distance - DISTANCEBASE[distCode]];
  }
}
