/**
  The DEFLATE format in plain arithmetic (RFC 1951), without the tables and functions that encoder and decoder share:
  what they agree on is what the standard says.
 */
module DeflateFormat {
  import opened Bits
  import opened Sequences
  import opened HuffmanCode
  import opened Lz77
  import opened LengthRuns
  import opened InflateSpec
  import opened DeflateBits

  // ----- bits and numbers

  /** Bit `k` of a stream, least significant bit of a byte first; zero past the end. */
  function StreamBit(data: seq<byte>, k: nat): nat {
    if k / 8 >= |data| then 0
    else
      match k % 8
      case 0 => data[k / 8] % 2
      case 1 => data[k / 8] / 2 % 2
      case 2 => data[k / 8] / 4 % 2
      case 3 => data[k / 8] / 8 % 2
      case 4 => data[k / 8] / 16 % 2
      case 5 => data[k / 8] / 32 % 2
      case 6 => data[k / 8] / 64 % 2
      case _ => data[k / 8] / 128 % 2
  }

  /** A number of `n` bits at `p`, least significant bit first. */
  function Field(data: seq<byte>, p: nat, n: nat): nat
    decreases n
  {
    if n == 0 then 0 else StreamBit(data, p) + 2 * Field(data, p + 1, n - 1)
  }

  lemma BitIsStreamBit(data: seq<byte>, k: nat)
    ensures PaddedBitAt(data, k) == StreamBit(data, k)
  {
    hide Shr;
    if k < 8 * |data| {
      assert k / 8 < |data|;
      ShrSmall(data[k / 8]);
      ShrLarge(data[k / 8]);
    }
  }

  lemma {:induction false} NumberIsField(data: seq<byte>, p: nat, n: nat)
    ensures Number(data, p, n) == Field(data, p, n)
    decreases n
  {
    hide PaddedBitAt, StreamBit;
    var bits := Peek(data, p, n);
    if n > 0 {
      assert bits[1..] == Peek(data, p + 1, n - 1);
      BitIsStreamBit(data, p);
      NumberIsField(data, p + 1, n - 1);
    }
  }

  /** The number that some bits spell, least significant first. */
  function Value(bits: seq<bit>): nat {
    if bits == [] then 0 else bits[0] + 2 * Value(bits[1..])
  }

  lemma {:induction false} ValueIs(v: nat, n: nat)
    requires v < Pow2(n)
    ensures Value(LsbBits(v, n)) == v
  {
    if n > 0 {
      assert LsbBits(v, n)[1..] == LsbBits(v / 2, n - 1);
      ValueIs(v / 2, n - 1);
    }
  }

  // ----- the description of dynamic trees

  /**
    The place of the length of each code of the code length alphabet: first 16, 17, 18 and 0, then alternating from the
    middle, 8, 7, 9, 6 and so on, up to 15 (section 3.2.7).
   */
  function Place(s: nat): nat
    requires s < 19
  {
    if s >= 16 then s - 16 else if s == 0 then 3 else if s >= 8 then 4 + 2 * (s - 8) else 5 + 2 * (7 - s)
  }

  lemma OrderIsPlace()
    ensures |CLCL_ORDER| == 19 && NUM_CODE_LENGTH_CODES == 19
    ensures forall i :: 0 <= i < 19 ==> CLCL_ORDER[i] < 19 && Place(CLCL_ORDER[i]) == i
  {
  }

  lemma PlaceInjective(s: nat, t: nat)
    requires s < 19 && t < 19 && Place(s) == Place(t)
    ensures s == t
  {
  }

  lemma PlaceIsOrder(s: nat)
    requires s < 19
    ensures |CLCL_ORDER| == 19 && Place(s) < 19 && CLCL_ORDER[Place(s)] == s
  {
    hide CLCL_ORDER;
    OrderIsPlace();
    assert Place(s) < 19;
    PlaceInjective(s, CLCL_ORDER[Place(s)]);
  }

  /** The lengths of the code length code in a description at `p`. */
  function ClLengths(data: seq<byte>, p: nat): (cl: seq<nat>)
    ensures |cl| == 19
  {
    var hclen := 4 + Field(data, p + 10, 4);
    seq(19, s requires 0 <= s < 19 => if Place(s) < hclen then Field(data, p + 14 + 3 * Place(s), 3) else 0)
  }

  lemma {:induction false} TripleAt(data: seq<byte>, p: nat, n: nat, k: nat)
    requires k < n
    ensures Triples(data, p, n)[k] == Field(data, p + 3 * k, 3)
  {
    hide Number, Field;
    NumberIsField(data, p + 3 * k, 3);
    if k < n - 1 {
      TripleAt(data, p, n - 1, k);
    }
  }

  lemma FieldBound(data: seq<byte>, p: nat)
    ensures Field(data, p, 4) <= 15 && Field(data, p, 5) <= 31
  {
    hide Number;
    Pow2Values();
    NumberIsField(data, p, 4);
    NumberIsField(data, p, 5);
    NumberBound(data, p, 4);
    NumberBound(data, p, 5);
  }

  lemma NumberBound(data: seq<byte>, p: nat, n: nat)
    ensures Number(data, p, n) < Pow2(n)
  {
  }

  lemma ClLengthsAre(data: seq<byte>, p: nat)
    ensures 4 + Number(data, p + 10, 4) <= 19
    ensures FromClOrder(Triples(data, p + 14, 4 + Number(data, p + 10, 4))) == ClLengths(data, p)
  {
    hide CLCL_ORDER, CL_POSITION, Number, Field, Triples, FromClOrder;
    NumberIsField(data, p + 10, 4);
    FieldBound(data, p + 10);
    var hclen := 4 + Field(data, p + 10, 4);
    var values, cl := Triples(data, p + 14, hclen), ClLengths(data, p);
    OrderIsPlace();
    forall i: nat | i < 19
      ensures cl[CLCL_ORDER[i]] == if i < hclen then values[i] else 0
    {
      if i < hclen {
        TripleAt(data, p + 14, hclen, i);
      }
    }
    FromClOrderIs(values, cl);
  }

  /** The lengths of the literal/length code, and of the distance code, given both in one list. */
  function LitLenPart(lengths: seq<nat>, hlit: nat): seq<nat> {
    seq(288, s requires 0 <= s < 288 => if s < hlit && s < |lengths| then lengths[s] else 0)
  }

  function DistancePart(lengths: seq<nat>, hlit: nat): seq<nat> {
    seq(32, s requires 0 <= s < 32 => if hlit + s < |lengths| then lengths[hlit + s] else 0)
  }

  /**
    What the description of dynamic trees at `p` means: numbers of 5, 5 and 4 bits, lengths of 3 bits in their places,
    and then as many code lengths as the numbers say. The trees need a code for the end of the block.
   */
  lemma DynamicTreesFormat(data: seq<byte>, p: nat)
    ensures var hlit, hdist, hclen := 257 + Field(data, p, 5), 1 + Field(data, p + 5, 5), 4 + Field(data, p + 10, 4);
            var r := DynamicTrees(data, p);
            if p + 14 > 8 * |data| then r == Err(49)
            else if p + 14 + 3 * hclen > 8 * |data| then r == Err(50)
            else if !Decodable(ClLengths(data, p)) then r == Err(55)
            else
              var l := ReadLengths(data, ClLengths(data, p), p + 14 + 3 * hclen, [], hlit + hdist);
              if l.Err? then r == Err(l.error)
              else
                var ll, d := LitLenPart(l.value.value, hlit), DistancePart(l.value.value, hlit);
                if ll[256] == 0 then r == Err(64)
                else if !Decodable(ll) || !Decodable(d) then r == Err(55)
                else r == Ok(At(l.value.pos, Trees(ll, d)))
  {
    hide Number, Field, Triples, FromClOrder, ClLengths, ReadLengths, Decodable;
    Pow2Values();
    NumberIsField(data, p, 5);
    NumberIsField(data, p + 5, 5);
    NumberIsField(data, p + 10, 4);
    FieldBound(data, p);
    FieldBound(data, p + 5);
    ClLengthsAre(data, p);
    var hlit, hdist, hclen := 257 + Field(data, p, 5), 1 + Field(data, p + 5, 5), 4 + Field(data, p + 10, 4);
    if Decodable(ClLengths(data, p)) {
      var l := ReadLengths(data, ClLengths(data, p), p + 14 + 3 * hclen, [], hlit + hdist);
      if l.Ok? {
        PartsArePadded(l.value.value, hlit);
      }
    }
  }

  lemma PartsArePadded(lengths: seq<nat>, hlit: nat)
    requires hlit <= 288 && hlit <= |lengths| <= hlit + 32
    ensures Padded(lengths[..hlit], 288) == LitLenPart(lengths, hlit)
    ensures Padded(lengths[hlit..], 32) == DistancePart(lengths, hlit)
  {
  }

  /** The three bits in front of a block: whether it is the last one, and its type. */
  predicate BlockHeader(bits: seq<bit>, final: bit, btype: nat) {
    |bits| >= 3 && bits[0] == final && bits[1] as nat + 2 * (bits[2] as nat) == btype
  }

  /** The bits of a dynamic block begin with the description of its trees, each length in its place. */
  ghost predicate DescribedAsStandard(bits: seq<bit>, final: bit, t: Description)
    requires DescriptionOk(t)
  {
    && BlockHeader(bits, final, 2) && |bits| >= 17 + 3 * t.n
    && Value(bits[3..8]) == |t.ll| - 257 && Value(bits[8..13]) == |t.d| - 1 && Value(bits[13..17]) == t.n - 4
    && forall s :: 0 <= s < 19 ==> LengthSent(bits, t, s)
  }

  ghost predicate LengthSent(bits: seq<bit>, t: Description, s: nat)
    requires DescriptionOk(t) && s < 19 && |bits| >= 17 + 3 * t.n
  {
    if Place(s) < t.n then Value(bits[17 + 3 * Place(s)..20 + 3 * Place(s)]) == t.cl[s] else t.cl[s] == 0
  }

  lemma {:induction false} ClBitsAt(cl: seq<nat>, n: nat, k: nat)
    requires k < n <= NUM_CODE_LENGTH_CODES == |cl| == |CLCL_ORDER| && CLCL_ORDER[k] < |cl|
    ensures ClBits(cl, n)[3 * k..3 * k + 3] == LsbBits(cl[CLCL_ORDER[k]], 3)
  {
    hide CLCL_ORDER, LsbBits;
    if k < n - 1 {
      ClBitsAt(cl, n - 1, k);
      assert ClBits(cl, n)[3 * k..3 * k + 3] == ClBits(cl, n - 1)[3 * k..3 * k + 3];
    }
  }

  lemma DynamicHeaderFormat(final: bit, t: Description, tokens: seq<Token>)
    requires DescriptionOk(t) && AllCoded(tokens, t.ll, t.d)
    ensures DescribedAsStandard(DynamicBlockBits(final, t, tokens), final, t)
  {
    hide CLCL_ORDER, ClBits, RunsBits, BodyBits, AllCoded, Usable, RunsCoded, RunsFor, Place, Value, LsbBits;
    var bits := DynamicBlockBits(final, t, tokens);
    var hlit, hdist, hclen := LsbBits(|t.ll| - 257, 5), LsbBits(|t.d| - 1, 5), LsbBits(t.n - 4, 4);
    var cl, rest := ClBits(t.cl, t.n), RunsBits(t.runs, t.cl) + BodyBits(tokens, t.ll, t.d);
    assert bits == HeaderBits(final, 2) + hlit + hdist + hclen + cl + rest;
    HeaderOf(final, 2);
    Pow2Values();
    ValueIs(|t.ll| - 257, 5);
    ValueIs(|t.d| - 1, 5);
    ValueIs(t.n - 4, 4);
    assert bits[3..8] == hlit && bits[8..13] == hdist && bits[13..17] == hclen;
    assert bits[17..17 + 3 * t.n] == cl;
    forall s | 0 <= s < 19
      ensures LengthSent(bits, t, s)
    {
      LengthIsSent(bits, t, s);
    }
  }

  lemma HeaderOf(final: bit, btype: nat)
    requires btype <= 2
    ensures |HeaderBits(final, btype)| == 3 && BlockHeader(HeaderBits(final, btype), final, btype)
  {
    var two := LsbBits(btype, 2);
    assert two == [btype % 2, btype / 2 % 2];
  }

  lemma LengthIsSent(bits: seq<bit>, t: Description, s: nat)
    requires DescriptionOk(t) && s < 19 && |bits| >= 17 + 3 * t.n && bits[17..17 + 3 * t.n] == ClBits(t.cl, t.n)
    ensures LengthSent(bits, t, s)
  {
    hide CLCL_ORDER, ClBits, Place, Value, LsbBits, Usable, RunsCoded, RunsFor;
    PlaceIsOrder(s);
    var k := Place(s);
    if k < t.n {
      ClBitsAt(t.cl, t.n, k);
      SliceOfSlice(bits, 17, 17 + 3 * t.n, 3 * k, 3 * k + 3);
      Pow2Values();
      ValueIs(t.cl[s], 3);
    }
  }

  lemma FixedHeaderFormat(final: bit, tokens: seq<Token>)
    requires AllCoded(tokens, FixedLitLen(), FixedDistance())
    ensures BlockHeader(FixedBlockBits(final, tokens), final, 1)
  {
    hide AllCoded, BodyBits, FixedLitLen, FixedDistance;
    HeaderOf(final, 1);
  }

  // ----- the codes of fixed blocks

  /** Section 3.2.6: lengths 8, 9, 7 and 8 for literals and lengths, 5 for distances. */
  lemma FixedCodesFormat()
    ensures |FixedLitLen()| == 288 && |FixedDistance()| == 32
    ensures forall s :: 0 <= s < 288 ==>
              FixedLitLen()[s] == if s <= 143 then 8 else if s <= 255 then 9 else if s <= 279 then 7 else 8
    ensures forall s :: 0 <= s < 32 ==> FixedDistance()[s] == 5
  {
  }

  // ----- lengths and distances

  /** Extra bits of length code `s`, and the least length it stands for (section 3.2.5). */
  function LengthExtra(s: nat): nat {
    if s < 265 || s == 285 then 0 else (s - 261) / 4
  }

  function LeastLength(s: nat): nat
    requires 257 <= s <= 285
  {
    if s == 257 then 3 else if s == 285 then 258 else LeastLength(s - 1) + Pow2(LengthExtra(s - 1))
  }

  /** The same for distance codes. */
  function DistanceExtra(s: nat): nat {
    if s < 4 then 0 else (s - 2) / 2
  }

  function LeastDistance(s: nat): nat {
    if s == 0 then 1 else LeastDistance(s - 1) + Pow2(DistanceExtra(s - 1))
  }

  lemma LengthExtrasFormat(s: nat)
    requires 257 <= s <= 285
    ensures |LENGTHEXTRA| == 29 && LENGTHEXTRA[s - 257] == LengthExtra(s)
  {
  }

  lemma LengthRises(s: nat)
    requires 257 < s <= 284
    ensures |LENGTHBASE| == 29 && LENGTHBASE[s - 257] == LENGTHBASE[s - 258] + Pow2(LengthExtra(s - 1))
  {
    hide Pow2;
    Pow2Values();
  }

  lemma {:induction false} LengthsFormat(s: nat)
    requires 257 <= s <= 285
    ensures |LENGTHBASE| == 29 && LENGTHBASE[s - 257] == LeastLength(s)
    decreases s
  {
    if 257 < s < 285 {
      LengthsFormat(s - 1);
      LengthRises(s);
    }
  }

  lemma DistanceExtrasFormat(s: nat)
    requires s <= 29
    ensures |DISTANCEEXTRA| == 30 && DISTANCEEXTRA[s] == DistanceExtra(s)
  {
  }

  lemma DistanceRises(s: nat)
    requires 0 < s <= 29
    ensures |DISTANCEBASE| == 30 && DISTANCEBASE[s] == DISTANCEBASE[s - 1] + Pow2(DistanceExtra(s - 1))
  {
    hide Pow2;
    Pow2Values();
  }

  lemma {:induction false} DistancesFormat(s: nat)
    requires s <= 29
    ensures |DISTANCEBASE| == 30 && DISTANCEBASE[s] == LeastDistance(s)
  {
    if s > 0 {
      DistancesFormat(s - 1);
      DistanceRises(s);
    }
  }

  /** A match repeats bytes: each one is the byte that far back, even if it is one the match has added. */
  lemma {:induction false} CopyMatchFormat(out: seq<byte>, distance: nat, length: nat)
    requires 1 <= distance <= |out|
    ensures var r := CopyMatch(out, distance, length);
            && |r| == |out| + length && r[..|out|] == out
            && forall i :: |out| <= i < |r| ==> r[i] == r[i - distance]
    decreases length
  {
    if length > 0 {
      var out1 := out + [out[|out| - distance]];
      CopyMatchFormat(out1, distance, length - 1);
      var r := CopyMatch(out1, distance, length - 1);
      assert r[..|out|] == r[..|out1|][..|out|] == out;
      assert r[|out|] == r[..|out1|][|out|] && r[|out| - distance] == r[..|out1|][|out| - distance];
    }
  }

  /** What follows a length code: its extra bits, a distance code and its extra bits, in this order. */
  lemma MatchFormat(data: seq<byte>, d: seq<nat>, p: nat, s: nat, out: seq<byte>)
    requires |d| == 32 && 257 <= s <= 285
    ensures var p1 := p + LengthExtra(s);
            var c := SymbolAt(data, d, p1);
            var r := InflateMatch(data, d, p, s - 257, out);
            if c <= 29 then
              var p2 := p1 + d[c];
              var length := LeastLength(s) + Field(data, p, LengthExtra(s));
              var distance := LeastDistance(c) + Field(data, p2, DistanceExtra(c));
              if distance > |out| then r == Err(52)
              else 1 <= distance && r == Ok(At(p2 + DistanceExtra(c), CopyMatch(out, distance, length)))
            else r == Err(if c <= 31 then 18 else 16)
  {
    hide Number, Field, CopyMatch, SymbolAt, LeastLength, LeastDistance, LENGTHBASE, LENGTHEXTRA, DISTANCEBASE, DISTANCEEXTRA;
    LengthExtrasFormat(s);
    LengthsFormat(s);
    NumberIsField(data, p, LengthExtra(s));
    var p1 := p + LengthExtra(s);
    var c := SymbolAt(data, d, p1);
    if c <= 29 {
      DistanceExtrasFormat(c);
      DistancesFormat(c);
      PositiveDistance(c);
      NumberIsField(data, p1 + d[c], DistanceExtra(c));
    }
  }

  lemma PositiveDistance(s: nat)
    ensures LeastDistance(s) >= 1
  {
  }

  // ----- runs of code lengths

  /** Extra bits of a code, how often it repeats a length, and which. */
  function RunExtra(s: nat): nat {
    if s <= 15 then 0 else if s == 16 then 2 else if s == 17 then 3 else 7
  }

  function Repetitions(data: seq<byte>, s: nat, p: nat): nat {
    (if s <= 15 then 1 else if s <= 17 then 3 else 11) + Field(data, p, RunExtra(s))
  }

  function Repeated(s: nat, acc: seq<nat>): nat
    requires s == 16 ==> acc != []
  {
    if s <= 15 then s else if s == 16 then acc[|acc| - 1] else 0
  }

  lemma RunsFormat(data: seq<byte>, s: nat, p: nat, acc: seq<nat>)
    requires s <= 18 && (s == 16 ==> acc != [])
    ensures RunBits(s) == RunExtra(s) && RunLength(RunAt(data, s, p)) == Repetitions(data, s, p)
    ensures ApplyRun(RunAt(data, s, p), acc) == acc + seq(Repetitions(data, s, p), _ => Repeated(s, acc))
    ensures s > 15 ==> RunError(s) == if s == 16 then 13 else if s == 17 then 14 else 15
    ensures s <= 15 ==> Repetitions(data, s, p) == 1
  {
    hide Number, Field;
    FieldOfNothing(data, p);
    NumberIsField(data, p, 2);
    NumberIsField(data, p, 3);
    NumberIsField(data, p, 7);
    var r := ApplyRun(RunAt(data, s, p), acc);
    assert r[|acc|..] == seq(Repetitions(data, s, p), _ => Repeated(s, acc));
  }

  /** A list of code lengths (section 3.2.7): each code continues it, as long as it does not get too long. */
  lemma LengthListFormat(data: seq<byte>, cl: seq<nat>, p: nat, acc: seq<nat>, total: nat)
    requires |cl| == 19 && |acc| < total && forall i :: 0 <= i < |acc| ==> acc[i] <= 15
    ensures var s, r := SymbolAt(data, cl, p), ReadLengths(data, cl, p, acc, total);
            if s == INVALID_SYMBOL then r == Err(16)
            else if s == 16 && acc == [] then r == Err(54)
            else
              var q := p + cl[s];
              var n, end := Repetitions(data, s, q), q + RunExtra(s);
              if |acc| + n > total then
                r == Err(if end > 8 * |data| then 50 else if s == 16 then 13 else if s == 17 then 14 else 15)
              else if end > 8 * |data| then r == Err(50)
              else r == ReadLengths(data, cl, end, acc + seq(n, _ => Repeated(s, acc)), total)
  {
    hide Number, Field, ReadLengths, SymbolAt, ApplyRun, RunAt, RunLength, RunBits, RunError, Repetitions, RunExtra;
    ReadLengthsStep(data, cl, p, acc, total);
    var s := SymbolAt(data, cl, p);
    if s != INVALID_SYMBOL && !(s == 16 && acc == []) {
      RunsFormat(data, s, p + cl[s], acc);
    }
  }

  lemma FieldOfNothing(data: seq<byte>, p: nat)
    ensures Field(data, p, 0) == 0
  {
  }

  // ----- blocks

  /** A stored block: from the next byte on, its length and the complement of it, low bytes first, and then its bytes. */
  lemma StoredFormat(data: seq<byte>, p: nat, out: seq<byte>)
    ensures var b := (p + 7) / 8;
            var r := InflateStored(data, p, out, false);
            if b + 4 >= |data| then r == Err(52)
            else
              var len := data[b] as nat + 256 * (data[b + 1] as nat);
              if data[b] as nat + data[b + 2] as nat != 255 || data[b + 1] as nat + data[b + 3] as nat != 255 then r == Err(21)
              else if b + 4 + len > |data| then r == Err(23)
              else r == Ok(At(8 * (b + 4 + len), out + data[b + 4..b + 4 + len]))
  {
  }

  /** A block: a bit that marks the last one, two bits for its type. */
  lemma BlockFormat(data: seq<byte>, p: nat, out: seq<byte>, ignoreNlen: bool)
    ensures var r, btype := InflateBlocks(data, p, out, ignoreNlen), StreamBit(data, p + 1) + 2 * StreamBit(data, p + 2);
            if p + 3 > 8 * |data| then r == Err(52)
            else if btype == 3 then r == Err(20)
            else
              var block := if btype == 0 then InflateStored(data, p + 3, out, ignoreNlen)
                           else if btype == 1 then InflateSymbols(data, FixedLitLen(), FixedDistance(), p + 3, out)
                           else
                             var trees := DynamicTrees(data, p + 3);
                             if trees.Err? then Err(trees.error)
                             else InflateSymbols(data, trees.value.value.ll, trees.value.value.d, trees.value.pos, out);
              if block.Err? then r == Err(block.error)
              else if StreamBit(data, p) == 1 then r == Ok(block.value.value)
              else r == InflateBlocks(data, block.value.pos, block.value.value, ignoreNlen)
  {
    hide Number, InflateStored, InflateSymbols, DynamicTrees, FixedLitLen, FixedDistance, StreamBit, InflateBlocks;
    InflateBlocksStep(data, p, out, ignoreNlen);
    NumberIsField(data, p, 1);
    NumberIsField(data, p + 1, 2);
    assert Field(data, p, 1) == StreamBit(data, p) + 2 * Field(data, p + 1, 0);
    assert Field(data, p + 1, 2) == StreamBit(data, p + 1) + 2 * Field(data, p + 2, 1);
    assert Field(data, p + 2, 1) == StreamBit(data, p + 2) + 2 * Field(data, p + 3, 0);
  }

  /** A symbol of a compressed block: a literal, the end of the block, or a length with a distance behind it. */
  lemma SymbolFormat(data: seq<byte>, ll: seq<nat>, d: seq<nat>, p: nat, out: seq<byte>)
    requires |ll| == 288 && |d| == 32
    ensures var s, r := SymbolAt(data, ll, p), InflateSymbols(data, ll, d, p, out);
            if s <= 255 then
              r == if p + ll[s] > 8 * |data| then Err(51) else InflateSymbols(data, ll, d, p + ll[s], out + [s])
            else if s == 256 then r == Ok(At(p + ll[s], out))
            else if s <= 285 then
              var m := InflateMatch(data, d, p + ll[s], s - 257, out);
              if m.Err? then r == Err(m.error)
              else r == if m.value.pos > 8 * |data| then Err(51)
                        else InflateSymbols(data, ll, d, m.value.pos, m.value.value)
            else r == Err(16)
  {
    hide InflateMatch, SymbolAt, InflateSymbols;
    InflateSymbolsStep(data, ll, d, p, out);
  }
}
