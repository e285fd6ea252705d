/**
  What inflating a byte buffer means, errors included: the block format of
  section 3.2.3 of RFC 1951 as a function of the bits alone, without registers,
  tables or buffers.  Bits past the end of the data read as zero; the position is
  compared with the end where the decoder does so.
 */
module InflateSpec {
  import opened Bits
  import opened HuffmanCode
  import opened Lz77
  import opened LengthRuns

  const NUM_DEFLATE_CODE_SYMBOLS: nat := 288
  const NUM_DISTANCE_SYMBOLS: nat := 32
  const NUM_CODE_LENGTH_CODES: nat := 19
  const END_CODE: nat := 256

  const CLCL_ORDER: seq<nat> := [16, 17, 18, 0, 8, 7, 9, 6, 10, 5, 11, 4, 12, 3, 13, 2, 14, 1, 15]

  datatype Result<T> = Ok(value: T) | Err(error: nat)

  /** A value and the bit position behind what it was read from. */
  datatype At<T> = At(pos: nat, value: T)

  /** The number in the next `n` bits. */
  function Number(data: seq<byte>, p: nat, n: nat): nat {
    Lsb(Peek(data, p, n))
  }

  /** The symbol at a position. */
  ghost function SymbolAt(data: seq<byte>, lengths: seq<nat>, p: nat): (s: nat)
    ensures s != INVALID_SYMBOL ==> s < |lengths| && lengths[s] > 0
  {
    DecodeSymbol(lengths, Peek(data, p, MAX_CODE_BITS))
  }

  // ----- the symbols of a compressed block

  /** Literals and matches up to the end code. */
  ghost function InflateSymbols(data: seq<byte>, ll: seq<nat>, d: seq<nat>, p: nat, out: seq<byte>)
    : (r: Result<At<seq<byte>>>)
    requires |ll| == NUM_DEFLATE_CODE_SYMBOLS && |d| == NUM_DISTANCE_SYMBOLS
    ensures r.Ok? ==> r.value.pos > p
    ensures r.Err? ==> r.error > 0
    decreases 8 * |data| + 1 - p
  {
    var s := SymbolAt(data, ll, p);
    if s == INVALID_SYMBOL then Err(16)
    else
      var p1 := p + ll[s];
      if s <= 255 then
        if p1 > 8 * |data| then Err(51) else InflateSymbols(data, ll, d, p1, out + [s])
      else if FIRST_LENGTH_CODE_INDEX <= s <= LAST_LENGTH_CODE_INDEX then
        match InflateMatch(data, d, p1, s - FIRST_LENGTH_CODE_INDEX, out)
        case Err(e) => Err(e)
        case Ok(At(p2, out2)) => if p2 > 8 * |data| then Err(51) else InflateSymbols(data, ll, d, p2, out2)
      else if s == END_CODE then Ok(At(p1, out))
      else Err(16)
  }

  /** The rest of a match after its length code. */
  ghost function InflateMatch(data: seq<byte>, d: seq<nat>, p: nat, lengthIndex: nat, out: seq<byte>)
    : (r: Result<At<seq<byte>>>)
    requires |d| == NUM_DISTANCE_SYMBOLS && lengthIndex < |LENGTHBASE|
    ensures r.Ok? ==> r.value.pos >= p
    ensures r.Err? ==> r.error > 0
  {
    var length := LENGTHBASE[lengthIndex] + Number(data, p, LENGTHEXTRA[lengthIndex]);
    var p1 := p + LENGTHEXTRA[lengthIndex];
    var s := SymbolAt(data, d, p1);
    if s > 29 then (if s <= 31 then Err(18) else Err(16))
    else
      var p2 := p1 + d[s];
      var distance := DISTANCEBASE[s] + Number(data, p2, DISTANCEEXTRA[s]);
      if distance > |out| then Err(52)
      else Ok(At(p2 + DISTANCEEXTRA[s], CopyMatch(out, distance, length)))
  }

  // ----- code lengths

  /** The error of a run of the given code that goes past the last symbol. */
  function RunError(code: nat): nat {
    if code == 16 then 13 else if code == 17 then 14 else 15
  }

  /** Reads run-length coded lengths until `total` of them are there. */
  ghost function ReadLengths(data: seq<byte>, cl: seq<nat>, p: nat, acc: seq<nat>, total: nat)
    : (r: Result<At<seq<nat>>>)
    requires |cl| == NUM_CODE_LENGTH_CODES && |acc| <= total
    requires forall i :: 0 <= i < |acc| ==> acc[i] <= 15
    ensures r.Ok? ==> r.value.pos >= p && |r.value.value| == total
    ensures r.Ok? ==> forall i :: 0 <= i < total ==> r.value.value[i] <= 15
    ensures r.Ok? && |acc| < total ==> r.value.pos <= 8 * |data|
    ensures r.Err? ==> r.error > 0
    decreases total - |acc|
  {
    if |acc| == total then Ok(At(p, acc))
    else
      var s := SymbolAt(data, cl, p);
      if s == INVALID_SYMBOL then Err(16)
      else
        var p1 := p + cl[s];
        if s == 16 && acc == [] then Err(54)
        else
          var run := RunAt(data, s, p1);
          var p2 := p1 + RunBits(s);
          if |acc| + RunLength(run) > total then Err(if p2 > 8 * |data| then 50 else RunError(s))
          else if p2 > 8 * |data| then Err(50)
          else ReadLengths(data, cl, p2, ApplyRun(run, acc), total)
  }

  /** The error code of a result, zero for success. */
  function ErrorOf<T>(r: Result<T>): nat {
    if r.Ok? then 0 else r.error
  }

  /** How many extra bits follow a code length code. */
  function RunBits(code: nat): nat {
    if code == 16 then 2 else if code == 17 then 3 else if code == 18 then 7 else 0
  }

  function RunAt(data: seq<byte>, code: nat, p: nat): Run {
    if code == 16 then Repeat(3 + Number(data, p, 2))
    else if code == 17 then Zeros(3 + Number(data, p, 3))
    else if code == 18 then ManyZeros(11 + Number(data, p, 7))
    else Plain(code)
  }

  function RunLength(run: Run): (n: nat)
  {
    if run.Plain? then 1 else run.count
  }

  /** The lengths of the code length code, from their transmission order. */
  function FromClOrder(values: seq<nat>): (cl: seq<nat>)
    requires |values| <= NUM_CODE_LENGTH_CODES
    ensures |cl| == NUM_CODE_LENGTH_CODES
    decreases |values|
  {
    if values == [] then Copies(0, NUM_CODE_LENGTH_CODES)
    else FromClOrder(values[..|values| - 1])[CLCL_ORDER[|values| - 1] := values[|values| - 1]]
  }

  lemma {:induction false} FromClOrderBound(values: seq<nat>, bound: nat)
    requires |values| <= NUM_CODE_LENGTH_CODES && forall i :: 0 <= i < |values| ==> values[i] <= bound
    ensures forall s :: 0 <= s < NUM_CODE_LENGTH_CODES ==> FromClOrder(values)[s] <= bound
    decreases |values|
  {
    if values != [] {
      FromClOrderBound(values[..|values| - 1], bound);
    }
  }

  /** Where each code length code stands in the transmission order. */
  const CL_POSITION: seq<nat> := [3, 17, 15, 13, 11, 9, 7, 5, 4, 6, 8, 10, 12, 14, 16, 18, 0, 1, 2]

  lemma PositionOfOrder()
    ensures |CLCL_ORDER| == |CL_POSITION| == NUM_CODE_LENGTH_CODES
    ensures forall i :: 0 <= i < NUM_CODE_LENGTH_CODES ==>
              CLCL_ORDER[i] < NUM_CODE_LENGTH_CODES && CL_POSITION[CLCL_ORDER[i]] == i
  {
  }

  lemma OrderOfPosition()
    ensures |CLCL_ORDER| == |CL_POSITION| == NUM_CODE_LENGTH_CODES
    ensures forall s :: 0 <= s < NUM_CODE_LENGTH_CODES ==>
              CL_POSITION[s] < NUM_CODE_LENGTH_CODES && CLCL_ORDER[CL_POSITION[s]] == s
  {
  }

  lemma ClOrderIsPermutation()
    ensures |CLCL_ORDER| == |CL_POSITION| == NUM_CODE_LENGTH_CODES
    ensures forall i :: 0 <= i < NUM_CODE_LENGTH_CODES ==>
              CLCL_ORDER[i] < NUM_CODE_LENGTH_CODES && CL_POSITION[CLCL_ORDER[i]] == i
    ensures forall s :: 0 <= s < NUM_CODE_LENGTH_CODES ==>
              CL_POSITION[s] < NUM_CODE_LENGTH_CODES && CLCL_ORDER[CL_POSITION[s]] == s
  {
    hide CLCL_ORDER, CL_POSITION;
    PositionOfOrder();
    OrderOfPosition();
  }

  lemma {:induction false} FromClOrderAt(values: seq<nat>, i: nat)
    requires |values| <= NUM_CODE_LENGTH_CODES && i < NUM_CODE_LENGTH_CODES
    ensures CLCL_ORDER[i] < NUM_CODE_LENGTH_CODES
    ensures FromClOrder(values)[CLCL_ORDER[i]] == if i < |values| then values[i] else 0
    decreases |values|
  {
    hide CLCL_ORDER, CL_POSITION;
    ClOrderIsPermutation();
    if values != [] {
      var n := |values| - 1;
      FromClOrderAt(values[..n], i);
      assert CL_POSITION[CLCL_ORDER[i]] == i && CL_POSITION[CLCL_ORDER[n]] == n;
    }
  }

  /** Lengths that agree with the transmitted ones in transmission order are those lengths. */
  lemma FromClOrderIs(values: seq<nat>, cl: seq<nat>)
    requires |values| <= NUM_CODE_LENGTH_CODES == |cl|
    requires forall i :: 0 <= i < NUM_CODE_LENGTH_CODES ==> CLCL_ORDER[i] < NUM_CODE_LENGTH_CODES
    requires forall i :: 0 <= i < NUM_CODE_LENGTH_CODES ==> cl[CLCL_ORDER[i]] == if i < |values| then values[i] else 0
    ensures FromClOrder(values) == cl
  {
    hide CLCL_ORDER, CL_POSITION;
    ClOrderIsPermutation();
    forall s: nat | s < NUM_CODE_LENGTH_CODES
      ensures FromClOrder(values)[s] == cl[s]
    {
      FromClOrderAt(values, CL_POSITION[s]);
      assert CLCL_ORDER[CL_POSITION[s]] == s;
    }
  }

  /** `n` numbers of three bits each. */
  function Triples(data: seq<byte>, p: nat, n: nat): (values: seq<nat>)
    ensures |values| == n && forall i :: 0 <= i < n ==> values[i] <= 7
  {
    if n == 0 then []
    else
      Pow2Values();
      Triples(data, p, n - 1) + [Number(data, p + 3 * (n - 1), 3)]
  }

  datatype Trees = Trees(ll: seq<nat>, d: seq<nat>)

  ghost predicate TreesOk(trees: Trees) {
    && |trees.ll| == NUM_DEFLATE_CODE_SYMBOLS && |trees.d| == NUM_DISTANCE_SYMBOLS
    && Bounded(trees.ll) && Bounded(trees.d) && Decodable(trees.ll) && Decodable(trees.d)
  }

  /** Lengths of a smaller alphabet as those of the full one. */
  function Padded(lengths: seq<nat>, size: nat): (r: seq<nat>)
    requires |lengths| <= size
    ensures |r| == size
  {
    lengths + seq(size - |lengths|, i => 0)
  }

  const INVALID_TREE_ERROR: nat := 55

  /** The two trees described by one list of lengths, if they are usable. */
  ghost function TreesFrom(lengths: seq<nat>, hlit: nat): (r: Result<Trees>)
    requires END_CODE < hlit <= NUM_DEFLATE_CODE_SYMBOLS && hlit <= |lengths| <= hlit + NUM_DISTANCE_SYMBOLS
    requires forall i :: 0 <= i < |lengths| ==> lengths[i] <= 15
    ensures r.Ok? ==> TreesOk(r.value)
    ensures r.Err? ==> r.error > 0
  {
    var ll := Padded(lengths[..hlit], NUM_DEFLATE_CODE_SYMBOLS);
    var d := Padded(lengths[hlit..], NUM_DISTANCE_SYMBOLS);
    if ll[END_CODE] == 0 then Err(64)
    else if !Decodable(ll) || !Decodable(d) then Err(INVALID_TREE_ERROR)
    else Ok(Trees(ll, d))
  }

  /** The two trees of a dynamic block. */
  ghost function DynamicTrees(data: seq<byte>, p: nat): (r: Result<At<Trees>>)
    ensures r.Ok? ==> r.value.pos > p && TreesOk(r.value.value) && r.value.pos <= 8 * |data|
    ensures r.Err? ==> r.error > 0
  {
    if p + 14 > 8 * |data| then Err(49)
    else
      Pow2Values();
      var hlit, hdist, hclen := Number(data, p, 5) + 257, Number(data, p + 5, 5) + 1, Number(data, p + 10, 4) + 4;
      var p1 := p + 14;
      if p1 + 3 * hclen > 8 * |data| then Err(50)
      else
        var cl := FromClOrder(Triples(data, p1, hclen));
        if !Decodable(cl) then Err(INVALID_TREE_ERROR)
        else
          match ReadLengths(data, cl, p1 + 3 * hclen, [], hlit + hdist)
          case Err(e) => Err(e)
          case Ok(At(p2, lengths)) =>
            match TreesFrom(lengths, hlit)
            case Err(e) => Err(e)
            case Ok(trees) => Ok(At(p2, trees))
  }

  /** The literal/length code of fixed blocks. */
  function FixedLitLen(): (ll: seq<nat>)
    ensures |ll| == NUM_DEFLATE_CODE_SYMBOLS
  {
    Copies(8, 144) + Copies(9, 112) + Copies(7, 24) + Copies(8, 8)
  }

  function FixedDistance(): (d: seq<nat>)
    ensures |d| == NUM_DISTANCE_SYMBOLS
  {
    Copies(5, NUM_DISTANCE_SYMBOLS)
  }

  lemma KraftOfOneMore(lengths: seq<nat>, value: nat)
    requires 0 < value <= MAX_CODE_BITS
    ensures Kraft(lengths + [value], MAX_CODE_BITS) == Kraft(lengths, MAX_CODE_BITS) + Pow2(MAX_CODE_BITS - value)
  {
    hide Pow2;
    assert (lengths + [value])[..|lengths|] == lengths;
  }

  lemma {:induction false} KraftOfCopies(lengths: seq<nat>, value: nat, count: nat, weight: nat)
    requires 0 < value <= MAX_CODE_BITS && weight == Pow2(MAX_CODE_BITS - value)
    ensures Kraft(lengths + Copies(value, count), MAX_CODE_BITS) == Kraft(lengths, MAX_CODE_BITS) + count * weight
  {
    hide Kraft, Pow2;
    if count == 0 {
      assert lengths + Copies(value, 0) == lengths;
    } else {
      KraftOfCopies(lengths, value, count - 1, weight);
      KraftOfOneMore(lengths + Copies(value, count - 1), value);
      assert lengths + Copies(value, count) == lengths + Copies(value, count - 1) + [value];
    }
  }

  lemma KraftOfNothing()
    ensures Kraft([], MAX_CODE_BITS) == 0
  {
  }

  /** The codes of fixed blocks are complete. */
  lemma FixedTreesOk()
    ensures TreesOk(Trees(FixedLitLen(), FixedDistance()))
    ensures Complete(FixedLitLen()) && Complete(FixedDistance())
  {
    hide Kraft, Pow2;
    Pow2Values();
    KraftOfNothing();
    KraftOfCopies([], 8, 144, 128);
    assert [] + Copies(8, 144) == Copies(8, 144);
    KraftOfCopies(Copies(8, 144), 9, 112, 64);
    KraftOfCopies(Copies(8, 144) + Copies(9, 112), 7, 24, 256);
    KraftOfCopies(Copies(8, 144) + Copies(9, 112) + Copies(7, 24), 8, 8, 128);
    KraftOfCopies([], 5, 32, 1024);
    assert [] + Copies(5, 32) == Copies(5, 32);
  }

  // ----- blocks

  function Word(lo: nat, hi: nat): nat {
    lo + 256 * hi
  }

  /** A stored block: it starts at the next byte boundary. */
  function InflateStored(data: seq<byte>, p: nat, out: seq<byte>, ignoreNlen: bool): (r: Result<At<seq<byte>>>)
    ensures r.Ok? ==> r.value.pos >= p
    ensures r.Err? ==> r.error > 0
  {
    var bytepos := (p + 7) / 8;
    if bytepos + 4 >= |data| then Err(52)
    else
      var len := Word(data[bytepos], data[bytepos + 1]);
      var nlen := Word(data[bytepos + 2], data[bytepos + 3]);
      if !ignoreNlen && len + nlen != 65535 then Err(21)
      else if bytepos + 4 + len > |data| then Err(23)
      else Ok(At(8 * (bytepos + 4 + len), out + data[bytepos + 4..bytepos + 4 + len]))
  }

  ghost function InflateCompressed(data: seq<byte>, p: nat, btype: nat, out: seq<byte>): (r: Result<At<seq<byte>>>)
    ensures r.Ok? ==> r.value.pos >= p
    ensures r.Err? ==> r.error > 0
  {
    if btype == 1 then InflateSymbols(data, FixedLitLen(), FixedDistance(), p, out)
    else
      match DynamicTrees(data, p)
      case Err(e) => Err(e)
      case Ok(At(p1, trees)) => InflateSymbols(data, trees.ll, trees.d, p1, out)
  }

  /** All blocks from a position on, up to and including the final one. */
  ghost function InflateBlocks(data: seq<byte>, p: nat, out: seq<byte>, ignoreNlen: bool): (r: Result<seq<byte>>)
    ensures r.Err? ==> r.error > 0
    decreases 8 * |data| - p
  {
    if p + 3 > 8 * |data| then Err(52)
    else
      var bfinal, btype := Number(data, p, 1), Number(data, p + 1, 2);
      if btype == 3 then Err(20)
      else
        match if btype == 0 then InflateStored(data, p + 3, out, ignoreNlen) else InflateCompressed(data, p + 3, btype, out)
        case Err(e) => Err(e)
        case Ok(At(p1, out1)) =>
          if bfinal == 1 then Ok(out1) else InflateBlocks(data, p1, out1, ignoreNlen)
  }

  /** Inflating a whole buffer. */
  ghost function Inflated(data: seq<byte>, ignoreNlen: bool): Result<seq<byte>> {
    InflateBlocks(data, 0, [], ignoreNlen)
  }

  // ----- single steps

  /** One symbol of a compressed block. */
  lemma InflateSymbolsStep(data: seq<byte>, ll: seq<nat>, d: seq<nat>, p: nat, out: seq<byte>)
    requires |ll| == NUM_DEFLATE_CODE_SYMBOLS && |d| == NUM_DISTANCE_SYMBOLS
    ensures var s, r := SymbolAt(data, ll, p), InflateSymbols(data, ll, d, p, out);
            if s == INVALID_SYMBOL then r == Err(16)
            else
              var p1 := p + ll[s];
              if s <= 255 then
                r == if p1 > 8 * |data| then Err(51) else InflateSymbols(data, ll, d, p1, out + [s])
              else if FIRST_LENGTH_CODE_INDEX <= s <= LAST_LENGTH_CODE_INDEX then
                match InflateMatch(data, d, p1, s - FIRST_LENGTH_CODE_INDEX, out)
                case Err(e) => r == Err(e)
                case Ok(At(p2, out2)) =>
                  r == if p2 > 8 * |data| then Err(51) else InflateSymbols(data, ll, d, p2, out2)
              else r == if s == END_CODE then Ok(At(p1, out)) else Err(16)
  {
    hide InflateMatch;
  }

  /** One step of reading lengths. */
  lemma ReadLengthsStep(data: seq<byte>, cl: seq<nat>, p: nat, acc: seq<nat>, total: nat)
    requires |cl| == NUM_CODE_LENGTH_CODES && |acc| < total
    requires forall i :: 0 <= i < |acc| ==> acc[i] <= 15
    ensures var s, r := SymbolAt(data, cl, p), ReadLengths(data, cl, p, acc, total);
            if s == INVALID_SYMBOL then r == Err(16)
            else if s == 16 && acc == [] then r == Err(54)
            else
              var run, p2 := RunAt(data, s, p + cl[s]), p + cl[s] + RunBits(s);
              if |acc| + RunLength(run) > total then r == Err(if p2 > 8 * |data| then 50 else RunError(s))
              else if p2 > 8 * |data| then r == Err(50)
              else
                && (forall i :: 0 <= i < |ApplyRun(run, acc)| ==> ApplyRun(run, acc)[i] <= 15)
                && |ApplyRun(run, acc)| == |acc| + RunLength(run)
                && r == ReadLengths(data, cl, p2, ApplyRun(run, acc), total)
  {
  }

  lemma ReadLengthsDone(data: seq<byte>, cl: seq<nat>, p: nat, acc: seq<nat>)
    requires |cl| == NUM_CODE_LENGTH_CODES
    requires forall i :: 0 <= i < |acc| ==> acc[i] <= 15
    ensures ReadLengths(data, cl, p, acc, |acc|) == Ok(At(p, acc))
  {
  }

  /** One block. */
  lemma InflateBlocksStep(data: seq<byte>, p: nat, out: seq<byte>, ignoreNlen: bool)
    ensures var r, bfinal, btype := InflateBlocks(data, p, out, ignoreNlen), Number(data, p, 1), Number(data, p + 1, 2);
            if p + 3 > 8 * |data| then r == Err(52)
            else if btype == 3 then r == Err(20)
            else
              match if btype == 0 then InflateStored(data, p + 3, out, ignoreNlen)
                    else InflateCompressed(data, p + 3, btype, out)
              case Err(e) => r == Err(e)
              case Ok(At(p1, out1)) => r == if bfinal == 1 then Ok(out1) else InflateBlocks(data, p1, out1, ignoreNlen)
  {
    hide InflateStored, InflateCompressed;
  }
}
