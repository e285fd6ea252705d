/**
  The Huffman tree object: codes and decode tables built in place from code
  lengths, and the decoding of one symbol.
 */
module HuffmanTrees {
  import opened Bits
  import opened BitStreams
  import opened HuffmanCode
  import opened HuffmanTable
  import opened CodeLengths

  /** Error of `makeTable`: the lengths do not describe a usable code. */
  const INVALID_TREE: nat := 55

  lemma {:induction false} MsbBitsOfLow(v: nat, n: nat)
    ensures MsbBits(Low(v, n), n) == MsbBits(v, n)
  {
    if n > 0 {
      MsbBitsOfLow(v / 2, n - 1);
    }
  }

  lemma {:induction false} MsbBitsOfShr(v: nat, n: nat, k: nat)
    requires k <= n
    ensures MsbBits(Shr(v, k), n - k) == MsbBits(v, n)[..n - k]
  {
    if k > 0 {
      MsbBitsOfShr(v / 2, n - 1, k - 1);
      assert MsbBits(v, n)[..n - k] == MsbBits(v / 2, n - 1)[..n - k];
    } else {
      assert MsbBits(v, n)[..n] == MsbBits(v, n);
    }
  }

  method ReverseBits(bits: nat, num: nat) returns (result: nat)
    ensures result == Lsb(MsbBits(bits, num))
  {
    result := 0;
    ghost var all := MsbBits(bits, num);
    for i := 0 to num
      invariant result == Lsb(all[..i])
    {
      var b: bit := Shr(bits, num - i - 1) % 2;
      MsbBitsAt(bits, num, i);
      assert all[..i + 1] == all[..i] + [b];
      LsbConcat(all[..i], [b]);
      assert Lsb([b]) == b;
      result := result + Shl(b, i);
    }
    assert all[..num] == all;
  }

  /** A stored code, which may lack superfluous bits, has the canonical bits. */
  ghost predicate CodeOk(code: nat, lengths: seq<nat>, n: nat)
    requires n < |lengths|
  {
    MsbBits(code, lengths[n]) == CodeBits(lengths, n)
  }

  ghost predicate CodesOk(codes: seq<nat>, lengths: seq<nat>) {
    && |codes| == |lengths|
    && forall n :: 0 <= n < |lengths| ==> CodeOk(codes[n], lengths, n)
  }

  /** Step 1: count the codes of each length, symbols without a code included. */
  method CountLengths(lengths: array<nat>, maxbitlen: nat) returns (blcount: array<nat>)
    requires forall n :: 0 <= n < lengths.Length ==> lengths[n] <= maxbitlen
    ensures fresh(blcount) && blcount.Length == maxbitlen + 1
    ensures forall l :: 0 <= l <= maxbitlen ==> blcount[l] == Count(lengths[..], l)
  {
    blcount := new nat[maxbitlen + 1](i => 0);
    for i := 0 to lengths.Length
      invariant forall l :: 0 <= l <= maxbitlen ==> blcount[l] == Count(lengths[..i], l)
    {
      assert lengths[..i + 1][..i] == lengths[..i];
      blcount[lengths[i]] := blcount[lengths[i]] + 1;
    }
    assert lengths[..lengths.Length] == lengths[..];
  }

  /** Step 2: the first code of each length, shifted by the symbols without a code. */
  method FirstCodes(blcount: array<nat>, ghost lengths: seq<nat>) returns (nextcode: array<nat>)
    requires blcount.Length > 0
    requires forall l :: 0 <= l < blcount.Length ==> blcount[l] == Count(lengths, l)
    ensures fresh(nextcode) && nextcode.Length == blcount.Length
    ensures NextCodes(nextcode[..], lengths, 0)
  {
    nextcode := new nat[blcount.Length](i => 0);
    for bits := 1 to blcount.Length
      invariant nextcode[0] == 0
      invariant forall l :: 0 < l < bits ==> nextcode[l] == FirstCode(lengths, l) + Shl(Count(lengths, 0), l)
    {
      nextcode[bits] := 2 * (nextcode[bits - 1] + blcount[bits - 1]);
    }
  }

  /** The next free code of each length when the symbols below `n` have theirs. */
  ghost predicate NextCodes(nextcode: seq<nat>, lengths: seq<nat>, n: nat)
    requires n <= |lengths|
  {
    forall l :: 0 < l < |nextcode| ==>
      nextcode[l] == FirstCode(lengths, l) + Count(lengths[..n], l) + Shl(Count(lengths, 0), l)
  }

  lemma TakeCode(nextcode: seq<nat>, lengths: seq<nat>, n: nat)
    requires n < |lengths| && lengths[n] < |nextcode| && NextCodes(nextcode, lengths, n)
    ensures lengths[n] == 0 ==> NextCodes(nextcode, lengths, n + 1)
    ensures var l := lengths[n];
            l > 0 ==>
              && NextCodes(nextcode[l := nextcode[l] + 1], lengths, n + 1)
              && CodeOk(Low(nextcode[l], l), lengths, n)
  {
    assert lengths[..n + 1][..n] == lengths[..n];
    if lengths[n] > 0 {
      MaskedCode(Code(lengths, n), Count(lengths, 0), lengths[n]);
    }
  }

  /** Step 3: number the symbols of each length and mask the codes. */
  method NumberSymbols(lengths: array<nat>, nextcode: array<nat>) returns (codes: array<nat>)
    requires nextcode != lengths && NextCodes(nextcode[..], lengths[..], 0)
    requires forall n :: 0 <= n < lengths.Length ==> lengths[n] < nextcode.Length
    modifies nextcode
    ensures fresh(codes) && CodesOk(codes[..], lengths[..])
  {
    codes := new nat[lengths.Length](i => 0);
    ghost var all := lengths[..];
    for n := 0 to lengths.Length
      invariant NextCodes(nextcode[..], all, n)
      invariant forall m :: 0 <= m < n ==> CodeOk(codes[m], all, m)
    {
      var l := lengths[n];
      TakeCode(nextcode[..], all, n);
      if l != 0 {
        codes[n] := Low(nextcode[l], l);
        nextcode[l] := nextcode[l] + 1;
      }
    }
  }

  /** Removing the superfluous bits leaves the bits of the canonical code. */
  lemma MaskedCode(code: nat, absent: nat, l: nat)
    ensures MsbBits(Low(code + Shl(absent, l), l), l) == MsbBits(code, l)
  {
    LowOfSum(code, absent, l);
    MsbBitsOfLow(code + Shl(absent, l), l);
    MsbBitsOfLow(code, l);
  }

  lemma {:induction false} LowOfSum(v: nat, hi: nat, k: nat)
    ensures Low(v + Shl(hi, k), k) == Low(v, k)
  {
    if k > 0 {
      LowOfSum(v / 2, hi, k - 1);
      assert (v + Shl(hi, k)) / 2 == v / 2 + Shl(hi, k - 1);
    }
  }

  // ----- the decode table

  /** The first nine bits of a long code as an index of the head table. */
  method HeadIndex(symbol: nat, l: nat, ghost lengths: seq<nat>, ghost n: nat) returns (index: nat)
    requires n < |lengths| && l == lengths[n] > FIRST_BITS && CodeOk(symbol, lengths, n)
    ensures index == Low(Reversed(lengths, n), FIRST_BITS) < HEAD_SIZE
  {
    MsbBitsOfShr(symbol, l, l - FIRST_BITS);
    LsbSplit(CodeBits(lengths, n), FIRST_BITS);
    LowSmallIndex(Reversed(lengths, n));
    index := ReverseBits(Shr(symbol, l - FIRST_BITS), FIRST_BITS);
  }

  /** The longest code behind each index of the head table. */
  method FindLongest(codes: array<nat>, lengths: array<nat>) returns (maxlens: array<nat>, ghost owner: seq<nat>)
    requires CodesOk(codes[..], lengths[..]) && Bounded(lengths[..])
    ensures fresh(maxlens) && LongestBehind(lengths[..], lengths.Length, maxlens[..], owner)
  {
    maxlens := new nat[HEAD_SIZE](i => 0);
    owner := seq(HEAD_SIZE, i => 0);
    ghost var all := lengths[..];
    NoneLongest(all, maxlens[..], owner);
    for i := 0 to lengths.Length
      invariant LongestBehind(all, i, maxlens[..], owner)
    {
      var symbol: nat, l: nat := codes[i], lengths[i];
      var index := 0;
      if l > FIRST_BITS {
        index := HeadIndex(symbol, l, all, i);
      }
      ghost var before := maxlens[..];
      if l > FIRST_BITS && maxlens[index] < l {
        RaiseLongest(all, i, before, owner, index);
        maxlens[index] := l;
        owner := owner[index := i];
        assert maxlens[..] == before[index := l];
      } else {
        assert l > FIRST_BITS ==> LongestCovers(all, before, i);
        KeepLongest(all, i, before, owner);
      }
    }
  }

  /** Allocates the tables and points the head entries of long codes to secondary tables. */
  method LayOut(maxlens: array<nat>) returns (tableLen: array<nat>, tableValue: array<nat>)
    requires maxlens.Length == HEAD_SIZE
    ensures fresh(tableLen) && fresh(tableValue) && tableLen != tableValue
    ensures LaidOut(maxlens[..], tableLen[..], tableValue[..])
  {
    ghost var all := maxlens[..];
    var size := HEAD_SIZE;
    for i := 0 to HEAD_SIZE
      invariant size == Start(all, i)
    {
      var l := maxlens[i];
      if l > FIRST_BITS {
        size := size + Pow2(l - FIRST_BITS);
      }
    }
    tableLen := new nat[size](i => UNUSED);
    tableValue := new nat[size](i => 0);
    StartGrows(all, HEAD_SIZE);
    var pointer := HEAD_SIZE;
    for i := 0 to HEAD_SIZE
      invariant pointer == Start(all, i)
      invariant forall k :: 0 <= k < i && IsPointer(all, k) ==> tableLen[k] == all[k] && tableValue[k] == Start(all, k)
      invariant forall k :: 0 <= k < size && (k >= i || !IsPointer(all, k)) ==> tableLen[k] == UNUSED
      invariant maxlens[..] == all
    {
      var l := maxlens[i];
      if l > FIRST_BITS {
        tableLen[i] := l;
        tableValue[i] := pointer;
        pointer := pointer + Pow2(l - FIRST_BITS);
      }
    }
  }

  /** Writes all copies of a short symbol, unless another symbol is in the way. */
  method FillShort(tableLen: array<nat>, tableValue: array<nat>, i: nat, l: nat, reverse: nat,
                   ghost lengths: seq<nat>, ghost maxlens: seq<nat>, ghost owner: seq<nat>, ghost slots: seq<(nat, nat)>)
    returns (ok: bool)
    requires tableLen != tableValue && Bounded(lengths)
    requires i < |lengths| && 0 < l == lengths[i] <= FIRST_BITS && reverse == Reversed(lengths, i)
    requires Filled(lengths, maxlens, owner, slots, i, 0, tableLen[..], tableValue[..])
    modifies tableLen, tableValue
    ensures ok ==> Filled(lengths, maxlens, owner, slots, i + 1, 0, tableLen[..], tableValue[..])
    ensures !ok ==> !Decodable(lengths)
  {
    hide Low, Shl, Shr, Reversed, Slots, Bounded, Decodable, CodeOk;
    var num := Pow2(FIRST_BITS - l);
    for j := 0 to num
      invariant Filled(lengths, maxlens, owner, slots, i, j, tableLen[..], tableValue[..])
    {
      ShortCopy(lengths, slots, i, j);
      var index := reverse + Shl(j, l);
      if tableLen[index] != UNUSED {
        TakenSlot(lengths, maxlens, owner, slots, i, j, tableLen[..], tableValue[..], index);
        return false;
      }
      FreeSlot(lengths, maxlens, owner, slots, i, j, tableLen[..], tableValue[..], index);
      PlaceCopy(lengths, maxlens, owner, slots, i, j, tableLen[..], tableValue[..], index);
      tableLen[index] := l;
      tableValue[index] := i;
    }
    ShortCopies(lengths, slots, i);
    NextSymbol(lengths, maxlens, owner, slots, i, num, tableLen[..], tableValue[..]);
    ok := true;
  }

  lemma FreeSlot(lengths: seq<nat>, maxlens: seq<nat>, owner: seq<nat>, slots: seq<(nat, nat)>,
                 n: nat, j: nat, tlen: seq<nat>, tval: seq<nat>, k: nat)
    requires Filled(lengths, maxlens, owner, slots, n, j, tlen, tval)
    requires k < HEAD_SIZE && tlen[k] == UNUSED
    ensures !IsPointer(maxlens, k)
  {
    assert SlotOk(lengths, maxlens, slots, n, j, tlen, tval, k);
  }

  /** The head entry of a long symbol leads to a secondary table that has room for it. */
  lemma PointerOf(lengths: seq<nat>, maxlens: seq<nat>, owner: seq<nat>, slots: seq<(nat, nat)>,
                  n: nat, tlen: seq<nat>, tval: seq<nat>)
    requires Filled(lengths, maxlens, owner, slots, n, 0, tlen, tval)
    requires n < |lengths| && lengths[n] > FIRST_BITS
    ensures var k := Low(Reversed(lengths, n), FIRST_BITS);
            k < HEAD_SIZE && tlen[k] == maxlens[k] >= lengths[n] && tval[k] == Start(maxlens, k)
    ensures LongestCovers(lengths, maxlens, n)
  {
    LongestOf(lengths, maxlens, owner, n);
    assert SlotOk(lengths, maxlens, slots, n, 0, tlen, tval, Low(Reversed(lengths, n), FIRST_BITS));
  }

  /** Writes all copies of a long symbol into its secondary table. */
  method FillLong(tableLen: array<nat>, tableValue: array<nat>, i: nat, l: nat, reverse: nat,
                  ghost lengths: seq<nat>, ghost maxlens: seq<nat>, ghost owner: seq<nat>, ghost slots: seq<(nat, nat)>)
    requires tableLen != tableValue && Bounded(lengths)
    requires i < |lengths| && FIRST_BITS < l == lengths[i] && reverse == Reversed(lengths, i)
    requires Filled(lengths, maxlens, owner, slots, i, 0, tableLen[..], tableValue[..])
    modifies tableLen, tableValue
    ensures Filled(lengths, maxlens, owner, slots, i + 1, 0, tableLen[..], tableValue[..])
  {
    hide Low, Shl, Shr, Reversed, Slots, Bounded, CodeOk;
    PointerOf(lengths, maxlens, owner, slots, i, tableLen[..], tableValue[..]);
    var index := Low(reverse, FIRST_BITS);
    var maxlen := tableLen[index];
    assert maxlen >= l;  // no code is longer than its table entry allows
    var tablelen := maxlen - FIRST_BITS;
    var start := tableValue[index];
    var num := Pow2(tablelen - (l - FIRST_BITS));
    for j := 0 to num
      invariant Filled(lengths, maxlens, owner, slots, i, j, tableLen[..], tableValue[..])
    {
      LongCopy(lengths, maxlens, i, j);
      var reverse2 := Shr(reverse, FIRST_BITS);
      var index2 := start + (reverse2 + Shl(j, l - FIRST_BITS));
      PlaceCopy(lengths, maxlens, owner, slots, i, j, tableLen[..], tableValue[..], index2);
      tableLen[index2] := l;
      tableValue[index2] := i;
    }
    LongCopies(lengths, maxlens, i);
    NextSymbol(lengths, maxlens, owner, slots, i, num, tableLen[..], tableValue[..]);
  }

  /** Counts the symbols present while writing each of them into the table. */
  method FillTable(codes: array<nat>, lengths: array<nat>, tableLen: array<nat>, tableValue: array<nat>,
                   ghost maxlens: seq<nat>, ghost owner: seq<nat>, ghost slots: seq<(nat, nat)>)
    returns (ok: bool, numpresent: nat)
    requires tableLen != tableValue && lengths !in {tableLen, tableValue} && codes !in {tableLen, tableValue}
    requires CodesOk(codes[..], lengths[..]) && Bounded(lengths[..])
    requires Filled(lengths[..], maxlens, owner, slots, 0, 0, tableLen[..], tableValue[..])
    modifies tableLen, tableValue
    ensures ok ==> numpresent == Present(lengths[..])
    ensures ok ==> Filled(lengths[..], maxlens, owner, slots, lengths.Length, 0, tableLen[..], tableValue[..])
    ensures !ok ==> !Decodable(lengths[..])
  {
    ghost var all := lengths[..];
    numpresent := 0;
    for i := 0 to lengths.Length
      invariant numpresent == Present(all[..i])
      invariant Filled(all, maxlens, owner, slots, i, 0, tableLen[..], tableValue[..])
    {
      var l := lengths[i];
      assert CodeOk(codes[i], all, i);
      var reverse := ReverseBits(codes[i], l);
      assert all[..i + 1][..i] == all[..i];
      if l == 0 {
        SkipAbsent(all, maxlens, owner, slots, i, tableLen[..], tableValue[..]);
      } else {
        numpresent := numpresent + 1;
        if l <= FIRST_BITS {
          ok := FillShort(tableLen, tableValue, i, l, reverse, all, maxlens, owner, slots);
          if !ok {
            return;
          }
        } else {
          FillLong(tableLen, tableValue, i, l, reverse, all, maxlens, owner, slots);
        }
      }
    }
    assert all[..lengths.Length] == all;
    ok := true;
  }

  /** Entries no symbol uses are invalid codes in a tree of at most one symbol, and an error otherwise. */
  method FinishTable(numpresent: nat, tableLen: array<nat>, tableValue: array<nat>) returns (ok: bool)
    requires tableLen != tableValue && tableLen.Length == tableValue.Length
    modifies tableLen, tableValue
    ensures ok ==> Finished(old(tableLen[..]), old(tableValue[..]), tableLen[..], tableValue[..])
    ensures ok && numpresent >= 2 ==> forall k :: 0 <= k < tableLen.Length ==> old(tableLen[k]) != UNUSED
    ensures !ok ==> numpresent >= 2 && exists k :: 0 <= k < tableLen.Length && old(tableLen[k]) == UNUSED
  {
    if numpresent < 2 {
      for i := 0 to tableLen.Length
        invariant forall k :: i <= k < tableLen.Length ==>
                    tableLen[k] == old(tableLen[k]) && tableValue[k] == old(tableValue[k])
        invariant Finished(old(tableLen[..i]), old(tableValue[..i]), tableLen[..i], tableValue[..i])
      {
        if tableLen[i] == UNUSED {
          tableLen[i] := if i < HEAD_SIZE then 1 else FIRST_BITS + 1;
          tableValue[i] := INVALID_SYMBOL;
        }
      }
    } else {
      for i := 0 to tableLen.Length
        invariant tableLen[..] == old(tableLen[..]) && tableValue[..] == old(tableValue[..])
        invariant forall k :: 0 <= k < i ==> tableLen[k] != UNUSED
      {
        if tableLen[i] == UNUSED {
          return false;
        }
      }
    }
    ok := true;
  }

  /** Builds the two-level table, or finds that the lengths do not describe a usable code. */
  method MakeTable(codes: array<nat>, lengths: array<nat>)
    returns (error: nat, tableLen: array<nat>, tableValue: array<nat>)
    requires CodesOk(codes[..], lengths[..]) && Bounded(lengths[..]) && lengths.Length <= 288
    ensures fresh(tableLen) && fresh(tableValue)
    ensures error == if Decodable(lengths[..]) then 0 else INVALID_TREE
    ensures error == 0 ==> TableOk(lengths[..], tableLen[..], tableValue[..])
  {
    ghost var all := lengths[..];
    var maxlens, owner := FindLongest(codes, lengths);
    ghost var longest := maxlens[..];
    tableLen, tableValue := LayOut(maxlens);
    ghost var slots := Slots(longest, HEAD_SIZE);
    LaidOutIsFilled(all, longest, owner, tableLen[..], tableValue[..]);
    var ok, numpresent := FillTable(codes, lengths, tableLen, tableValue, longest, owner, slots);
    if !ok {
      return INVALID_TREE, tableLen, tableValue;
    }
    ghost var tlen, tval := tableLen[..], tableValue[..];
    ok := FinishTable(numpresent, tableLen, tableValue);
    if !ok {
      ghost var k :| 0 <= k < |tlen| && tlen[k] == UNUSED;
      UnusedIsIncomplete(all, longest, owner, slots, tlen, tval, k);
      return INVALID_TREE, tableLen, tableValue;
    }
    if numpresent >= 2 {
      FullIsComplete(all, longest, owner, slots, tlen, tval);
    }
    FinishedTable(all, longest, owner, slots, tlen, tval, tableLen[..], tableValue[..]);
    error := 0;
  }

  lemma FinishedTable(lengths: seq<nat>, maxlens: seq<nat>, owner: seq<nat>, slots: seq<(nat, nat)>,
                      tlen: seq<nat>, tval: seq<nat>, tlen': seq<nat>, tval': seq<nat>)
    requires Bounded(lengths) && Filled(lengths, maxlens, owner, slots, |lengths|, 0, tlen, tval)
    requires Finished(tlen, tval, tlen', tval')
    ensures TableOk(lengths, tlen', tval')
  {
    forall x: nat
      ensures LookupOk(lengths, tlen', tval', x)
    {
      FinishedLookup(lengths, maxlens, owner, slots, tlen, tval, tlen', tval', x);
    }
  }

  // ----- the tree object

  /** A Kraft sum of one at the greatest length is one at every greater length. */
  lemma {:induction false} FullAtEveryLevel(lengths: seq<nat>, l: nat, top: nat)
    requires l <= top && Kraft(lengths, l) == Pow2(l) && forall n :: 0 <= n < |lengths| ==> lengths[n] <= l
    ensures Kraft(lengths, top) == Pow2(top)
  {
    if l < top {
      FullAtEveryLevel(lengths, l, top - 1);
      KraftStep(lengths, top - 1);
      NoneOf(lengths, top);
    }
  }

  class HuffmanTree {
    var codes: array<nat>
    var lengths: array<nat>
    var maxbitlen: nat
    var numcodes: nat
    var tableLen: array<nat>
    var tableValue: array<nat>

    ghost predicate Valid()
      reads this, codes, lengths, tableLen, tableValue
    {
      && numcodes == lengths.Length <= 288
      && CodesOk(codes[..], lengths[..])
      && Bounded(lengths[..])
      && Decodable(lengths[..])
      && TableOk(lengths[..], tableLen[..], tableValue[..])
    }

    constructor ()
    {
      codes, lengths, tableLen, tableValue := new nat[0], new nat[0], new nat[0], new nat[0];
      maxbitlen, numcodes := 0, 0;
    }

    method MakeFromLengths2() returns (error: nat)
      requires lengths.Length <= 288 && maxbitlen <= MAX_CODE_BITS && numcodes == lengths.Length
      requires forall n :: 0 <= n < lengths.Length ==> lengths[n] <= maxbitlen
      modifies this
      ensures lengths == old(lengths)
      ensures fresh(codes) && fresh(tableLen) && fresh(tableValue)
      ensures error == if Decodable(lengths[..]) then 0 else INVALID_TREE
      ensures error == 0 ==> Valid()
    {
      var blcount := CountLengths(lengths, maxbitlen);
      var nextcode := FirstCodes(blcount, lengths[..]);
      assert lengths[..][..0] == [];
      codes := NumberSymbols(lengths, nextcode);
      error, tableLen, tableValue := MakeTable(codes, lengths);
    }

    /** The tree for symbols with the given frequencies; symbols at the end that do not occur are dropped. */
    method MakeFromFrequencies(frequencies: array<nat>, mincodes: nat, numcodes: nat, maxbitlen: nat)
      returns (error: nat)
      requires 2 <= mincodes <= numcodes <= frequencies.Length && numcodes <= 288 && maxbitlen <= MAX_CODE_BITS
      modifies this
      ensures fresh(codes) && fresh(lengths) && fresh(tableLen) && fresh(tableValue)
      ensures mincodes <= this.numcodes <= numcodes
      ensures forall s :: this.numcodes <= s < numcodes ==> frequencies[s] == 0
      ensures error == if Pow2(maxbitlen) < this.numcodes then TOO_MANY_SYMBOLS else 0
      ensures error == 0 ==> Valid() && Complete(lengths[..])
      ensures error == 0 ==> GoodLengths(lengths[..], frequencies[..this.numcodes], maxbitlen)
      ensures error == 0 ==> Optimal(lengths[..], frequencies[..this.numcodes], maxbitlen)
    {
      hide Kraft, Pow2, Optimal;
      var n := numcodes;
      while frequencies[n - 1] == 0 && n > mincodes
        invariant mincodes <= n <= numcodes
        invariant forall s :: n <= s < numcodes ==> frequencies[s] == 0
      {
        n := n - 1;
      }
      codes, tableLen, tableValue := new nat[0], new nat[0], new nat[0];
      lengths := new nat[n];
      this.maxbitlen := maxbitlen;
      this.numcodes := n;
      error := HuffmanCodeLengths(lengths, frequencies, n, maxbitlen);
      if error == 0 {
        FullAtEveryLevel(lengths[..], maxbitlen, MAX_CODE_BITS);
        error := MakeFromLengths2();
      }
    }

    /** The tree for code lengths as stored in the stream. */
    method MakeFromLengths(bitlen: seq<nat>, maxbitlen: nat) returns (error: nat)
      requires |bitlen| <= 288 && maxbitlen <= MAX_CODE_BITS
      requires forall n :: 0 <= n < |bitlen| ==> bitlen[n] <= maxbitlen
      modifies this
      ensures fresh(codes) && fresh(lengths) && fresh(tableLen) && fresh(tableValue)
      ensures lengths[..] == bitlen
      ensures error == if Decodable(bitlen) then 0 else INVALID_TREE
      ensures error == 0 ==> Valid()
    {
      lengths := new nat[|bitlen|](i requires 0 <= i < |bitlen| => bitlen[i]);
      numcodes := |bitlen|;
      this.maxbitlen := maxbitlen;
      assert lengths[..] == bitlen;
      error := MakeFromLengths2();
    }
  }

  /** The tree object represents the code with these lengths. */
  ghost predicate TreeFor(tree: HuffmanTree, lengths: seq<nat>)
    reads tree, tree.codes, tree.lengths, tree.tableLen, tree.tableValue
  {
    tree.Valid() && tree.lengths[..] == lengths
  }

  lemma SameLengths(tree: HuffmanTree, lengths: seq<nat>)
    requires TreeFor(tree, lengths)
    ensures tree.lengths[..] == lengths
  {
  }

  lemma SameSize(tree: HuffmanTree)
    requires tree.Valid()
    ensures tree.numcodes == tree.lengths.Length
  {
  }

  /** Looking up the next bits in the table is decoding the symbol. */
  lemma LookupIsDecode(lengths: seq<nat>, tlen: seq<nat>, tval: seq<nat>, w: seq<bit>)
    requires |lengths| <= 288 && Bounded(lengths) && Decodable(lengths) && TableOk(lengths, tlen, tval)
    requires |w| == MAX_CODE_BITS
    ensures var (value, length) := Lookup(tlen, tval, Lsb(w));
            && value == DecodeSymbol(lengths, w)
            && (value == INVALID_SYMBOL || (value < |lengths| && length == lengths[value]))
    ensures LookupOk(lengths, tlen, tval, Lsb(w))
  {
    assert LookupOk(lengths, tlen, tval, Lsb(w));
    var value, s := Lookup(tlen, tval, Lsb(w)).0, DecodeSymbol(lengths, w);
    HitsIsMatch(lengths, value, w);
    HitsIsMatch(lengths, s, w);
    if Hits(lengths, value, Lsb(w)) {
      assert Matches(lengths, value, w);
      UniqueHit(lengths, value, s, Lsb(w));
    }
  }

  /** The value and length that decoding may report for the bits `w`. */
  ghost predicate DecodesTo(lengths: seq<nat>, w: seq<bit>, value: nat, length: nat) {
    && value == DecodeSymbol(lengths, w)
    && (value == INVALID_SYMBOL || (value < |lengths| && length == lengths[value]))
  }

  /** What the two lookups see, in terms of the bits of the stream. */
  lemma TwoLookups(lengths: seq<nat>, tlen: seq<nat>, tval: seq<nat>, data: seq<byte>, p: nat)
    requires |lengths| <= 288 && Bounded(lengths) && Decodable(lengths) && TableOk(lengths, tlen, tval)
    ensures var w := Peek(data, p, MAX_CODE_BITS);
            var code := Lsb(Peek(data, p, FIRST_BITS));
            && code < |tlen| == |tval| && 0 < tlen[code] <= MAX_CODE_BITS
            && if tlen[code] <= FIRST_BITS then DecodesTo(lengths, w, tval[code], tlen[code])
               else
                 var index2 := tval[code] + Lsb(Peek(data, p + FIRST_BITS, tlen[code] - FIRST_BITS));
                 && index2 < |tlen| && FIRST_BITS < tlen[index2] <= MAX_CODE_BITS
                 && DecodesTo(lengths, w, tval[index2], tlen[index2])
  {
    hide Decodable, Bounded, DecodeSymbol, Lsb, Low, Peek;
    var w := Peek(data, p, MAX_CODE_BITS);
    LookupIsDecode(lengths, tlen, tval, w);
    LowSmallIndex(Lsb(w));
    PeekShift(data, p, MAX_CODE_BITS, FIRST_BITS);
    var code := Lsb(Peek(data, p, FIRST_BITS));
    if tlen[code] > FIRST_BITS {
      PeekShift(data, p + FIRST_BITS, MAX_CODE_BITS - FIRST_BITS, tlen[code] - FIRST_BITS);
    }
  }

  /** Decodes one symbol; the reader must hold at least 15 bits. */
  method HuffmanDecodeSymbol(reader: BitReader, codetree: HuffmanTree) returns (symbol: nat)
    requires reader.Valid() && reader.avail >= MAX_CODE_BITS && codetree.Valid()
    modifies reader
    ensures reader.Valid() && reader.bp >= old(reader.bp)
    ensures symbol == DecodeSymbol(codetree.lengths[..], Peek(reader.data, old(reader.bp), MAX_CODE_BITS))
    ensures symbol != INVALID_SYMBOL ==>
              && symbol < codetree.numcodes
              && reader.bp == old(reader.bp) + codetree.lengths[symbol]
              && reader.avail == old(reader.avail) - codetree.lengths[symbol]
  {
    hide CodesOk, TableOk, Decodable, Bounded, DecodeSymbol, Peek, Lsb;
    ghost var lengths, p := codetree.lengths[..], reader.bp;
    TwoLookups(codetree.lengths[..], codetree.tableLen[..], codetree.tableValue[..], reader.data, reader.bp);
    var code := reader.PeekBits(FIRST_BITS);
    var l := codetree.tableLen[code];
    var value := codetree.tableValue[code];
    if l <= FIRST_BITS {
      reader.AdvanceBits(l);
      assert codetree.lengths[..] == lengths;
      return value;
    } else {
      reader.AdvanceBits(FIRST_BITS);
      var more := reader.PeekBits(l - FIRST_BITS);
      var index2 := value + more;
      value := codetree.tableValue[index2];
      reader.AdvanceBits(codetree.tableLen[index2] - FIRST_BITS);
      assert codetree.lengths[..] == lengths;
      return value;
    }
  }
}
