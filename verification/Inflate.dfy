/**
  The inflater: blocks, trees and symbols read through the bit reader and the
  two-level tables, with the same results and errors as `InflateSpec`.
 */
module Inflate {
  import opened Bits
  import opened BitStreams
  import opened HuffmanCode
  import opened HuffmanTrees
  import opened Lz77
  import opened LengthRuns
  import opened InflateSpec

  // ----- code lengths of a dynamic block

  /** The two arrays hold the lengths read so far, literal/length codes first, then zeros. */
  ghost predicate Stored(acc: seq<nat>, hlit: nat, ll: seq<nat>, d: seq<nat>) {
    && |ll| == NUM_DEFLATE_CODE_SYMBOLS && |d| == NUM_DISTANCE_SYMBOLS && hlit <= |ll|
    && |acc| <= hlit + |d|
    && if |acc| <= hlit then ll == Padded(acc, |ll|) && d == Padded([], |d|)
       else ll == Padded(acc[..hlit], |ll|) && d == Padded(acc[hlit..], |d|)
  }

  lemma StoreOne(acc: seq<nat>, hlit: nat, ll: seq<nat>, d: seq<nat>, value: nat)
    requires Stored(acc, hlit, ll, d) && |acc| < hlit + |d|
    ensures |acc| < hlit ==> Stored(acc + [value], hlit, ll[|acc| := value], d)
    ensures |acc| >= hlit ==> Stored(acc + [value], hlit, ll, d[|acc| - hlit := value])
  {
    if |acc| < hlit {
      assert ll[|acc| := value] == Padded(acc + [value], |ll|);
    } else {
      assert (acc + [value])[..hlit] == acc[..hlit] && (acc + [value])[hlit..] == acc[hlit..] + [value];
      assert |acc| == hlit ==> acc[..hlit] == acc && acc[hlit..] == [];
      assert d[|acc| - hlit := value] == Padded(acc[hlit..] + [value], |d|);
    }
  }

  /** The previous length, in whichever array it is. */
  lemma PreviousLength(acc: seq<nat>, hlit: nat, ll: seq<nat>, d: seq<nat>)
    requires Stored(acc, hlit, ll, d) && acc != []
    ensures acc[|acc| - 1] == if |acc| < hlit + 1 then ll[|acc| - 1] else d[|acc| - hlit - 1]
  {
  }

  /** Stores a length repeatedly, stopping after the last code. */
  method StoreRun(value: nat, count: nat, i0: nat, hlit: nat, total: nat, bitlenLL: array<nat>, bitlenD: array<nat>,
                  ghost acc: seq<nat>)
    returns (i: nat, ok: bool)
    requires bitlenLL != bitlenD && Stored(acc, hlit, bitlenLL[..], bitlenD[..])
    requires |acc| == i0 <= total <= hlit + NUM_DISTANCE_SYMBOLS
    modifies bitlenLL, bitlenD
    ensures ok <==> i0 + count <= total
    ensures ok ==> i == i0 + count && Stored(acc + Copies(value, count), hlit, bitlenLL[..], bitlenD[..])
  {
    i := i0;
    assert acc + Copies(value, 0) == acc;
    for n := 0 to count
      invariant i == i0 + n <= total
      invariant Stored(acc + Copies(value, n), hlit, bitlenLL[..], bitlenD[..])
    {
      if i >= total {
        return i, false;
      }
      StoreOne(acc + Copies(value, n), hlit, bitlenLL[..], bitlenD[..], value);
      assert acc + Copies(value, n) + [value] == acc + Copies(value, n + 1);
      if i < hlit {
        bitlenLL[i] := value;
      } else {
        bitlenD[i - hlit] := value;
      }
      i := i + 1;
    }
    ok := true;
  }

  /** Reads one run and stores it. */
  method ReadRun(reader: BitReader, code: nat, i0: nat, hlit: nat, total: nat, bitlenLL: array<nat>, bitlenD: array<nat>,
                 ghost acc: seq<nat>)
    returns (i: nat, error: nat)
    requires bitlenLL != bitlenD && Stored(acc, hlit, bitlenLL[..], bitlenD[..])
    requires |acc| == i0 < total <= hlit + NUM_DISTANCE_SYMBOLS && code <= 18 && (code == 16 ==> i0 > 0)
    requires reader.Valid() && reader.avail >= 7
    modifies reader, bitlenLL, bitlenD
    ensures reader.Valid() && reader.bp == old(reader.bp) + RunBits(code)
    ensures var run := RunAt(reader.data, code, old(reader.bp));
            if i0 + RunLength(run) > total then error == RunError(code)
            else error == 0 && i == i0 + RunLength(run) && Stored(ApplyRun(run, acc), hlit, bitlenLL[..], bitlenD[..])
  {
    hide Stored, BitReader.Valid, Peek, Lsb;
    error := 0;
    var ok;
    if code <= 15 {
      i, ok := StoreRun(code, 1, i0, hlit, total, bitlenLL, bitlenD, acc);
      assert acc + Copies(code, 1) == acc + [code];
    } else if code == 16 {
      var replength := 3;
      var extra := reader.ReadBits(2);
      replength := replength + extra;
      PreviousLength(acc, hlit, bitlenLL[..], bitlenD[..]);
      StoredSizes(acc, hlit, bitlenLL[..], bitlenD[..]);
      var value := if i0 < hlit + 1 then bitlenLL[i0 - 1] else bitlenD[i0 - hlit - 1];
      i, ok := StoreRun(value, replength, i0, hlit, total, bitlenLL, bitlenD, acc);
      error := if ok then 0 else 13;
    } else if code == 17 {
      var extra := reader.ReadBits(3);
      i, ok := StoreRun(0, 3 + extra, i0, hlit, total, bitlenLL, bitlenD, acc);
      error := if ok then 0 else 14;
    } else {
      var extra := reader.ReadBits(7);
      i, ok := StoreRun(0, 11 + extra, i0, hlit, total, bitlenLL, bitlenD, acc);
      error := if ok then 0 else 15;
    }
  }

  lemma StoredSizes(acc: seq<nat>, hlit: nat, ll: seq<nat>, d: seq<nat>)
    requires Stored(acc, hlit, ll, d)
    ensures |ll| == NUM_DEFLATE_CODE_SYMBOLS && |d| == NUM_DISTANCE_SYMBOLS && hlit <= |ll| && |acc| <= hlit + |d|
  {
  }

  /** Reads all code lengths of a dynamic block into the two arrays. */
  method ReadCodeLengths(reader: BitReader, tree: HuffmanTree, hlit: nat, total: nat,
                         bitlenLL: array<nat>, bitlenD: array<nat>)
    returns (error: nat)
    requires bitlenLL != bitlenD && Stored([], hlit, bitlenLL[..], bitlenD[..])
    requires {tree.lengths, tree.codes, tree.tableLen, tree.tableValue} !! {bitlenLL, bitlenD}
    requires tree.Valid() && tree.numcodes == NUM_CODE_LENGTH_CODES && reader.Valid()
    requires total <= hlit + NUM_DISTANCE_SYMBOLS
    requires forall i :: 0 <= i < tree.numcodes ==> tree.lengths[i] <= 7
    modifies reader, bitlenLL, bitlenD
    ensures reader.Valid()
    ensures var r := ReadLengths(reader.data, tree.lengths[..], old(reader.bp), [], total);
            && error == ErrorOf(r)
            && (r.Ok? ==> reader.bp == r.value.pos && Stored(r.value.value, hlit, bitlenLL[..], bitlenD[..]))
  {
    hide Stored, ReadLengths, HuffmanTree.Valid, BitReader.Valid, DecodeSymbol, Peek, Lsb, ApplyRun;
    ghost var cl, acc: seq<nat>, data := tree.lengths[..], [], reader.data;
    SameSize(tree);
    var i := 0;
    error := 0;
    while i < total
      invariant reader.Valid() && i == |acc| <= total && Stored(acc, hlit, bitlenLL[..], bitlenD[..])
      invariant forall k :: 0 <= k < |acc| ==> acc[k] <= 15
      invariant tree.lengths[..] == cl && tree.Valid()
      invariant ReadLengths(data, cl, old(reader.bp), [], total) == ReadLengths(data, cl, reader.bp, acc, total)
      decreases total - i
    {
      ReadLengthsStep(data, cl, reader.bp, acc, total);
      var ok := reader.EnsureBits25(22);
      var code := HuffmanDecodeSymbol(reader, tree);
      if code == INVALID_SYMBOL {
        return 16;
      }
      if code == 16 && i == 0 {
        return 54;
      }
      ghost var run := RunAt(data, code, reader.bp);
      i, error := ReadRun(reader, code, i, hlit, total, bitlenLL, bitlenD, acc);
      acc := ApplyRun(run, acc);
      if reader.bp > 8 * |reader.data| {
        return 50;
      }
      if error != 0 {
        return;
      }
    }
    ReadLengthsDone(data, cl, reader.bp, acc);
  }

  /** Reads the lengths of the code length code. */
  method ReadClLengths(reader: BitReader, hclen: nat) returns (bitlenCl: array<nat>)
    requires reader.Valid() && hclen <= NUM_CODE_LENGTH_CODES
    modifies reader
    ensures fresh(bitlenCl) && reader.Valid() && reader.bp == old(reader.bp) + 3 * hclen
    ensures bitlenCl[..] == FromClOrder(Triples(reader.data, old(reader.bp), hclen))
  {
    hide CLCL_ORDER, CL_POSITION, BitReader.Valid, FromClOrder, NUM_CODE_LENGTH_CODES, Triples;
    ClOrderIsPermutation();
    bitlenCl := new nat[NUM_CODE_LENGTH_CODES];
    ghost var data, p := reader.data, reader.bp;
    for i := 0 to hclen
      invariant reader.Valid() && reader.bp == p + 3 * i
      invariant forall k :: 0 <= k < i ==> bitlenCl[CLCL_ORDER[k]] == Triples(data, p, i)[k]
    {
      assert forall k :: 0 <= k < i ==> CLCL_ORDER[k] != CLCL_ORDER[i] by {
        DistinctOrder();
      }
      var ok := reader.EnsureBits9(3);
      OneMoreTriple(data, p, i);
      bitlenCl[CLCL_ORDER[i]] := reader.ReadBits(3);
    }
    ghost var values := Triples(data, p, hclen);
    ClearRest(bitlenCl, hclen, values);
    FromClOrderIs(values, bitlenCl[..]);
  }

  lemma OneMoreTriple(data: seq<byte>, p: nat, n: nat)
    ensures Triples(data, p, n + 1) == Triples(data, p, n) + [Number(data, p + 3 * n, 3)]
  {
  }

  /** The lengths that are not transmitted are zero. */
  method ClearRest(bitlenCl: array<nat>, hclen: nat, ghost values: seq<nat>)
    requires hclen <= NUM_CODE_LENGTH_CODES == bitlenCl.Length == |CLCL_ORDER| && |values| == hclen
    requires forall k :: 0 <= k < |CLCL_ORDER| ==> CLCL_ORDER[k] < NUM_CODE_LENGTH_CODES
    requires forall k :: 0 <= k < hclen ==> bitlenCl[CLCL_ORDER[k]] == values[k]
    modifies bitlenCl
    ensures forall k :: 0 <= k < NUM_CODE_LENGTH_CODES ==> bitlenCl[CLCL_ORDER[k]] == if k < hclen then values[k] else 0
  {
    hide CLCL_ORDER, NUM_CODE_LENGTH_CODES;
    DistinctOrder();
    for i := hclen to NUM_CODE_LENGTH_CODES
      invariant forall k :: 0 <= k < i ==> bitlenCl[CLCL_ORDER[k]] == if k < hclen then values[k] else 0
    {
      bitlenCl[CLCL_ORDER[i]] := 0;
    }
  }

  lemma DistinctOrder()
    ensures |CLCL_ORDER| == NUM_CODE_LENGTH_CODES
    ensures forall j, k :: 0 <= k < j < NUM_CODE_LENGTH_CODES ==> CLCL_ORDER[k] != CLCL_ORDER[j]
  {
    hide CLCL_ORDER, CL_POSITION;
    ClOrderIsPermutation();
    forall j, k | 0 <= k < j < NUM_CODE_LENGTH_CODES
      ensures CLCL_ORDER[k] != CLCL_ORDER[j]
    {
      assert CL_POSITION[CLCL_ORDER[k]] == k && CL_POSITION[CLCL_ORDER[j]] == j;
    }
  }

  // ----- the trees of a block

  lemma StoredIsPadded(acc: seq<nat>, hlit: nat, ll: seq<nat>, d: seq<nat>)
    requires Stored(acc, hlit, ll, d) && hlit <= |acc|
    ensures hlit <= NUM_DEFLATE_CODE_SYMBOLS && |acc| <= hlit + NUM_DISTANCE_SYMBOLS
    ensures ll == Padded(acc[..hlit], NUM_DEFLATE_CODE_SYMBOLS) && d == Padded(acc[hlit..], NUM_DISTANCE_SYMBOLS)
  {
    assert |acc| == hlit ==> acc[..hlit] == acc && acc[hlit..] == [];
  }

  /** Both trees of a dynamic block from all its code lengths. */
  method MakeDynamicTrees(treeLL: HuffmanTree, treeD: HuffmanTree, bitlenLL: array<nat>, bitlenD: array<nat>,
                          ghost lengths: seq<nat>, ghost hlit: nat)
    returns (error: nat)
    requires treeLL != treeD && END_CODE < hlit <= |lengths|
    requires Stored(lengths, hlit, bitlenLL[..], bitlenD[..]) && forall i :: 0 <= i < |lengths| ==> lengths[i] <= 15
    modifies treeLL, treeD
    ensures hlit <= NUM_DEFLATE_CODE_SYMBOLS && |lengths| <= hlit + NUM_DISTANCE_SYMBOLS
    ensures var r := TreesFrom(lengths, hlit);
            error == ErrorOf(r) && (r.Ok? ==> TreeFor(treeLL, r.value.ll) && TreeFor(treeD, r.value.d))
  {
    hide Stored, Decodable, HuffmanTree.Valid;
    StoredIsPadded(lengths, hlit, bitlenLL[..], bitlenD[..]);
    if bitlenLL[256] == 0 {
      return 64;
    }
    error := treeLL.MakeFromLengths(bitlenLL[..], 15);
    if error == 0 {
      error := treeD.MakeFromLengths(bitlenD[..], 15);
    }
  }

  /** Reads the tree for the code lengths of a dynamic block. */
  method ReadLengthsTree(reader: BitReader, hclen: nat) returns (error: nat, treeCl: HuffmanTree)
    requires reader.Valid() && hclen <= NUM_CODE_LENGTH_CODES
    modifies reader
    ensures reader.Valid() && fresh(treeCl)
    ensures var p := old(reader.bp);
            if p + 3 * hclen > 8 * |reader.data| then error == 50
            else
              var cl := FromClOrder(Triples(reader.data, p, hclen));
              && reader.bp == p + 3 * hclen && error == (if Decodable(cl) then 0 else INVALID_TREE_ERROR)
              && (error == 0 ==>
                    && TreeFor(treeCl, cl) && treeCl.numcodes == NUM_CODE_LENGTH_CODES
                    && forall i :: 0 <= i < treeCl.numcodes ==> treeCl.lengths[i] <= 7)
  {
    hide HuffmanTree.Valid, BitReader.Valid, Decodable, FromClOrder, Triples;
    treeCl := new HuffmanTree();
    if reader.bp + hclen * 3 > 8 * |reader.data| {
      return 50, treeCl;
    }
    FromClOrderBound(Triples(reader.data, reader.bp, hclen), 7);
    var bitlenCl := ReadClLengths(reader, hclen);
    error := treeCl.MakeFromLengths(bitlenCl[..], 7);
    if error == 0 {
      SameSize(treeCl);
    }
  }

  lemma ValidTree(tree: HuffmanTree, lengths: seq<nat>)
    requires TreeFor(tree, lengths)
    ensures tree.Valid() && tree.lengths[..] == lengths
  {
  }

  /** Reads the code lengths of both trees with the tree for them, and makes the trees. */
  method ReadTrees(treeLL: HuffmanTree, treeD: HuffmanTree, reader: BitReader, treeCl: HuffmanTree, ghost cl: seq<nat>,
                   hlit: nat, hdist: nat)
    returns (error: nat)
    requires treeLL != treeD && reader.Valid() && Decodable(cl) && TreeFor(treeCl, cl)
    requires treeCl.numcodes == NUM_CODE_LENGTH_CODES && forall i :: 0 <= i < treeCl.numcodes ==> treeCl.lengths[i] <= 7
    requires END_CODE < hlit <= NUM_DEFLATE_CODE_SYMBOLS && 0 < hdist <= NUM_DISTANCE_SYMBOLS
    modifies treeLL, treeD, reader
    ensures reader.Valid()
    ensures var r := ReadLengths(reader.data, cl, old(reader.bp), [], hlit + hdist);
            if r.Err? then error == r.error
            else
              var t := TreesFrom(r.value.value, hlit);
              && error == ErrorOf(t)
              && (t.Ok? ==> reader.bp == r.value.pos && TreeFor(treeLL, t.value.ll) && TreeFor(treeD, t.value.d))
  {
    hide Stored, ReadLengths, HuffmanTree.Valid, BitReader.Valid, TreesFrom, Decodable;
    ValidTree(treeCl, cl);
    var bitlenLL := new nat[NUM_DEFLATE_CODE_SYMBOLS](i => 0);
    var bitlenD := new nat[NUM_DISTANCE_SYMBOLS](i => 0);
    NothingStored(hlit, bitlenLL[..], bitlenD[..]);
    ghost var r := ReadLengths(reader.data, cl, reader.bp, [], hlit + hdist);
    error := ReadCodeLengths(reader, treeCl, hlit, hlit + hdist, bitlenLL, bitlenD);
    if error != 0 {
      return;
    }
    error := MakeDynamicTrees(treeLL, treeD, bitlenLL, bitlenD, r.value.value, hlit);
  }

  /** Reads the two trees of a dynamic block. */
  method GetTreeInflateDynamic(treeLL: HuffmanTree, treeD: HuffmanTree, reader: BitReader) returns (error: nat)
    requires treeLL != treeD && reader.Valid()
    modifies treeLL, treeD, reader
    ensures reader.Valid()
    ensures var r := DynamicTrees(reader.data, old(reader.bp));
            && error == ErrorOf(r)
            && (r.Ok? ==>
                && reader.bp == r.value.pos
                && TreeFor(treeLL, r.value.value.ll) && TreeFor(treeD, r.value.value.d))
  {
    hide Stored, ReadLengths, HuffmanTree.Valid, BitReader.Valid, TreesFrom, Decodable, FromClOrder, Triples, Peek, Lsb,
      TreeFor, TreesOk;
    ghost var data, p := reader.data, reader.bp;
    Pow2Values();
    var ok := reader.EnsureBits17(14);
    if !ok {
      return 49;
    }
    var hlit := reader.ReadBits(5);
    hlit := hlit + 257;
    var hdist := reader.ReadBits(5);
    hdist := hdist + 1;
    var hclen := reader.ReadBits(4);
    hclen := hclen + 4;
    var treeCl;
    error, treeCl := ReadLengthsTree(reader, hclen);
    if error != 0 {
      return;
    }
    ghost var cl := FromClOrder(Triples(data, p + 14, hclen));
    error := ReadTrees(treeLL, treeD, reader, treeCl, cl, hlit, hdist);
  }

  lemma NothingStored(hlit: nat, ll: seq<nat>, d: seq<nat>)
    requires hlit <= |ll| == NUM_DEFLATE_CODE_SYMBOLS && |d| == NUM_DISTANCE_SYMBOLS
    requires forall i :: 0 <= i < |ll| ==> ll[i] == 0
    requires forall i :: 0 <= i < |d| ==> d[i] == 0
    ensures Stored([], hlit, ll, d)
  {
  }

  method GenerateFixedLitLenTree(tree: HuffmanTree) returns (error: nat)
    modifies tree
    ensures fresh(tree.codes) && fresh(tree.lengths) && fresh(tree.tableLen) && fresh(tree.tableValue)
    ensures error == 0 && TreeFor(tree, FixedLitLen())
  {
    hide Kraft, Complete, HuffmanTree.Valid;
    var bitlen := new nat[NUM_DEFLATE_CODE_SYMBOLS];
    for i := 0 to 144
      invariant forall k :: 0 <= k < i ==> bitlen[k] == 8
    {
      bitlen[i] := 8;
    }
    for i := 144 to 256
      invariant forall k :: 0 <= k < i ==> bitlen[k] == if k < 144 then 8 else 9
    {
      bitlen[i] := 9;
    }
    for i := 256 to 280
      invariant forall k :: 0 <= k < i ==> bitlen[k] == if k < 144 then 8 else if k < 256 then 9 else 7
    {
      bitlen[i] := 7;
    }
    for i := 280 to 288
      invariant forall k :: 0 <= k < i ==>
                  bitlen[k] == if k < 144 then 8 else if k < 256 then 9 else if k < 280 then 7 else 8
    {
      bitlen[i] := 8;
    }
    assert bitlen[..] == FixedLitLen();
    FixedTreesOk();
    error := tree.MakeFromLengths(bitlen[..], 15);
  }

  method GenerateFixedDistanceTree(tree: HuffmanTree) returns (error: nat)
    modifies tree
    ensures fresh(tree.codes) && fresh(tree.lengths) && fresh(tree.tableLen) && fresh(tree.tableValue)
    ensures error == 0 && TreeFor(tree, FixedDistance())
  {
    hide Kraft, Complete, HuffmanTree.Valid;
    var bitlen := new nat[NUM_DISTANCE_SYMBOLS];
    for i := 0 to NUM_DISTANCE_SYMBOLS
      invariant forall k :: 0 <= k < i ==> bitlen[k] == 5
    {
      bitlen[i] := 5;
    }
    assert bitlen[..] == FixedDistance();
    FixedTreesOk();
    error := tree.MakeFromLengths(bitlen[..], 15);
  }

  method GetTreeInflateFixed(treeLL: HuffmanTree, treeD: HuffmanTree) returns (error: nat)
    requires treeLL != treeD
    modifies treeLL, treeD
    ensures error == 0 && TreeFor(treeLL, FixedLitLen()) && TreeFor(treeD, FixedDistance())
  {
    hide HuffmanTree.Valid, FixedLitLen, FixedDistance;
    error := GenerateFixedLitLenTree(treeLL);
    if error != 0 {
      return;
    }
    error := GenerateFixedDistanceTree(treeD);
  }

  // ----- the symbols of a block

  lemma {:induction false} CopyMatchStep(out: seq<byte>, distance: nat, length: nat)
    requires 1 <= distance <= |out|
    ensures var r := CopyMatch(out, distance, length);
            CopyMatch(out, distance, length + 1) == r + [r[|r| - distance]]
    decreases length
  {
    if length > 0 {
      CopyMatchStep(out + [out[|out| - distance]], distance, length - 1);
    } else {
      assert CopyMatch(out, distance, 1) == CopyMatch(out + [out[|out| - distance]], distance, 0);
    }
  }

  /** What a match adds repeats with its distance as the period. */
  lemma {:induction false} CopyMatchPeriod(out: seq<byte>, distance: nat, length: nat, k: nat)
    requires 1 <= distance <= |out| <= k < |out| + length
    ensures CopyMatch(out, distance, length)[k] == CopyMatch(out, distance, length)[k - distance]
    decreases length
  {
    CopyMatchStep(out, distance, length - 1);
    if k < |out| + length - 1 {
      CopyMatchPeriod(out, distance, length - 1, k);
    }
  }

  lemma {:induction false} CopyMatchApart(out: seq<byte>, distance: nat, length: nat)
    requires 1 <= distance <= |out| && length <= distance
    ensures CopyMatch(out, distance, length) == out + out[|out| - distance..|out| - distance + length]
  {
    if length > 0 {
      CopyMatchStep(out, distance, length - 1);
      CopyMatchApart(out, distance, length - 1);
    }
  }

  /** Makes room for a match and copies it, the part that does not overlap first. */
  method CopyBack(out: seq<byte>, distance: nat, length: nat) returns (r: seq<byte>)
    requires 1 <= distance <= |out|
    ensures r == CopyMatch(out, distance, length)
  {
    hide CopyMatch;
    var start: nat := |out|;
    var backward: nat := start - distance;
    r := out + seq<byte>(length, i => 0);
    if distance < length {
      CopyMatchApart(out, distance, distance);
      r := r[..start] + r[backward..backward + distance] + r[start + distance..];
      start := start + distance;
      for forward := distance to length
        invariant start == |out| + forward && backward == |out| + forward - 2 * distance
        invariant |r| == |out| + length && r[..start] == CopyMatch(out, distance, forward)
      {
        CopyMatchStep(out, distance, forward);
        CopyMatchPeriod(out, distance, forward, start - distance);
        ghost var done := r[..start];
        r := r[start := r[backward]];
        assert r[..start + 1] == done + [done[backward]];
        start, backward := start + 1, backward + 1;
      }
    } else {
      CopyMatchApart(out, distance, length);
      r := r[..start] + r[backward..backward + length] + r[start + length..];
    }
  }

  /** Reads the rest of a match after its length code, and copies it. */
  method ReadMatch(reader: BitReader, treeD: HuffmanTree, lengthIndex: nat, out0: seq<byte>, ghost d: seq<nat>)
    returns (out: seq<byte>, error: nat)
    requires reader.Valid() && reader.avail >= 5
    requires TreeFor(treeD, d) && |d| == NUM_DISTANCE_SYMBOLS && Bounded(d) && lengthIndex < |LENGTHBASE|
    modifies reader
    ensures reader.Valid()
    ensures var r := InflateMatch(reader.data, d, old(reader.bp), lengthIndex, out0);
            error == ErrorOf(r) && (r.Ok? ==> r.value == At(reader.bp, out))
  {
    hide TreeFor;
    hide LENGTHBASE, LENGTHEXTRA, DISTANCEBASE, DISTANCEEXTRA, BitReader.Valid, HuffmanTree.Valid, CopyMatch, Peek, Lsb;
    ExtraBits();
    ValidTree(treeD, d);
    out, error := out0, 0;
    var length := LENGTHBASE[lengthIndex];
    var numextrabits := LENGTHEXTRA[lengthIndex];
    NoBits(reader.data, reader.bp);
    if numextrabits != 0 {
      var extra := reader.ReadBits(numextrabits);
      length := length + extra;
    }
    var ok := reader.EnsureBits32(28);
    SameSize(treeD);
    var code := HuffmanDecodeSymbol(reader, treeD);
    if code > 29 {
      return out, if code <= 31 then 18 else 16;
    }
    var distance := DISTANCEBASE[code];
    numextrabits := DISTANCEEXTRA[code];
    NoBits(reader.data, reader.bp);
    if numextrabits != 0 {
      var extra := reader.ReadBits(numextrabits);
      distance := distance + extra;
    }
    if distance > |out| {
      return out, 52;
    }
    out := CopyBack(out, distance, length);
  }

  lemma NoBits(data: seq<byte>, p: nat)
    ensures Number(data, p, 0) == 0
  {
  }

  /** Decodes the symbols of a block until the end code. */
  method InflateSymbolsLoop(reader: BitReader, treeLL: HuffmanTree, treeD: HuffmanTree, out0: seq<byte>,
                            ghost ll: seq<nat>, ghost d: seq<nat>)
    returns (out: seq<byte>, error: nat)
    requires reader.Valid() && TreeFor(treeLL, ll) && TreeFor(treeD, d) && TreesOk(Trees(ll, d))
    modifies reader
    ensures reader.Valid()
    ensures var r := InflateSymbols(reader.data, ll, d, old(reader.bp), out0);
            error == ErrorOf(r) && (r.Ok? ==> r.value == At(reader.bp, out))
  {
    hide InflateSymbols, InflateMatch, BitReader.Valid, HuffmanTree.Valid, Peek, DecodeSymbol, Decodable;
    ghost var data := reader.data;
    out, error := out0, 0;
    SameSize(treeLL);
    while true
      invariant reader.Valid() && error == 0 && TreeFor(treeLL, ll) && TreeFor(treeD, d)
      invariant InflateSymbols(data, ll, d, old(reader.bp), out0) == InflateSymbols(data, ll, d, reader.bp, out)
      decreases 8 * |data| - reader.bp
    {
      InflateSymbolsStep(data, ll, d, reader.bp, out);
      var ok := reader.EnsureBits25(20);
      var code := HuffmanDecodeSymbol(reader, treeLL);
      if code <= 255 {
        out := out + [code];
      } else if FIRST_LENGTH_CODE_INDEX <= code <= LAST_LENGTH_CODE_INDEX {
        out, error := ReadMatch(reader, treeD, code - FIRST_LENGTH_CODE_INDEX, out, d);
        if error != 0 {
          return;
        }
      } else if code == 256 {
        return;
      } else {
        return out, 16;
      }
      if reader.bp > 8 * |reader.data| {
        return out, 51;
      }
    }
  }

  /** Inflates a block with fixed or dynamic trees. */
  method InflateHuffmanBlock(reader: BitReader, btype: nat, out0: seq<byte>) returns (out: seq<byte>, error: nat)
    requires reader.Valid() && 1 <= btype <= 2
    modifies reader
    ensures reader.Valid()
    ensures var r := InflateCompressed(reader.data, old(reader.bp), btype, out0);
            error == ErrorOf(r) && (r.Ok? ==> r.value == At(reader.bp, out))
  {
    hide InflateSymbols, BitReader.Valid, HuffmanTree.Valid, TreeFor, DynamicTrees, TreesOk, FixedLitLen, FixedDistance;
    var treeLL := new HuffmanTree();
    var treeD := new HuffmanTree();
    ghost var ll, d := FixedLitLen(), FixedDistance();
    if btype == 1 {
      error := GetTreeInflateFixed(treeLL, treeD);
      FixedTreesOk();
    } else {
      ghost var r := DynamicTrees(reader.data, reader.bp);
      error := GetTreeInflateDynamic(treeLL, treeD, reader);
      if error == 0 {
        ll, d := r.value.value.ll, r.value.value.d;
      }
    }
    if error != 0 {
      return out0, error;
    }
    out, error := InflateSymbolsLoop(reader, treeLL, treeD, out0, ll, d);
  }

  /** Copies a stored block. */
  method InflateNoCompression(reader: BitReader, out0: seq<byte>, ignoreNlen: bool)
    returns (out: seq<byte>, error: nat)
    requires reader.Valid()
    modifies reader
    ensures var r := InflateStored(reader.data, old(reader.bp), out0, ignoreNlen);
            error == ErrorOf(r) && (r.Ok? ==> r.value == At(reader.bp, out))
  {
    out, error := out0, 0;
    var size := |reader.data|;
    var bytepos := (reader.bp + 7) / 8;
    if bytepos + 4 >= size {
      return out, 52;
    }
    var len := Word(reader.data[bytepos], reader.data[bytepos + 1]);
    bytepos := bytepos + 2;
    var nlen := Word(reader.data[bytepos], reader.data[bytepos + 1]);
    bytepos := bytepos + 2;
    if !ignoreNlen && len + nlen != 65535 {
      return out, 21;
    }
    if bytepos + len > size {
      return out, 23;
    }
    out := out + reader.data[bytepos..bytepos + len];
    bytepos := bytepos + len;
    reader.bp := 8 * bytepos;
  }

  /** Inflates a whole buffer, appending to what is in the output already. */
  method InflateV(initial: seq<byte>, data: seq<byte>, ignoreNlen: bool) returns (out: seq<byte>, error: nat)
    ensures var r := InflateBlocks(data, 0, initial, ignoreNlen);
            error == ErrorOf(r) && (r.Ok? ==> r.value == out)
  {
    hide InflateBlocks, InflateStored, InflateCompressed, Peek, Lsb;
    out, error := initial, 0;
    var bfinal := 0;
    var reader := new BitReader(data);
    while bfinal == 0
      invariant bfinal <= 1 && error == 0
      invariant reader.data == data && fresh(reader)
      invariant InflateBlocks(data, 0, initial, ignoreNlen)
             == if bfinal == 1 then Ok(out) else InflateBlocks(data, reader.bp, out, ignoreNlen)
      decreases 1 - bfinal, 8 * |data| - reader.bp
    {
      InflateBlocksStep(data, reader.bp, out, ignoreNlen);
      var ok := reader.EnsureBits9(3);
      if !ok {
        return out, 52;
      }
      NumberBound(data, reader.bp, 1);
      NumberBound(data, reader.bp + 1, 2);
      bfinal := reader.ReadBits(1);
      var btype := reader.ReadBits(2);
      if btype == 3 {
        return out, 20;
      } else if btype == 0 {
        out, error := InflateNoCompression(reader, out, ignoreNlen);
      } else {
        out, error := InflateHuffmanBlock(reader, btype, out);
      }
      if error != 0 {
        return;
      }
    }
  }

  lemma NumberBound(data: seq<byte>, p: nat, n: nat)
    ensures Number(data, p, n) < Pow2(n)
    ensures Pow2(1) == 2 && Pow2(2) == 4
  {
    Pow2Values();
  }
}
