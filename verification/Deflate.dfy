/**
  The deflater: stored, fixed and dynamic blocks written through the bit writer,
  and the proof that inflating what it writes gives the input back.
 */
module Deflate {
  import opened Modular
  import opened Bits
  import opened BitStreams
  import opened HuffmanCode
  import opened CodeLengths
  import opened HuffmanTrees
  import opened Lz77
  import opened Lz77Encoder
  import opened LengthRuns
  import opened InflateSpec
  import opened DeflateBits
  import opened DeflateFormat
  import Inflate

  datatype Settings = Settings(
    btype: nat, useLz77: bool, windowsize: nat, minmatch: nat, nicematch: nat, lazymatching: bool)

  /** The numbers of token `k` begin behind those of the tokens before it. */
  lemma {:induction false} CodesAt(tokens: seq<Token>, k: nat)
    requires ValidTokens(tokens) && k < |tokens|
    ensures var i, codes := |CodesOf(tokens[..k])|, Codes(tokens[k]);
            && i + |codes| <= |CodesOf(tokens)| && CodesOf(tokens)[i..i + |codes|] == codes
            && |CodesOf(tokens[..k + 1])| == i + |codes|
    decreases |tokens|
  {
    hide Codes, CodesOf;
    var n := |tokens| - 1;
    CodesAppend(tokens[..k], tokens[k]);
    assert tokens[..k] + [tokens[k]] == tokens[..k + 1];
    if k == n {
      assert tokens[..k + 1] == tokens;
    } else {
      CodesAt(tokens[..n], k);
      CodesAppend(tokens[..n], tokens[n]);
      assert tokens[..n] + [tokens[n]] == tokens;
      assert tokens[..n][..k] == tokens[..k] && tokens[..n][..k + 1] == tokens[..k + 1];
    }
  }

  lemma CodesSize(token: Token)
    requires ValidToken(token)
    ensures token.Literal? ==> Codes(token) == [token.value]
    ensures token.Match? ==>
              && |Codes(token)| == 4 && FIRST_LENGTH_CODE_INDEX <= Codes(token)[0] <= LAST_LENGTH_CODE_INDEX
              && Codes(token)[2] < 30
  {
    if token.Match? {
      MatchCodes(token.length, token.distance);
    }
  }

  // ----- writing symbols

  /** Writes a symbol's code. */
  method WriteSymbol(writer: BitWriter, tree: HuffmanTree, n: nat, ghost lengths: seq<nat>)
    requires writer.Valid() && TreeFor(tree, lengths) && n < |lengths|
    modifies writer
    ensures writer.Valid() && writer.bits == old(writer.bits) + CodeBits(lengths, n)
  {
    hide BitWriter.Valid, Decodable, CodeBits;
    assert CodeOk(tree.codes[..][n], lengths, n);
    writer.WriteBitsReversed(tree.codes[n], tree.lengths[n]);
  }

  /** Writes the rest of a match, whose numbers begin at `i`. */
  method WriteMatchRest(writer: BitWriter, encoded: seq<nat>, i: nat, treeD: HuffmanTree,
                        ghost token: Token, ghost d: seq<nat>)
    requires writer.Valid() && TreeFor(treeD, d)
    requires token.Match? && ValidToken(token) && MatchCoded(Codes(token), d)
    requires i + 4 <= |encoded| && encoded[i..i + 4] == Codes(token)
    modifies writer
    ensures writer.Valid() && writer.bits == old(writer.bits) + MatchRest(Codes(token), d)
  {
    hide BitWriter.Valid, TreeFor, Codes, CodeBits, LsbBits, LENGTHEXTRA, DISTANCEEXTRA;
    ghost var codes := Codes(token);
    ExtraBits();
    MatchCodes(token.length, token.distance);
    assert codes[0] == encoded[i] && codes[1] == encoded[i + 1] && codes[2] == encoded[i + 2] && codes[3] == encoded[i + 3];
    var lengthIndex := encoded[i] - FIRST_LENGTH_CODE_INDEX;
    var distanceCode := encoded[i + 2];
    Pow2Values();
    writer.WriteBits(encoded[i + 1], LENGTHEXTRA[lengthIndex]);
    WriteSymbol(writer, treeD, distanceCode, d);
    writer.WriteBits(encoded[i + 3], DISTANCEEXTRA[distanceCode]);
  }

  /** Writes one token, whose numbers begin at `i`. */
  method WriteToken(writer: BitWriter, encoded: seq<nat>, i: nat, treeLL: HuffmanTree, treeD: HuffmanTree,
                    ghost token: Token, ghost ll: seq<nat>, ghost d: seq<nat>)
    returns (next: nat)
    requires writer.Valid() && TreeFor(treeLL, ll) && TreeFor(treeD, d) && Coded(token, ll, d)
    requires i + |Codes(token)| <= |encoded| && encoded[i..i + |Codes(token)|] == Codes(token)
    modifies writer
    ensures writer.Valid() && next == i + |Codes(token)|
    ensures writer.bits == old(writer.bits) + TokenBits(token, ll, d)
  {
    hide BitWriter.Valid, TreeFor, Codes, CodeBits, MatchCoded, MatchRest;
    CodesSize(token);
    var val := encoded[i];
    assert val == Codes(token)[0];
    next := i;
    WriteSymbol(writer, treeLL, val, ll);
    if val > 256 {
      WriteMatchRest(writer, encoded, next, treeD, token, d);
      next := next + 3;
    }
    next := next + 1;
  }

  lemma AppendToken(tokens: seq<Token>, token: Token, ll: seq<nat>, d: seq<nat>)
    requires AllCoded(tokens, ll, d) && Coded(token, ll, d)
    ensures AllCoded(tokens + [token], ll, d)
    ensures TokensBits(tokens + [token], ll, d) == TokensBits(tokens, ll, d) + TokenBits(token, ll, d)
  {
    hide Coded, TokenBits;
    assert (tokens + [token])[..|tokens|] == tokens;
  }

  lemma NoTokenBits(ll: seq<nat>, d: seq<nat>)
    ensures AllCoded([], ll, d) && TokensBits([], ll, d) == []
  {
  }

  lemma NextTokenBits(tokens: seq<Token>, k: nat, ll: seq<nat>, d: seq<nat>)
    requires k < |tokens| && AllCoded(tokens, ll, d)
    ensures TokensBits(tokens[..k + 1], ll, d) == TokensBits(tokens[..k], ll, d) + TokenBits(tokens[k], ll, d)
  {
    hide Coded, TokenBits, TokensBits;
    AppendToken(tokens[..k], tokens[k], ll, d);
    assert tokens[..k] + [tokens[k]] == tokens[..k + 1];
  }

  /** Writes the tokens, given as numbers, with the two trees. */
  method WriteLZ77Data(writer: BitWriter, encoded: seq<nat>, treeLL: HuffmanTree, treeD: HuffmanTree,
                       ghost tokens: seq<Token>, ghost ll: seq<nat>, ghost d: seq<nat>)
    requires writer.Valid() && TreeFor(treeLL, ll) && TreeFor(treeD, d)
    requires ValidTokens(tokens) && encoded == CodesOf(tokens) && AllCoded(tokens, ll, d)
    modifies writer
    ensures writer.Valid() && writer.bits == old(writer.bits) + TokensBits(tokens, ll, d)
  {
    hide BitWriter.Valid, TreeFor, Codes, CodesOf, Coded, TokenBits, TokensBits;
    var i := 0;
    ghost var k := 0;
    NoCodesYet(tokens);
    NoTokenBits(ll, d);
    assert tokens[..0] == [];
    while i != |encoded|
      invariant 0 <= k <= |tokens| && 0 <= i == |CodesOf(tokens[..k])| <= |encoded|
      invariant writer.Valid() && TreeFor(treeLL, ll) && TreeFor(treeD, d)
      invariant writer.bits == old(writer.bits) + TokensBits(tokens[..k], ll, d)
      decreases |encoded| - i
    {
      FewerTaken(tokens, k);
      CodesAt(tokens, k);
      SomeCodes(tokens[k]);
      NextTokenBits(tokens, k, ll, d);
      i := WriteToken(writer, encoded, i, treeLL, treeD, tokens[k], ll, d);
      k := k + 1;
    }
    AllCodesTaken(tokens, k);
    assert tokens[..|tokens|] == tokens;
  }

  lemma FewerTaken(tokens: seq<Token>, k: nat)
    requires ValidTokens(tokens) && k <= |tokens| && |CodesOf(tokens[..k])| != |CodesOf(tokens)|
    ensures k < |tokens|
  {
    assert tokens[..|tokens|] == tokens;
  }

  lemma SomeCodes(token: Token)
    requires ValidToken(token)
    ensures |Codes(token)| > 0
  {
    CodesSize(token);
  }

  lemma NoCodesYet(tokens: seq<Token>)
    ensures ValidTokens([]) && CodesOf(tokens[..0]) == []
  {
    assert tokens[..0] == [];
  }

  lemma AllCodesTaken(tokens: seq<Token>, k: nat)
    requires ValidTokens(tokens) && k <= |tokens| && |CodesOf(tokens[..k])| == |CodesOf(tokens)|
    ensures k == |tokens|
  {
    if k < |tokens| {
      CodesAt(tokens, k);
      CodesSize(tokens[k]);
    }
  }

  // ----- counting symbols

  /** The symbols of the token have been counted. */
  ghost predicate Counted(token: Token, ll: seq<nat>, d: seq<nat>) {
    && ValidToken(token)
    && var codes := Codes(token);
       && codes[0] < |ll| && ll[codes[0]] > 0
       && (token.Match? ==> |codes| == 4 && codes[2] < |d| && d[codes[2]] > 0)
  }

  ghost predicate AllCounted(tokens: seq<Token>, n: nat, ll: seq<nat>, d: seq<nat>) {
    n <= |tokens| && forall k :: 0 <= k < n ==> Counted(tokens[k], ll, d)
  }

  /** Counts only grow. */
  lemma StillCounted(tokens: seq<Token>, n: nat, ll: seq<nat>, d: seq<nat>, ll': seq<nat>, d': seq<nat>)
    requires AllCounted(tokens, n, ll, d) && |ll| == |ll'| && |d| == |d'|
    requires forall s :: 0 <= s < |ll| ==> ll[s] > 0 ==> ll'[s] > 0
    requires forall s :: 0 <= s < |d| ==> d[s] > 0 ==> d'[s] > 0
    ensures AllCounted(tokens, n, ll', d')
  {
    hide Codes;
    forall k | 0 <= k < n
      ensures Counted(tokens[k], ll', d')
    {
      assert Counted(tokens[k], ll, d);
      CodesSize(tokens[k]);
    }
  }

  lemma OneMoreCounted(tokens: seq<Token>, n: nat, ll: seq<nat>, d: seq<nat>, ll': seq<nat>, d': seq<nat>)
    requires AllCounted(tokens, n, ll, d) && |ll| == |ll'| == 286 && |d| == |d'| == 30
    requires n < |tokens| && ValidToken(tokens[n])
    requires forall s :: 0 <= s < |ll| ==> ll'[s] >= ll[s]
    requires forall s :: 0 <= s < |d| ==> d'[s] >= d[s]
    requires ll'[Codes(tokens[n])[0]] > 0
    requires tokens[n].Match? ==> |Codes(tokens[n])| == 4 && Codes(tokens[n])[2] < |d| && d'[Codes(tokens[n])[2]] > 0
    ensures AllCounted(tokens, n + 1, ll', d')
  {
    hide Codes;
    StillCounted(tokens, n, ll, d, ll', d');
    CodesSize(tokens[n]);
    assert Counted(tokens[n], ll', d');
  }

  /** How often each literal, length and distance symbol occurs; the end code occurs once. */
  method CountFrequencies(encoded: seq<nat>, ghost tokens: seq<Token>)
    returns (frequenciesLL: array<nat>, frequenciesD: array<nat>)
    requires ValidTokens(tokens) && encoded == CodesOf(tokens)
    ensures fresh(frequenciesLL) && fresh(frequenciesD) && frequenciesLL.Length == 286 && frequenciesD.Length == 30
    ensures AllCounted(tokens, |tokens|, frequenciesLL[..], frequenciesD[..]) && frequenciesLL[END_CODE] == 1
  {
    hide Codes, CodesOf, Counted;
    frequenciesLL := new nat[286](i => 0);
    frequenciesD := new nat[30](i => 0);
    var i := 0;
    ghost var k := 0;
    NoCodesYet(tokens);
    assert tokens[..|tokens|] == tokens;
    while i != |encoded|
      invariant k <= |tokens| && i == |CodesOf(tokens[..k])| <= |encoded|
      invariant AllCounted(tokens, k, frequenciesLL[..], frequenciesD[..])
      decreases |encoded| - i
    {
      CodesAt(tokens, k);
      CodesSize(tokens[k]);
      ghost var ll, d, codes := frequenciesLL[..], frequenciesD[..], Codes(tokens[k]);
      assert encoded[i..i + |codes|] == codes;
      assert forall j :: 0 <= j < |codes| ==> encoded[i + j] == codes[j];
      var symbol := encoded[i];
      frequenciesLL[symbol] := frequenciesLL[symbol] + 1;
      if symbol > 256 {
        var dist := encoded[i + 2];
        frequenciesD[dist] := frequenciesD[dist] + 1;
        i := i + 3;
      }
      OneMoreCounted(tokens, k, ll, d, frequenciesLL[..], frequenciesD[..]);
      i := i + 1;
      k := k + 1;
    }
    AllCodesTaken(tokens, k);
    ghost var ll := frequenciesLL[..];
    frequenciesLL[256] := 1;
    StillCounted(tokens, k, ll, frequenciesD[..], frequenciesLL[..], frequenciesD[..]);
  }

  // ----- runs of code lengths

  lemma {:induction false} RunCodesAt(runs: seq<Run>, k: nat)
    requires AllWritable(runs) && k < |runs|
    ensures var i, codes := |CodesOfRuns(runs[..k])|, RunCodes(runs[k]);
            && i + |codes| <= |CodesOfRuns(runs)| && CodesOfRuns(runs)[i..i + |codes|] == codes
            && |CodesOfRuns(runs[..k + 1])| == i + |codes|
    decreases |runs|
  {
    hide RunCodes;
    var n := |runs| - 1;
    assert runs[..k + 1][..k] == runs[..k];
    if k == n {
      assert runs[..k + 1] == runs;
    } else {
      RunCodesAt(runs[..n], k);
      assert runs[..n][..k] == runs[..k] && runs[..n][..k + 1] == runs[..k + 1];
    }
  }

  lemma RunCodesSize(run: Run)
    requires Writable(run)
    ensures var codes := RunCodes(run);
            && 1 <= |codes| && codes[0] <= 18 && (codes[0] >= 16 <==> !run.Plain?)
            && |codes| == (if codes[0] >= 16 then 2 else 1)
            && (codes[0] >= 16 ==> codes[1] < Pow2(RunBits(codes[0])))
  {
    Pow2Values();
  }

  lemma NoRunCodesYet(runs: seq<Run>)
    ensures AllWritable([]) && CodesOfRuns(runs[..0]) == []
  {
    assert runs[..0] == [];
  }

  lemma AllRunCodesTaken(runs: seq<Run>, k: nat)
    requires AllWritable(runs) && k <= |runs| && |CodesOfRuns(runs[..k])| == |CodesOfRuns(runs)|
    ensures k == |runs|
  {
    if k < |runs| {
      RunCodesAt(runs, k);
      RunCodesSize(runs[k]);
    }
  }

  /** The codes of the first `n` runs have been counted. */
  ghost predicate RunsCounted(runs: seq<Run>, n: nat, frequencies: seq<nat>) {
    && AllWritable(runs) && n <= |runs| && |frequencies| == NUM_CODE_LENGTH_CODES
    && forall k :: 0 <= k < n ==> RunCounted(runs[k], frequencies)
  }

  ghost predicate RunCounted(run: Run, frequencies: seq<nat>) {
    Writable(run) && RunCodes(run)[0] < |frequencies| && frequencies[RunCodes(run)[0]] > 0
  }

  lemma OneMoreRun(runs: seq<Run>, n: nat, frequencies: seq<nat>, c: nat)
    requires RunsCounted(runs, n, frequencies) && n < |runs| && c == RunCodes(runs[n])[0]
    ensures c < |frequencies| && RunsCounted(runs, n + 1, frequencies[c := frequencies[c] + 1])
  {
    RunCodesSize(runs[n]);
    var more := frequencies[c := frequencies[c] + 1];
    forall k | 0 <= k <= n
      ensures RunCounted(runs[k], more)
    {
      if k < n {
        assert RunCounted(runs[k], frequencies);
      }
    }
  }

  /** How often each code length code occurs; extra bits are not counted. */
  method CountRunCodes(encoded: seq<nat>, ghost runs: seq<Run>) returns (frequenciesCl: array<nat>)
    requires AllWritable(runs) && encoded == CodesOfRuns(runs)
    ensures fresh(frequenciesCl) && RunsCounted(runs, |runs|, frequenciesCl[..])
  {
    hide RunCodes, RunCounted, Writable;
    frequenciesCl := new nat[NUM_CODE_LENGTH_CODES](i => 0);
    var i := 0;
    ghost var k := 0;
    NoRunCodesYet(runs);
    assert runs[..|runs|] == runs;
    while i != |encoded|
      invariant k <= |runs| && i == |CodesOfRuns(runs[..k])| <= |encoded|
      invariant RunsCounted(runs, k, frequenciesCl[..])
      decreases |encoded| - i
    {
      RunCodesAt(runs, k);
      RunCodesSize(runs[k]);
      assert encoded[i] == RunCodes(runs[k])[0];
      OneMoreRun(runs, k, frequenciesCl[..], encoded[i]);
      frequenciesCl[encoded[i]] := frequenciesCl[encoded[i]] + 1;
      if encoded[i] >= 16 {
        i := i + 1;
      }
      i := i + 1;
      k := k + 1;
    }
    AllRunCodesTaken(runs, k);
  }

  /** Writes one run, whose numbers begin at `i`; returns the position of its last number. */
  method WriteRun(writer: BitWriter, encoded: seq<nat>, i: nat, treeCl: HuffmanTree, ghost run: Run, ghost cl: seq<nat>)
    returns (j: nat)
    requires writer.Valid() && TreeFor(treeCl, cl) && RunCoded(run, cl)
    requires i + |RunCodes(run)| <= |encoded| && encoded[i..i + |RunCodes(run)|] == RunCodes(run)
    modifies writer
    ensures writer.Valid() && writer.bits == old(writer.bits) + RunBitsOf(run, cl)
    ensures j + 1 == i + |RunCodes(run)|
  {
    hide BitWriter.Valid, TreeFor, RunCodes, CodeBits, Writable, LsbBits;
    RunCodesSize(run);
    ghost var codes := RunCodes(run);
    assert encoded[i] == codes[0] && (codes[0] >= 16 ==> encoded[i + 1] == codes[1]);
    j := i;
    WriteSymbol(writer, treeCl, encoded[i], cl);
    if encoded[i] == 16 {
      j := j + 1;
      writer.WriteBits(encoded[j], 2);
    } else if encoded[i] == 17 {
      j := j + 1;
      writer.WriteBits(encoded[j], 3);
    } else if encoded[i] == 18 {
      j := j + 1;
      writer.WriteBits(encoded[j], 7);
    }
  }

  /** Writes the run-length coded lengths. */
  method WriteRuns(writer: BitWriter, encoded: seq<nat>, treeCl: HuffmanTree, ghost runs: seq<Run>, ghost cl: seq<nat>)
    requires writer.Valid() && TreeFor(treeCl, cl) && RunsCoded(runs, cl) && encoded == CodesOfRuns(runs)
    modifies writer
    ensures writer.Valid() && writer.bits == old(writer.bits) + RunsBits(runs, cl)
  {
    hide BitWriter.Valid, TreeFor, RunCodes, CodesOfRuns, CodeBits, Writable, RunBitsOf, RunCoded;
    var i := 0;
    ghost var k := 0;
    NoRunCodesYet(runs);
    assert runs[..|runs|] == runs;
    while i != |encoded|
      invariant k <= |runs| && i == |CodesOfRuns(runs[..k])| <= |encoded|
      invariant writer.Valid() && TreeFor(treeCl, cl)
      invariant writer.bits == old(writer.bits) + RunsBits(runs[..k], cl)
      decreases |encoded| - i
    {
      RunCodesAt(runs, k);
      RunCodesSize(runs[k]);
      assert runs[..k + 1][..k] == runs[..k];
      i := WriteRun(writer, encoded, i, treeCl, runs[k], cl);
      i := i + 1;
      k := k + 1;
    }
    AllRunCodesTaken(runs, k);
  }

  // ----- the trees of a dynamic block

  lemma CountedIsCoded(tokens: seq<Token>, fll: seq<nat>, fd: seq<nat>, ll: seq<nat>, d: seq<nat>)
    requires AllCounted(tokens, |tokens|, fll, fd) && |ll| <= |fll| && |d| <= |fd| == 30
    requires forall s :: |ll| <= s < |fll| ==> fll[s] == 0
    requires forall s :: |d| <= s < |fd| ==> fd[s] == 0
    requires forall s :: 0 <= s < |ll| && fll[s] > 0 ==> ll[s] > 0
    requires forall s :: 0 <= s < |d| && fd[s] > 0 ==> d[s] > 0
    ensures AllCoded(tokens, ll, d)
  {
    hide Codes;
    forall k | 0 <= k < |tokens|
      ensures Coded(tokens[k], ll, d)
    {
      assert Counted(tokens[k], fll, fd);
      CodesSize(tokens[k]);
    }
  }

  /** Both trees of a dynamic block, from the symbols that occur in it. */
  method MakeBlockTrees(encoded: seq<nat>, ghost tokens: seq<Token>)
    returns (error: nat, treeLL: HuffmanTree, treeD: HuffmanTree)
    requires ValidTokens(tokens) && encoded == CodesOf(tokens)
    ensures error == 0 && treeLL.Valid() && treeD.Valid()
    ensures TreeOk(treeLL.lengths[..], 257, 286) && treeLL.lengths[END_CODE] > 0 && TreeOk(treeD.lengths[..], 2, 30)
    ensures AllCoded(tokens, treeLL.lengths[..], treeD.lengths[..])
  {
    hide CodesOf, AllCounted, Complete, Kraft;
    Pow2Values();
    var frequenciesLL, frequenciesD := CountFrequencies(encoded, tokens);
    ghost var fll, fd := frequenciesLL[..], frequenciesD[..];
    treeLL := new HuffmanTree();
    treeD := new HuffmanTree();
    error := treeLL.MakeFromFrequencies(frequenciesLL, 257, 286, 15);
    if error == 0 {
      ghost var ll := treeLL.lengths[..];
      TreeSize(treeLL);
      assert ll[END_CODE] > 0;
      error := treeD.MakeFromFrequencies(frequenciesD, 2, 30, 15);
      TreeSize(treeD);
      CountedIsCoded(tokens, fll, fd, ll, treeD.lengths[..]);
    }
  }

  lemma TreeSize(tree: HuffmanTree)
    requires tree.Valid()
    ensures tree.numcodes == tree.lengths.Length && Bounded(tree.lengths[..])
  {
  }

  lemma RunsCountedIsCoded(runs: seq<Run>, frequencies: seq<nat>, cl: seq<nat>)
    requires RunsCounted(runs, |runs|, frequencies) && |cl| == NUM_CODE_LENGTH_CODES
    requires forall s :: 0 <= s < |cl| && frequencies[s] > 0 ==> cl[s] > 0
    ensures RunsCoded(runs, cl)
  {
    forall k | 0 <= k < |runs|
      ensures RunCoded(runs[k], cl)
    {
      assert RunCounted(runs[k], frequencies);
    }
  }

  /** The tree for the run-length coded code lengths. */
  method MakeLengthsTree(encoded: seq<nat>, ghost runs: seq<Run>) returns (error: nat, treeCl: HuffmanTree)
    requires AllWritable(runs) && encoded == CodesOfRuns(runs)
    ensures error == 0 && treeCl.Valid() && Usable(treeCl.lengths[..]) && RunsCoded(runs, treeCl.lengths[..])
    ensures forall s :: 0 <= s < treeCl.lengths.Length ==> treeCl.lengths[s] <= 7
  {
    hide CodesOfRuns, AllWritable, Complete, Kraft, RunsCoded;
    Pow2Values();
    var frequenciesCl := CountRunCodes(encoded, runs);
    ghost var frequencies := frequenciesCl[..];
    treeCl := new HuffmanTree();
    error := treeCl.MakeFromFrequencies(frequenciesCl, NUM_CODE_LENGTH_CODES, NUM_CODE_LENGTH_CODES, 7);
    TreeSize(treeCl);
    RunsCountedIsCoded(runs, frequencies, treeCl.lengths[..]);
  }

  /** How many code length code lengths have to be sent. */
  method TrimCodeLengths(treeCl: HuffmanTree) returns (n: nat)
    requires treeCl.lengths.Length == NUM_CODE_LENGTH_CODES
    ensures Trimmed(treeCl.lengths[..], n)
  {
    hide CLCL_ORDER, CL_POSITION;
    ClOrderIsPermutation();
    n := NUM_CODE_LENGTH_CODES;
    while n > 4 && treeCl.lengths[CLCL_ORDER[n - 1]] == 0
      invariant 4 <= n <= NUM_CODE_LENGTH_CODES
      invariant forall i :: n <= i < NUM_CODE_LENGTH_CODES ==> treeCl.lengths[CLCL_ORDER[i]] == 0
    {
      n := n - 1;
    }
  }

  /** Writes the code length code lengths in transmission order. */
  method WriteClLengths(writer: BitWriter, treeCl: HuffmanTree, n: nat, ghost cl: seq<nat>)
    requires writer.Valid() && treeCl.lengths[..] == cl && n <= |cl| == NUM_CODE_LENGTH_CODES
    modifies writer
    ensures writer.Valid() && writer.bits == old(writer.bits) + ClBits(cl, n)
  {
    hide CLCL_ORDER, CL_POSITION, BitWriter.Valid, LsbBits;
    ClOrderIsPermutation();
    for i := 0 to n
      invariant writer.Valid() && writer.bits == old(writer.bits) + ClBits(cl, i)
    {
      writer.WriteBits(treeCl.lengths[CLCL_ORDER[i]], 3);
    }
  }

  /** Writes the description of the trees. */
  method WriteDescription(writer: BitWriter, numcodesLL: nat, numcodesD: nat, numcodesCl: nat, treeCl: HuffmanTree,
                          encoded: seq<nat>, ghost t: Description)
    requires writer.Valid() && DescriptionOk(t) && TreeFor(treeCl, t.cl) && encoded == CodesOfRuns(t.runs)
    requires numcodesLL == |t.ll| && numcodesD == |t.d| && numcodesCl == t.n
    modifies writer
    ensures writer.Valid() && writer.bits == old(writer.bits) + DescriptionBits(t)
  {
    hide BitWriter.Valid, LsbBits, ClBits, RunsBits, TreeFor, Usable, RunsCoded, ValidRuns, ExpandRuns, CodesOfRuns;
    SameLengths(treeCl, t.cl);
    var hlit, hdist, hclen := numcodesLL - 257, numcodesD - 1, numcodesCl - 4;
    writer.WriteBits(hlit, 5);
    writer.WriteBits(hdist, 5);
    writer.WriteBits(hclen, 4);
    WriteClLengths(writer, treeCl, numcodesCl, t.cl);
    WriteRuns(writer, encoded, treeCl, t.runs, t.cl);
    assert DescriptionBits(t)
        == LsbBits(hlit, 5) + LsbBits(hdist, 5) + LsbBits(hclen, 4) + ClBits(t.cl, t.n) + RunsBits(t.runs, t.cl);
  }

  // ----- blocks

  /** The hash chains are ready for the bytes from `pos` on, if they are going to be used. */
  ghost predicate HashReady(hash: Hash, data: seq<byte>, pos: nat, settings: Settings)
    reads hash, hash.head, hash.chain, hash.val, hash.headz, hash.chainz, hash.zeros
  {
    && hash.windowsize == settings.windowsize
    && (settings.useLz77 && WindowError(settings.windowsize) == 0 ==> hash.Valid(data) && hash.visited == pos)
  }

  /** The error of compressing a block. */
  function EncodeError(settings: Settings): nat {
    if settings.useLz77 then WindowError(settings.windowsize) else 0
  }

  /** Writes every byte as a literal. */
  method WriteLiterals(writer: BitWriter, treeLL: HuffmanTree, data: seq<byte>, datapos: nat, dataend: nat,
                       ghost ll: seq<nat>, ghost d: seq<nat>)
    returns (ghost tokens: seq<Token>)
    requires writer.Valid() && TreeFor(treeLL, ll) && datapos <= dataend <= |data|
    requires |ll| > 255 && forall b: byte :: ll[b] > 0
    modifies writer
    ensures TokensUpTo(data, datapos, tokens, dataend) && AllCoded(tokens, ll, d)
    ensures writer.Valid() && writer.bits == old(writer.bits) + TokensBits(tokens, ll, d)
  {
    hide BitWriter.Valid, TreeFor, TokensUpTo, CodeBits, TokensBits, AllCoded, CodesOf;
    tokens := [];
    NoTokens(data, datapos);
    NoTokenBits(ll, d);
    for i := datapos to dataend
      invariant writer.Valid() && TreeFor(treeLL, ll)
      invariant TokensUpTo(data, datapos, tokens, i) && AllCoded(tokens, ll, d)
      invariant writer.bits == old(writer.bits) + TokensBits(tokens, ll, d)
    {
      EmitLiteral(data, datapos, tokens, i);
      AppendToken(tokens, Literal(data[i]), ll, d);
      WriteSymbol(writer, treeLL, data[i], ll);
      tokens := tokens + [Literal(data[i])];
    }
  }

  /** Writes the tokens of a block with the fixed codes. */
  method WriteFixedTokens(writer: BitWriter, hash: Hash, data: seq<byte>, datapos: nat, dataend: nat, settings: Settings,
                          treeLL: HuffmanTree, treeD: HuffmanTree)
    returns (error: nat, ghost tokens: seq<Token>)
    requires writer.Valid() && datapos <= dataend <= |data| && HashReady(hash, data, datapos, settings)
    requires TreeFor(treeLL, FixedLitLen()) && TreeFor(treeD, FixedDistance())
    requires {hash.chain, hash.chainz, hash.zeros} !! {treeLL.codes, treeLL.lengths, treeLL.tableLen, treeLL.tableValue,
                                                       treeD.codes, treeD.lengths, treeD.tableLen, treeD.tableValue}
    modifies writer, hash, hash.head, hash.chain, hash.val, hash.headz, hash.chainz, hash.zeros
    ensures error == EncodeError(settings)
    ensures TreeFor(treeLL, FixedLitLen())
    ensures error == 0 ==> writer.Valid() && HashReady(hash, data, dataend, settings)
    ensures error == 0 ==>
              && TokensUpTo(data, datapos, tokens, dataend) && AllCoded(tokens, FixedLitLen(), FixedDistance())
              && writer.bits == old(writer.bits) + TokensBits(tokens, FixedLitLen(), FixedDistance())
  {
    hide BitWriter.Valid, Hash.Valid, TreeFor, TokensUpTo, TokensBits, AllCoded, FixedLitLen, FixedDistance;
    error, tokens := 0, [];
    if settings.useLz77 {
      var encoded;
      error, encoded, tokens := EncodeLZ77(hash, data, datapos, dataend, settings.windowsize,
                                           settings.minmatch, settings.nicematch, settings.lazymatching);
      if error == 0 {
        UpToIsValid(data, datapos, tokens, dataend);
        FixedCodesEverything(tokens);
        WriteLZ77Data(writer, encoded, treeLL, treeD, tokens, FixedLitLen(), FixedDistance());
      }
    } else {
      FixedLengthsUsed();
      tokens := WriteLiterals(writer, treeLL, data, datapos, dataend, FixedLitLen(), FixedDistance());
    }
  }

  method FixedTrees() returns (error: nat, treeLL: HuffmanTree, treeD: HuffmanTree)
    ensures error == 0 && fresh({treeLL, treeLL.codes, treeLL.lengths, treeLL.tableLen, treeLL.tableValue})
    ensures fresh({treeD, treeD.codes, treeD.lengths, treeD.tableLen, treeD.tableValue})
    ensures TreeFor(treeLL, FixedLitLen()) && TreeFor(treeD, FixedDistance())
  {
    hide TreeFor, FixedLitLen, FixedDistance;
    treeLL := new HuffmanTree();
    treeD := new HuffmanTree();
    error := Inflate.GenerateFixedLitLenTree(treeLL);
    if error == 0 {
      error := Inflate.GenerateFixedDistanceTree(treeD);
    }
  }

  /** A block with the fixed codes. */
  method DeflateFixed(writer: BitWriter, hash: Hash, data: seq<byte>, datapos: nat, dataend: nat, settings: Settings,
                      final: bit)
    returns (error: nat, ghost tokens: seq<Token>)
    requires writer.Valid() && datapos <= dataend <= |data| && HashReady(hash, data, datapos, settings)
    modifies writer, hash, hash.head, hash.chain, hash.val, hash.headz, hash.chainz, hash.zeros
    ensures error == EncodeError(settings)
    ensures error == 0 ==> writer.Valid() && HashReady(hash, data, dataend, settings)
    ensures error == 0 ==>
              && TokensUpTo(data, datapos, tokens, dataend) && AllCoded(tokens, FixedLitLen(), FixedDistance())
              && writer.bits == old(writer.bits) + FixedBlockBits(final, tokens)
    ensures error == 0 ==> BlockHeader(writer.bits[|old(writer.bits)|..], final, 1)
  {
    hide BlockHeader, Value, LengthSent;
    hide BitWriter.Valid, HashReady, TreeFor, TokensUpTo, BodyBits, TokensBits, AllCoded, FixedLitLen, FixedDistance, FixedBlockBits,
      IsPowerOfTwo, LsbBits, CodeBits;
    tokens := [];
    var treeLL, treeD;
    error, treeLL, treeD := FixedTrees();
    ghost var ll, d := FixedLitLen(), FixedDistance();
    writer.WriteBits(final, 1);
    writer.WriteBits(1, 1);
    writer.WriteBits(0, 1);
    error, tokens := WriteFixedTokens(writer, hash, data, datapos, dataend, settings, treeLL, treeD);
    if error == 0 {
      WriteSymbol(writer, treeLL, 256, ll);
      FixedInParts(final, tokens, old(writer.bits));
      FixedHeaderFormat(final, tokens);
      Behind(old(writer.bits), FixedBlockBits(final, tokens));
    }
  }

  lemma Behind<T>(a: seq<T>, b: seq<T>)
    ensures (a + b)[|a|..] == b
  {
  }

  lemma FixedInParts(final: bit, tokens: seq<Token>, before: seq<bit>)
    requires AllCoded(tokens, FixedLitLen(), FixedDistance())
    ensures before + LsbBits(final, 1) + LsbBits(1, 1) + LsbBits(0, 1) + TokensBits(tokens, FixedLitLen(), FixedDistance())
            + CodeBits(FixedLitLen(), END_CODE)
         == before + FixedBlockBits(final, tokens)
  {
    hide AllCoded, TokensBits, CodeBits, LsbBits, FixedLitLen, FixedDistance, HeaderBits;
    HeaderOneByOne(final);
  }

  lemma UpToIsValid(data: seq<byte>, inpos: nat, tokens: seq<Token>, e: nat)
    requires TokensUpTo(data, inpos, tokens, e)
    ensures ValidTokens(tokens)
  {
  }

  lemma FixedLengthsUsed()
    ensures forall s :: 0 <= s < NUM_DEFLATE_CODE_SYMBOLS ==> FixedLitLen()[s] > 0
  {
  }

  /** The three bits in front of a block, written one at a time. */
  lemma HeaderOneByOne(final: bit)
    ensures LsbBits(final, 1) + LsbBits(1, 1) + LsbBits(0, 1) == HeaderBits(final, 1)
    ensures LsbBits(final, 1) + LsbBits(0, 1) + LsbBits(1, 1) == HeaderBits(final, 2)
  {
    assert LsbBits(final, 1) == [final];
    assert LsbBits(1, 1) == [1] && LsbBits(0, 1) == [0];
    assert LsbBits(1, 2) == [1, 0] && LsbBits(2, 2) == [0, 1];
  }

  /** The bytes themselves as numbers of literal tokens. */
  method LiteralsOnly(data: seq<byte>, datapos: nat, dataend: nat) returns (encoded: seq<nat>, ghost tokens: seq<Token>)
    requires datapos <= dataend <= |data|
    ensures TokensUpTo(data, datapos, tokens, dataend) && ValidTokens(tokens) && encoded == CodesOf(tokens)
  {
    hide TokensUpTo, CodesOf;
    encoded, tokens := [], [];
    NoTokens(data, datapos);
    for i := datapos to dataend
      invariant TokensUpTo(data, datapos, tokens, i) && ValidTokens(tokens) && encoded == CodesOf(tokens)
    {
      EmitLiteral(data, datapos, tokens, i);
      tokens := tokens + [Literal(data[i])];
      encoded := encoded + [data[i]];
    }
  }

  /** The tokens of a block as numbers, compressed or not. */
  method Tokenize(hash: Hash, data: seq<byte>, datapos: nat, dataend: nat, settings: Settings)
    returns (error: nat, encoded: seq<nat>, ghost tokens: seq<Token>)
    requires datapos <= dataend <= |data| && HashReady(hash, data, datapos, settings)
    modifies hash, hash.head, hash.chain, hash.val, hash.headz, hash.chainz, hash.zeros
    ensures error == EncodeError(settings)
    ensures error == 0 ==>
              && HashReady(hash, data, dataend, settings)
              && TokensUpTo(data, datapos, tokens, dataend) && ValidTokens(tokens) && encoded == CodesOf(tokens)
  {
    hide Hash.Valid, TokensUpTo, CodesOf;
    error := 0;
    if settings.useLz77 {
      error, encoded, tokens := EncodeLZ77(hash, data, datapos, dataend, settings.windowsize,
                                           settings.minmatch, settings.nicematch, settings.lazymatching);
      if error == 0 {
        UpToIsValid(data, datapos, tokens, dataend);
      }
    } else {
      encoded, tokens := LiteralsOnly(data, datapos, dataend);
    }
  }

  /** The run-length coded lengths of both trees, and the tree for these. */
  method DescribeTrees(treeLL: HuffmanTree, treeD: HuffmanTree)
    returns (error: nat, treeCl: HuffmanTree, numcodesCl: nat, encoded: seq<nat>, ghost t: Description)
    requires treeLL.Valid() && treeD.Valid()
    requires TreeOk(treeLL.lengths[..], 257, 286) && treeLL.lengths[END_CODE] > 0 && TreeOk(treeD.lengths[..], 2, 30)
    ensures error == 0 && DescriptionOk(t) && t.ll == treeLL.lengths[..] && t.d == treeD.lengths[..]
    ensures TreeFor(treeCl, t.cl) && numcodesCl == t.n && encoded == CodesOfRuns(t.runs)
  {
    hide HuffmanTree.Valid, Usable, Trimmed, RunsCoded, ValidRuns, ExpandRuns, CodesOfRuns, AllWritable;
    ghost var ll, d := treeLL.lengths[..], treeD.lengths[..];
    var bitlenLLD := treeLL.lengths[..] + treeD.lengths[..];
    TreeSize(treeLL);
    TreeSize(treeD);
    ghost var runs;
    encoded, runs := EncodeRuns(bitlenLLD);
    error, treeCl := MakeLengthsTree(encoded, runs);
    ClSize(runs, treeCl.lengths[..]);
    numcodesCl := TrimCodeLengths(treeCl);
    t := Description(ll, d, treeCl.lengths[..], numcodesCl, runs);
  }

  /** Writes everything into the output. */
  method WriteDynamicBlock(writer: BitWriter, encoded: seq<nat>, treeLL: HuffmanTree, treeD: HuffmanTree,
                           treeCl: HuffmanTree, numcodesCl: nat, bitlenLLDe: seq<nat>, final: bit,
                           ghost tokens: seq<Token>, ghost t: Description)
    requires writer.Valid() && DescriptionOk(t)
    requires TreeFor(treeLL, t.ll) && TreeFor(treeD, t.d) && TreeFor(treeCl, t.cl)
    requires numcodesCl == t.n && bitlenLLDe == CodesOfRuns(t.runs)
    requires ValidTokens(tokens) && encoded == CodesOf(tokens) && AllCoded(tokens, t.ll, t.d)
    modifies writer
    ensures writer.Valid() && writer.bits == old(writer.bits) + DynamicBlockBits(final, t, tokens)
  {
    hide BitWriter.Valid, TokensBits, CodeBits, AllCoded, TreeFor, CodesOf, DescriptionBits, DescriptionOk, CodesOfRuns;
    SameLengths(treeLL, t.ll);
    SameLengths(treeD, t.d);
    EndIsCoded(t);
    writer.WriteBits(final, 1);
    writer.WriteBits(0, 1);
    writer.WriteBits(1, 1);
    HeaderOneByOne(final);
    WriteDescription(writer, treeLL.lengths.Length, treeD.lengths.Length, numcodesCl, treeCl, bitlenLLDe, t);
    WriteLZ77Data(writer, encoded, treeLL, treeD, tokens, t.ll, t.d);
    assert t.ll[256] != 0;  // the end code always has a code, so error 64 cannot arise
    WriteSymbol(writer, treeLL, 256, t.ll);
    assert DynamicBlockBits(final, t, tokens)
        == HeaderBits(final, 2) + DescriptionBits(t) + TokensBits(tokens, t.ll, t.d) + CodeBits(t.ll, 256);
  }

  lemma EndIsCoded(t: Description)
    requires DescriptionOk(t)
    ensures |t.ll| > END_CODE && t.ll[END_CODE] > 0
  {
  }

  /** A block with codes made for its contents. */
  method DeflateDynamic(writer: BitWriter, hash: Hash, data: seq<byte>, datapos: nat, dataend: nat, settings: Settings,
                        final: bit)
    returns (error: nat, ghost tokens: seq<Token>, ghost t: Description)
    requires writer.Valid() && datapos <= dataend <= |data| && HashReady(hash, data, datapos, settings)
    modifies writer, hash, hash.head, hash.chain, hash.val, hash.headz, hash.chainz, hash.zeros
    ensures error == EncodeError(settings)
    ensures error == 0 ==> writer.Valid() && HashReady(hash, data, dataend, settings)
    ensures error == 0 ==>
              && TokensUpTo(data, datapos, tokens, dataend) && DescriptionOk(t) && AllCoded(tokens, t.ll, t.d)
              && writer.bits == old(writer.bits) + DynamicBlockBits(final, t, tokens)
              && DescribedAsStandard(writer.bits[|old(writer.bits)|..], final, t)
  {
    hide DescribedAsStandard;
    hide BitWriter.Valid, HashReady, TokensUpTo, AllCoded, HuffmanTree.Valid, CodesOf, DescriptionOk, CodesOfRuns;
    hide DynamicBlockBits;
    var encoded;
    error, encoded, tokens := Tokenize(hash, data, datapos, dataend, settings);
    t := Description([], [], [], 0, []);
    if error != 0 {
      return;
    }
    var treeLL, treeD;
    error, treeLL, treeD := MakeBlockTrees(encoded, tokens);
    var treeCl, numcodesCl, bitlenLLDe;
    error, treeCl, numcodesCl, bitlenLLDe, t := DescribeTrees(treeLL, treeD);
    WriteDynamicBlock(writer, encoded, treeLL, treeD, treeCl, numcodesCl, bitlenLLDe, final, tokens, t);
    DynamicHeaderFormat(final, t, tokens);
    Behind(old(writer.bits), DynamicBlockBits(final, t, tokens));
  }

  lemma ClSize(runs: seq<Run>, cl: seq<nat>)
    requires RunsCoded(runs, cl)
    ensures |cl| == NUM_CODE_LENGTH_CODES
  {
  }

  /** Stored blocks only. */
  method DeflateNoCompression(data: seq<byte>) returns (out: seq<byte>)
    ensures data != [] ==> InflatesBytes(out, data, 1)
    ensures data == [] ==> out == []
  {
    hide InflatesBytes, StoredBlock;
    out := [];
    NoBytes();
    var datasize := |data|;
    var numdeflateblocks := (datasize + 65534) / 65535;
    var datapos := 0;
    assert data[..0] == [];
    for i := 0 to numdeflateblocks
      invariant datapos == (if i < numdeflateblocks then 65535 * i else datasize)
      invariant InflatesBytes(out, data[..datapos], if i > 0 && i == numdeflateblocks then 1 else 0)
      invariant i == 0 ==> out == []
    {
      var final: bit := if i == numdeflateblocks - 1 then 1 else 0;
      var len := 65535;
      if datasize - datapos < 65535 {
        len := datasize - datapos;
      }
      var chunk := data[datapos..datapos + len];
      AddStoredBlock(out, data[..datapos], final, chunk);
      StoredBytes(final, chunk);
      var nlen := 65535 - len;
      ghost var before := out;
      out := out + [final, len % 256, len / 256, nlen % 256, nlen / 256] + chunk;
      assert out == before + StoredBlock(final, chunk);
      assert data[..datapos] + chunk == data[..datapos + len];
      datapos := datapos + len;
    }
    assert data[..datasize] == data;
  }

  lemma NoBytes()
    ensures InflatesBytes([], [], 0)
  {
  }

  lemma StoredBytes(final: bit, chunk: seq<byte>)
    requires |chunk| <= 65535
    ensures var nlen := 65535 - |chunk|;
            StoredBlock(final, chunk) == [final, |chunk| % 256, |chunk| / 256, nlen % 256, nlen / 256] + chunk
  {
  }

  // ----- whole buffers

  const BAD_BLOCK_TYPE: nat := 61

  function DeflateError(settings: Settings): nat {
    if settings.btype > 2 then BAD_BLOCK_TYPE else if settings.btype == 0 then 0 else EncodeError(settings)
  }

  /** Where block `i` of `n` begins and ends. */
  lemma BlockBounds(insize: nat, blocksize: nat, n: nat, i: nat)
    requires blocksize > 0 && i < n && n == (var m := (insize + blocksize - 1) / blocksize; if m == 0 then 1 else m)
    ensures i * blocksize <= insize && (i + 1) * blocksize == i * blocksize + blocksize
    ensures i == n - 1 ==> insize <= (i + 1) * blocksize
    ensures i < n - 1 ==> (i + 1) * blocksize <= insize
  {
    var m := (insize + blocksize - 1) / blocksize;
    var r := (insize + blocksize - 1) % blocksize;
    assert insize + blocksize - 1 == m * blocksize + r;
    assert (i + 1) * blocksize == i * blocksize + blocksize;
    if m > 0 {
      assert m * blocksize == (m - 1) * blocksize + blocksize;
      MulMono(i, m - 1, blocksize);
      if i < m - 1 {
        MulMono(i + 1, m - 1, blocksize);
      }
    }
  }

  /** One block, and what the stream inflates to with it. */
  method DeflateBlock(writer: BitWriter, hash: Hash, data: seq<byte>, start: nat, end: nat, settings: Settings, final: bit)
    returns (error: nat)
    requires 1 <= settings.btype <= 2
    requires writer.Valid() && start <= end <= |data| && HashReady(hash, data, start, settings)
    requires Inflates(writer.bits, data[..start], 0)
    modifies writer, hash, hash.head, hash.chain, hash.val, hash.headz, hash.chainz, hash.zeros
    ensures error == EncodeError(settings)
    ensures error == 0 ==> writer.Valid() && HashReady(hash, data, end, settings)
    ensures error == 0 ==> Inflates(writer.bits, data[..end], final)
  {
    hide BitWriter.Valid, HashReady, AllCoded, DescriptionOk, Inflates, Expand, Expandable, FixedBlockBits, DynamicBlockBits;
    ghost var bits := writer.bits;
    if settings.btype == 1 {
      ghost var tokens;
      error, tokens := DeflateFixed(writer, hash, data, start, end, settings, final);
      if error == 0 {
        AddFixedBlock(bits, data[..start], final, tokens);
      }
    } else {
      ghost var tokens, t;
      error, tokens, t := DeflateDynamic(writer, hash, data, start, end, settings, final);
      if error == 0 {
        AddDynamicBlock(bits, data[..start], final, t, tokens);
      }
    }
  }

  /** The size of blocks; dividing by it is why an empty input must not be compressed with fixed codes. */
  function BlockSize(btype: nat, insize: nat): nat {
    if btype == 1 then insize
    else
      var size := insize / 8 + 8;
      if size < 65536 then 65536 else if size > 262144 then 262144 else size
  }

  lemma StoredStream(out: seq<byte>, data: seq<byte>)
    requires if data == [] then out == [] else InflatesBytes(out, data, 1)
    ensures forall ignoreNlen :: Inflated(out, ignoreNlen) == if data == [] then Err(52) else Ok(data)
  {
    hide Inflated, InflatesBytes;
    forall ignoreNlen
      ensures Inflated(out, ignoreNlen) == if data == [] then Err(52) else Ok(data)
    {
      if data == [] {
        NothingIsNoStream(ignoreNlen);
      } else {
        FinishedBytes(out, data, ignoreNlen);
      }
    }
  }

  /** Compresses the data block by block, the last one marked as final. */
  method DeflateBlocks(writer: BitWriter, hash: Hash, data: seq<byte>, settings: Settings, blocksize: nat,
                       numdeflateblocks: nat)
    returns (error: nat)
    requires 1 <= settings.btype <= 2 && blocksize > 0
    requires numdeflateblocks == (var m := (|data| + blocksize - 1) / blocksize; if m == 0 then 1 else m)
    requires writer.Valid() && HashReady(hash, data, 0, settings) && Inflates(writer.bits, data[..0], 0)
    modifies writer, hash, hash.head, hash.chain, hash.val, hash.headz, hash.chainz, hash.zeros
    ensures error == EncodeError(settings)
    ensures error == 0 ==> writer.Valid() && Inflates(writer.bits, data, 1)
  {
    hide BitWriter.Valid, HashReady, Inflates, EncodeError;
    error := 0;
    var i, end := 0, 0;
    while i != numdeflateblocks && error == 0
      invariant i <= numdeflateblocks && end <= |data| && (error == 0 || error == EncodeError(settings))
      invariant error == 0 && i > 0 ==> EncodeError(settings) == 0
      invariant error == 0 ==> end == if i < numdeflateblocks then i * blocksize else |data|
      invariant error == 0 ==> writer.Valid() && HashReady(hash, data, end, settings)
      invariant error == 0 ==> Inflates(writer.bits, data[..end], if i == numdeflateblocks then 1 else 0)
    {
      BlockBounds(|data|, blocksize, numdeflateblocks, i);
      var final: bit := if i == numdeflateblocks - 1 then 1 else 0;
      var start := i * blocksize;
      end := start + blocksize;
      if end > |data| {
        end := |data|;
      }
      error := DeflateBlock(writer, hash, data, start, end, settings, final);
      i := i + 1;
    }
    assert data[..|data|] == data;
  }

  /**
    Compresses a buffer.  Inflating the result gives the input back, whatever the
    settings are; only with stored blocks, which an empty input has none of, the
    input must not be empty.
   */
  method DeflateV(data: seq<byte>, settings: Settings) returns (out: seq<byte>, error: nat)
    requires settings.btype == 1 ==> data != []
    ensures error == DeflateError(settings)
    ensures error == 0 && (settings.btype == 0 ==> data != []) ==>
              forall ignoreNlen :: Inflated(out, ignoreNlen) == Ok(data)
    ensures error == 0 && settings.btype == 0 && data == [] ==>
              out == [] && forall ignoreNlen :: Inflated(out, ignoreNlen) == Err(52)
  {
    hide BitWriter.Valid, HashReady, Inflates, InflatesBytes, Inflated, EncodeError, MAX_DISTANCE, IsPowerOfTwo;
    if settings.btype > 2 {
      return [], BAD_BLOCK_TYPE;
    } else if settings.btype == 0 {
      out := DeflateNoCompression(data);
      error := 0;
      StoredStream(out, data);
      return;
    }
    var blocksize := BlockSize(settings.btype, |data|);
    var numdeflateblocks := (|data| + blocksize - 1) / blocksize;
    if numdeflateblocks == 0 {
      numdeflateblocks := 1;
    }
    var hash := new Hash(settings.windowsize);
    var writer := new BitWriter([]);
    StartOfStream(writer, hash, data, settings);
    error := DeflateBlocks(writer, hash, data, settings, blocksize, numdeflateblocks);
    out := writer.data;
    if error == 0 {
      WholeStream(writer, data);
    }
  }

  lemma StartOfStream(writer: BitWriter, hash: Hash, data: seq<byte>, settings: Settings)
    requires writer.Valid() && writer.bits == BitsOf([]) && hash.windowsize == settings.windowsize && hash.visited == 0
    requires hash.windowsize > 0 ==> hash.Valid(data)
    ensures Inflates(writer.bits, data[..0], 0) && HashReady(hash, data, 0, settings)
  {
    NothingInflates();
    assert data[..0] == [] && writer.bits == [];
  }

  lemma WholeStream(writer: BitWriter, data: seq<byte>)
    requires writer.Valid() && Inflates(writer.bits, data, 1)
    ensures forall ignoreNlen :: Inflated(writer.data, ignoreNlen) == Ok(data)
  {
    hide Inflates, Inflated;
    forall ignoreNlen
      ensures Inflated(writer.data, ignoreNlen) == Ok(data)
    {
      FinishedStream(writer.data, writer.bits, BitStreams.Zeros(Padding(|writer.bits|)), data, ignoreNlen);
    }
  }
}
