/**
  The bits DEFLATE encodes tokens, trees and blocks as (sections 3.2.3 to 3.2.7 of
  RFC 1951), and what inflating makes of a buffer that holds them.
 */
module DeflateBits {
  import opened Bits
  import opened HuffmanCode
  import opened Lz77
  import opened LengthRuns
  import opened InflateSpec

  /** The buffer holds these bits at a position. */
  ghost predicate Holds(data: seq<byte>, p: nat, bits: seq<bit>) {
    p + |bits| <= 8 * |data| && Peek(data, p, |bits|) == bits
  }

  lemma HoldsSplit(data: seq<byte>, p: nat, a: seq<bit>, b: seq<bit>)
    requires Holds(data, p, a + b)
    ensures Holds(data, p, a) && Holds(data, p + |a|, b)
  {
    PeekSplit(data, p, |a| + |b|, |a|);
    assert (a + b)[..|a|] == a && (a + b)[|a|..] == b;
  }

  lemma HoldsNumber(data: seq<byte>, p: nat, v: nat, n: nat)
    requires Holds(data, p, LsbBits(v, n)) && v < Pow2(n)
    ensures Number(data, p, n) == v && p + n <= 8 * |data|
  {
    LsbOfLsbBits(v, n);
    LowSmall(v, n);
  }

  /** Code lengths of a complete code. */
  ghost predicate Usable(lengths: seq<nat>) {
    Bounded(lengths) && Complete(lengths)
  }

  lemma HoldsSymbol(data: seq<byte>, p: nat, lengths: seq<nat>, s: nat)
    requires Usable(lengths) && s < |lengths| && lengths[s] > 0 && Holds(data, p, CodeBits(lengths, s))
    ensures SymbolAt(data, lengths, p) == s && p + lengths[s] <= 8 * |data|
  {
    var w := Peek(data, p, MAX_CODE_BITS);
    PeekSplit(data, p, MAX_CODE_BITS, lengths[s]);
    assert Matches(lengths, s, w);
    DecodeCode(lengths, s, w);
  }

  // ----- tokens

  /** The numbers of a match are in range, and there is a code for its distance. */
  ghost predicate MatchCoded(codes: seq<nat>, d: seq<nat>) {
    && |codes| == 4 && FIRST_LENGTH_CODE_INDEX <= codes[0] <= LAST_LENGTH_CODE_INDEX
    && codes[2] < 30 && codes[2] < |d| && d[codes[2]] > 0
  }

  /** Both trees have codes for the token. */
  ghost predicate Coded(token: Token, ll: seq<nat>, d: seq<nat>) {
    && ValidToken(token)
    && var codes := Codes(token);
       codes[0] < |ll| && ll[codes[0]] > 0 && (token.Match? ==> MatchCoded(codes, d))
  }

  ghost predicate AllCoded(tokens: seq<Token>, ll: seq<nat>, d: seq<nat>) {
    forall i :: 0 <= i < |tokens| ==> Coded(tokens[i], ll, d)
  }

  /** The bits of a match behind its length code. */
  ghost function MatchRest(codes: seq<nat>, d: seq<nat>): (bits: seq<bit>)
    requires MatchCoded(codes, d)
  {
    LsbBits(codes[1], LENGTHEXTRA[codes[0] - FIRST_LENGTH_CODE_INDEX])
    + (CodeBits(d, codes[2]) + LsbBits(codes[3], DISTANCEEXTRA[codes[2]]))
  }

  ghost function TokenBits(token: Token, ll: seq<nat>, d: seq<nat>): (bits: seq<bit>)
    requires Coded(token, ll, d)
  {
    var codes := Codes(token);
    if token.Literal? then CodeBits(ll, codes[0]) else CodeBits(ll, codes[0]) + MatchRest(codes, d)
  }

  ghost function TokensBits(tokens: seq<Token>, ll: seq<nat>, d: seq<nat>): (bits: seq<bit>)
    requires AllCoded(tokens, ll, d)
  {
    if tokens == [] then []
    else
      var n := |tokens| - 1;
      TokensBits(tokens[..n], ll, d) + TokenBits(tokens[n], ll, d)
  }

  /** What the numbers of a match mean. */
  lemma MatchCodes(length: nat, distance: nat)
    requires ValidToken(Match(length, distance))
    ensures var codes := Codes(Match(length, distance));
            && |codes| == 4 && FIRST_LENGTH_CODE_INDEX <= codes[0] <= LAST_LENGTH_CODE_INDEX && codes[2] < 30
            && var li := codes[0] - FIRST_LENGTH_CODE_INDEX;
               && length == LENGTHBASE[li] + codes[1] && codes[1] < Pow2(LENGTHEXTRA[li])
               && distance == DISTANCEBASE[codes[2]] + codes[3] && codes[3] < Pow2(DISTANCEEXTRA[codes[2]])
  {
    hide LENGTHBASE, LENGTHEXTRA, DISTANCEBASE, DISTANCEEXTRA, Pow2;
    BasesRise();
    ExtraBits();
    LengthExtraFits(length, CodeIndex(LENGTHBASE, length));
    DistanceExtraFits(distance, CodeIndex(DISTANCEBASE, distance));
  }

  lemma MatchDecodes(data: seq<byte>, d: seq<nat>, p: nat, length: nat, distance: nat, out: seq<byte>)
    requires |d| == NUM_DISTANCE_SYMBOLS && Usable(d)
    requires ValidToken(Match(length, distance)) && distance <= |out|
    requires var codes := Codes(Match(length, distance)); MatchCoded(codes, d) && Holds(data, p, MatchRest(codes, d))
    ensures var codes := Codes(Match(length, distance));
            InflateMatch(data, d, p, codes[0] - FIRST_LENGTH_CODE_INDEX, out)
            == Ok(At(p + |MatchRest(codes, d)|, CopyMatch(out, distance, length)))
  {
    hide LENGTHBASE, LENGTHEXTRA, DISTANCEBASE, DISTANCEEXTRA, Pow2, Codes, CopyMatch, LsbBits, CodeBits, Usable, Peek;
    hide SymbolAt, Number;
    ExtraBits();
    MatchCodes(length, distance);
    var codes := Codes(Match(length, distance));
    var li := codes[0] - FIRST_LENGTH_CODE_INDEX;
    var a, b, c := LsbBits(codes[1], LENGTHEXTRA[li]), CodeBits(d, codes[2]), LsbBits(codes[3], DISTANCEEXTRA[codes[2]]);
    HoldsSplit(data, p, a, b + c);
    HoldsSplit(data, p + |a|, b, c);
    HoldsNumber(data, p, codes[1], LENGTHEXTRA[li]);
    HoldsSymbol(data, p + |a|, d, codes[2]);
    HoldsNumber(data, p + |a| + |b|, codes[3], DISTANCEEXTRA[codes[2]]);
  }

  lemma LiteralDecodes(data: seq<byte>, ll: seq<nat>, d: seq<nat>, p: nat, value: byte, out: seq<byte>)
    requires |ll| == NUM_DEFLATE_CODE_SYMBOLS && |d| == NUM_DISTANCE_SYMBOLS && Usable(ll)
    requires ll[value] > 0 && Holds(data, p, CodeBits(ll, value))
    ensures InflateSymbols(data, ll, d, p, out) == InflateSymbols(data, ll, d, p + ll[value], out + [value])
  {
    hide CodeBits, Usable, SymbolAt, Number, InflateSymbols, InflateMatch, Holds;
    InflateSymbolsStep(data, ll, d, p, out);
    HoldsSymbol(data, p, ll, value);
  }

  lemma MatchStep(data: seq<byte>, ll: seq<nat>, d: seq<nat>, p: nat, s: nat, out: seq<byte>, q: nat, out1: seq<byte>)
    requires |ll| == NUM_DEFLATE_CODE_SYMBOLS && |d| == NUM_DISTANCE_SYMBOLS
    requires FIRST_LENGTH_CODE_INDEX <= s <= LAST_LENGTH_CODE_INDEX && SymbolAt(data, ll, p) == s && q <= 8 * |data|
    requires InflateMatch(data, d, p + ll[s], s - FIRST_LENGTH_CODE_INDEX, out) == Ok(At(q, out1))
    ensures InflateSymbols(data, ll, d, p, out) == InflateSymbols(data, ll, d, q, out1)
  {
    hide SymbolAt, InflateSymbols, InflateMatch;
    InflateSymbolsStep(data, ll, d, p, out);
  }

  lemma MatchTokenDecodes(data: seq<byte>, ll: seq<nat>, d: seq<nat>, p: nat, length: nat, distance: nat, out: seq<byte>)
    requires |ll| == NUM_DEFLATE_CODE_SYMBOLS && |d| == NUM_DISTANCE_SYMBOLS && Usable(ll) && Usable(d)
    requires Coded(Match(length, distance), ll, d) && Holds(data, p, TokenBits(Match(length, distance), ll, d))
    requires 1 <= distance <= |out|
    ensures InflateSymbols(data, ll, d, p, out)
         == InflateSymbols(data, ll, d, p + |TokenBits(Match(length, distance), ll, d)|, CopyMatch(out, distance, length))
  {
    hide CopyMatch, CodeBits, Usable, Codes, MatchRest, SymbolAt, InflateSymbols, InflateMatch, Holds;
    var codes := Codes(Match(length, distance));
    var s, rest := codes[0], MatchRest(codes, d);
    HoldsInside(data, p, CodeBits(ll, s) + rest);
    HoldsSplit(data, p, CodeBits(ll, s), rest);
    HoldsSymbol(data, p, ll, s);
    MatchDecodes(data, d, p + ll[s], length, distance, out);
    MatchStep(data, ll, d, p, s, out, p + ll[s] + |rest|, CopyMatch(out, distance, length));
  }

  /** Inflating continues behind a token with what it expands to. */
  lemma TokenDecodes(data: seq<byte>, ll: seq<nat>, d: seq<nat>, p: nat, token: Token, out: seq<byte>)
    requires |ll| == NUM_DEFLATE_CODE_SYMBOLS && |d| == NUM_DISTANCE_SYMBOLS && Usable(ll) && Usable(d)
    requires Coded(token, ll, d) && Holds(data, p, TokenBits(token, ll, d))
    requires token.Match? ==> 1 <= token.distance <= |out|
    ensures InflateSymbols(data, ll, d, p, out)
         == InflateSymbols(data, ll, d, p + |TokenBits(token, ll, d)|, Apply(token, out))
  {
    hide CopyMatch, CodeBits, Usable, InflateSymbols, Holds, MatchRest, CodeIndex, LENGTHBASE, DISTANCEBASE;
    match token
    case Literal(value) => LiteralDecodes(data, ll, d, p, value, out);
    case Match(length, distance) => MatchTokenDecodes(data, ll, d, p, length, distance, out);
  }

  lemma HoldsInside(data: seq<byte>, p: nat, bits: seq<bit>)
    requires Holds(data, p, bits)
    ensures p + |bits| <= 8 * |data|
  {
  }

  lemma {:induction false} ExpandFront(tokens: seq<Token>, out: seq<byte>)
    requires Expandable(tokens, |out|) && tokens != []
    ensures var n := |tokens| - 1;
            && Expandable(tokens[..n], |out|)
            && var front := Expand(tokens[..n], out);
               && (tokens[n].Match? ==> 1 <= tokens[n].distance <= |front|)
               && Expand(tokens, out) == Apply(tokens[n], front)
    decreases |tokens|
  {
    var n := |tokens| - 1;
    if n > 0 {
      ExpandFront(tokens[1..], Apply(tokens[0], out));
      assert tokens[1..][..n - 1] == tokens[..n][1..];
    }
  }

  lemma {:induction false} TokensDecode(data: seq<byte>, ll: seq<nat>, d: seq<nat>, p: nat, tokens: seq<Token>, out: seq<byte>)
    requires |ll| == NUM_DEFLATE_CODE_SYMBOLS && |d| == NUM_DISTANCE_SYMBOLS && Usable(ll) && Usable(d)
    requires AllCoded(tokens, ll, d) && Expandable(tokens, |out|) && Holds(data, p, TokensBits(tokens, ll, d))
    ensures InflateSymbols(data, ll, d, p, out)
         == InflateSymbols(data, ll, d, p + |TokensBits(tokens, ll, d)|, Expand(tokens, out))
    decreases |tokens|
  {
    hide Holds, InflateSymbols, Coded, TokenBits, Usable;
    if tokens != [] {
      var n := |tokens| - 1;
      ExpandFront(tokens, out);
      var front := TokensBits(tokens[..n], ll, d);
      HoldsSplit(data, p, front, TokenBits(tokens[n], ll, d));
      TokensDecode(data, ll, d, p, tokens[..n], out);
      TokenDecodes(data, ll, d, p + |front|, tokens[n], Expand(tokens[..n], out));
    }
  }

  /** Everything in a compressed block behind its header and trees. */
  ghost function BodyBits(tokens: seq<Token>, ll: seq<nat>, d: seq<nat>): (bits: seq<bit>)
    requires AllCoded(tokens, ll, d) && END_CODE < |ll|
  {
    TokensBits(tokens, ll, d) + CodeBits(ll, END_CODE)
  }

  /** The tokens and the end code decode to what the tokens expand to. */
  lemma BodyDecodes(data: seq<byte>, ll: seq<nat>, d: seq<nat>, p: nat, tokens: seq<Token>, out: seq<byte>)
    requires |ll| == NUM_DEFLATE_CODE_SYMBOLS && |d| == NUM_DISTANCE_SYMBOLS && Usable(ll) && Usable(d)
    requires AllCoded(tokens, ll, d) && Expandable(tokens, |out|) && ll[END_CODE] > 0
    requires Holds(data, p, BodyBits(tokens, ll, d))
    ensures InflateSymbols(data, ll, d, p, out) == Ok(At(p + |BodyBits(tokens, ll, d)|, Expand(tokens, out)))
  {
    hide Holds, InflateSymbols, InflateMatch, TokensBits, Usable, SymbolAt;
    var body := TokensBits(tokens, ll, d);
    HoldsSplit(data, p, body, CodeBits(ll, END_CODE));
    TokensDecode(data, ll, d, p, tokens, out);
    HoldsSymbol(data, p + |body|, ll, END_CODE);
    InflateSymbolsStep(data, ll, d, p + |body|, Expand(tokens, out));
  }

  // ----- run-length coded code lengths

  ghost function RunBitsOf(run: Run, cl: seq<nat>): (bits: seq<bit>)
    requires Writable(run) && |cl| == NUM_CODE_LENGTH_CODES
  {
    var codes := RunCodes(run);
    if run.Plain? then CodeBits(cl, codes[0]) else CodeBits(cl, codes[0]) + LsbBits(codes[1], RunBits(codes[0]))
  }

  /** The code length code has codes for all the runs. */
  ghost predicate RunsCoded(runs: seq<Run>, cl: seq<nat>) {
    |cl| == NUM_CODE_LENGTH_CODES && AllWritable(runs) && forall i :: 0 <= i < |runs| ==> RunCoded(runs[i], cl)
  }

  ghost predicate RunCoded(run: Run, cl: seq<nat>) {
    |cl| == NUM_CODE_LENGTH_CODES && Writable(run) && cl[RunCodes(run)[0]] > 0
  }

  ghost function RunsBits(runs: seq<Run>, cl: seq<nat>): (bits: seq<bit>)
    requires RunsCoded(runs, cl)
  {
    if runs == [] then []
    else
      var n := |runs| - 1;
      RunsBits(runs[..n], cl) + RunBitsOf(runs[n], cl)
  }

  lemma RunDecodes(data: seq<byte>, cl: seq<nat>, p: nat, run: Run)
    requires Usable(cl) && RunCoded(run, cl) && Holds(data, p, RunBitsOf(run, cl))
    ensures var s := RunCodes(run)[0];
            && s != INVALID_SYMBOL && SymbolAt(data, cl, p) == s && RunAt(data, s, p + cl[s]) == run
            && |RunBitsOf(run, cl)| == cl[s] + RunBits(s) && p + |RunBitsOf(run, cl)| <= 8 * |data|
            && (s == 16 <==> run.Repeat?)
  {
    hide Usable, SymbolAt, Number, Holds;
    var codes := RunCodes(run);
    HoldsInside(data, p, RunBitsOf(run, cl));
    if run.Plain? {
      HoldsSymbol(data, p, cl, codes[0]);
    } else {
      Pow2Values();
      var code, extra := CodeBits(cl, codes[0]), LsbBits(codes[1], RunBits(codes[0]));
      HoldsSplit(data, p, code, extra);
      HoldsSymbol(data, p, cl, codes[0]);
      HoldsNumber(data, p + |code|, codes[1], RunBits(codes[0]));
    }
  }

  lemma {:induction false} ExpandRunsFront(runs: seq<Run>, acc: seq<nat>)
    requires ValidRuns(runs, acc) && runs != []
    ensures var n := |runs| - 1;
            && ValidRuns(runs[..n], acc) && ValidRun(runs[n], ExpandRuns(runs[..n], acc))
            && ExpandRuns(runs, acc) == ApplyRun(runs[n], ExpandRuns(runs[..n], acc))
    decreases |runs|
  {
    var n := |runs| - 1;
    if n > 0 {
      ExpandRunsFront(runs[1..], ApplyRun(runs[0], acc));
      assert runs[1..][..n - 1] == runs[..n][1..];
    }
  }

  lemma {:induction false} RunsBounded(runs: seq<Run>)
    requires ValidRuns(runs, [])
    ensures forall i :: 0 <= i < |ExpandRuns(runs, [])| ==> ExpandRuns(runs, [])[i] <= 15
    decreases |runs|
  {
    if runs != [] {
      ExpandRunsFront(runs, []);
      RunsBounded(runs[..|runs| - 1]);
    }
  }

  /** Reading lengths continues behind a run with the lengths it stands for. */
  lemma RunStep(data: seq<byte>, cl: seq<nat>, p: nat, run: Run, acc: seq<nat>, total: nat)
    requires Usable(cl) && RunCoded(run, cl) && Holds(data, p, RunBitsOf(run, cl))
    requires ValidRun(run, acc) && |ApplyRun(run, acc)| <= total
    requires forall i :: 0 <= i < |acc| ==> acc[i] <= 15
    ensures |acc| < |ApplyRun(run, acc)| && forall i :: 0 <= i < |ApplyRun(run, acc)| ==> ApplyRun(run, acc)[i] <= 15
    ensures ReadLengths(data, cl, p, acc, total)
         == ReadLengths(data, cl, p + |RunBitsOf(run, cl)|, ApplyRun(run, acc), total)
  {
    hide Holds, Usable, ReadLengths, RunBitsOf, SymbolAt, RunAt;
    RunDecodes(data, cl, p, run);
    ReadLengthsStep(data, cl, p, acc, total);
  }

  lemma {:induction false} RunsDecode(data: seq<byte>, cl: seq<nat>, p: nat, runs: seq<Run>, total: nat)
    requires Usable(cl) && RunsCoded(runs, cl) && ValidRuns(runs, [])
    requires |ExpandRuns(runs, [])| <= total && Holds(data, p, RunsBits(runs, cl))
    ensures forall i :: 0 <= i < |ExpandRuns(runs, [])| ==> ExpandRuns(runs, [])[i] <= 15
    ensures ReadLengths(data, cl, p, [], total)
         == ReadLengths(data, cl, p + |RunsBits(runs, cl)|, ExpandRuns(runs, []), total)
    decreases |runs|
  {
    hide Holds, Usable, ReadLengths, ValidRuns, ValidRun, ApplyRun, RunBitsOf, RunCoded, Writable;
    RunsBounded(runs);
    if runs != [] {
      var n := |runs| - 1;
      ExpandRunsFront(runs, []);
      RunsBounded(runs[..n]);
      var front, acc := RunsBits(runs[..n], cl), ExpandRuns(runs[..n], []);
      HoldsSplit(data, p, front, RunBitsOf(runs[n], cl));
      RunStep(data, cl, p + |front|, runs[n], acc, total);
      RunsDecode(data, cl, p, runs[..n], total);
    }
  }

  // ----- the trees of a dynamic block

  /** The first `n` lengths of the code length code, in transmission order. */
  ghost function ClBits(cl: seq<nat>, n: nat): (bits: seq<bit>)
    requires n <= NUM_CODE_LENGTH_CODES == |cl|
    ensures |bits| == 3 * n
  {
    if n == 0 then [] else ClBits(cl, n - 1) + LsbBits(cl[CLCL_ORDER[n - 1]], 3)
  }

  lemma {:induction false} TriplesDecode(data: seq<byte>, p: nat, cl: seq<nat>, n: nat)
    requires n <= NUM_CODE_LENGTH_CODES == |cl| && Holds(data, p, ClBits(cl, n))
    requires forall s :: 0 <= s < |cl| ==> cl[s] <= 7
    ensures |CLCL_ORDER| == NUM_CODE_LENGTH_CODES && forall i :: 0 <= i < n ==> CLCL_ORDER[i] < NUM_CODE_LENGTH_CODES
    ensures forall i :: 0 <= i < n ==> Triples(data, p, n)[i] == cl[CLCL_ORDER[i]]
    ensures p + 3 * n <= 8 * |data|
  {
    hide Holds, LsbBits, Number, Pow2, CLCL_ORDER, CL_POSITION;
    ClOrderIsPermutation();
    HoldsInside(data, p, ClBits(cl, n));
    if n > 0 {
      Pow2Values();
      HoldsSplit(data, p, ClBits(cl, n - 1), LsbBits(cl[CLCL_ORDER[n - 1]], 3));
      TriplesDecode(data, p, cl, n - 1);
      HoldsNumber(data, p + 3 * (n - 1), cl[CLCL_ORDER[n - 1]], 3);
    }
  }

  /** Only zeros are left out when the first `n` lengths are transmitted, at least four of them. */
  ghost predicate Trimmed(cl: seq<nat>, n: nat) {
    && 4 <= n <= NUM_CODE_LENGTH_CODES == |cl|
    && forall i :: n <= i < NUM_CODE_LENGTH_CODES ==> cl[CLCL_ORDER[i]] == 0
  }

  lemma ClDecodes(data: seq<byte>, p: nat, cl: seq<nat>, n: nat)
    requires Trimmed(cl, n) && Holds(data, p, ClBits(cl, n))
    requires forall s :: 0 <= s < |cl| ==> cl[s] <= 7
    ensures FromClOrder(Triples(data, p, n)) == cl && p + 3 * n <= 8 * |data|
  {
    hide Holds, CLCL_ORDER, CL_POSITION, Triples, FromClOrder;
    ClOrderIsPermutation();
    TriplesDecode(data, p, cl, n);
    FromClOrderIs(Triples(data, p, n), cl);
  }

  /** Lengths of a code for literals and lengths, or for distances, as a dynamic block can describe them. */
  ghost predicate TreeOk(lengths: seq<nat>, least: nat, most: nat) {
    least <= |lengths| <= most && Usable(lengths)
  }

  /** How a dynamic block describes its trees: the three codes, how much of the third is sent, and the runs. */
  datatype Description = Description(ll: seq<nat>, d: seq<nat>, cl: seq<nat>, n: nat, runs: seq<Run>)

  ghost predicate DescriptionOk(t: Description) {
    && TreeOk(t.ll, 257, 286) && END_CODE < |t.ll| && t.ll[END_CODE] > 0 && TreeOk(t.d, 2, 30)
    && Usable(t.cl) && Trimmed(t.cl, t.n) && (forall s :: 0 <= s < |t.cl| ==> t.cl[s] <= 7)
    && RunsCoded(t.runs, t.cl) && RunsFor(t.runs, t.ll + t.d)
  }

  ghost predicate RunsFor(runs: seq<Run>, lengths: seq<nat>) {
    ValidRuns(runs, []) && ExpandRuns(runs, []) == lengths
  }

  ghost function DescriptionBits(t: Description): (bits: seq<bit>)
    requires DescriptionOk(t)
  {
    LsbBits(|t.ll| - 257, 5) + (LsbBits(|t.d| - 1, 5) + (LsbBits(t.n - 4, 4) + (ClBits(t.cl, t.n) + RunsBits(t.runs, t.cl))))
  }

  lemma PaddedUsable(lengths: seq<nat>, size: nat)
    requires |lengths| <= size && Usable(lengths)
    ensures Usable(Padded(lengths, size))
  {
    PadCounts(lengths, size - |lengths|, MAX_CODE_BITS);
    assert Padded(lengths, size) == lengths + seq(size - |lengths|, i => 0);
  }

  lemma TreesFromDecodes(ll: seq<nat>, d: seq<nat>)
    requires TreeOk(ll, 257, 286) && ll[END_CODE] > 0 && TreeOk(d, 2, 30)
    ensures forall i :: 0 <= i < |ll + d| ==> (ll + d)[i] <= 15
    ensures TreesFrom(ll + d, |ll|)
         == Ok(Trees(Padded(ll, NUM_DEFLATE_CODE_SYMBOLS), Padded(d, NUM_DISTANCE_SYMBOLS)))
  {
    hide Kraft;
    PaddedUsable(ll, NUM_DEFLATE_CODE_SYMBOLS);
    PaddedUsable(d, NUM_DISTANCE_SYMBOLS);
    assert (ll + d)[..|ll|] == ll && (ll + d)[|ll|..] == d;
  }

  /** The decoder finds the trees the encoder described, padded to its own alphabets. */
  lemma DescriptionDecodes(data: seq<byte>, p: nat, t: Description)
    requires DescriptionOk(t) && Holds(data, p, DescriptionBits(t))
    ensures DynamicTrees(data, p)
         == Ok(At(p + |DescriptionBits(t)|,
                  Trees(Padded(t.ll, NUM_DEFLATE_CODE_SYMBOLS), Padded(t.d, NUM_DISTANCE_SYMBOLS))))
  {
    hide Holds, Usable, Triples, FromClOrder, ClBits, RunsBits, ReadLengths, LsbBits, Number, TreesFrom, Trimmed, RunsCoded,
      ValidRuns, ExpandRuns, Padded;
    Pow2Values();
    TrimmedBounds(t.cl, t.n);
    var e := RunsBits(t.runs, t.cl);
    var c := ClBits(t.cl, t.n) + e;
    var b := LsbBits(t.n - 4, 4) + c;
    var a := LsbBits(|t.d| - 1, 5) + b;
    HoldsSplit(data, p, LsbBits(|t.ll| - 257, 5), a);
    HoldsSplit(data, p + 5, LsbBits(|t.d| - 1, 5), b);
    HoldsSplit(data, p + 10, LsbBits(t.n - 4, 4), c);
    HoldsSplit(data, p + 14, ClBits(t.cl, t.n), e);
    HoldsNumber(data, p, |t.ll| - 257, 5);
    HoldsNumber(data, p + 5, |t.d| - 1, 5);
    HoldsNumber(data, p + 10, t.n - 4, 4);
    ClDecodes(data, p + 14, t.cl, t.n);
    UsableDecodable(t.cl);
    var q := p + 14 + 3 * t.n;
    RunsDecode(data, t.cl, q, t.runs, |t.ll| + |t.d|);
    ReadLengthsDone(data, t.cl, q + |e|, t.ll + t.d);
    TreesFromDecodes(t.ll, t.d);
  }

  lemma TrimmedBounds(cl: seq<nat>, n: nat)
    requires Trimmed(cl, n)
    ensures 4 <= n <= NUM_CODE_LENGTH_CODES == |cl|
  {
  }

  lemma UsableDecodable(lengths: seq<nat>)
    requires Usable(lengths)
    ensures Decodable(lengths)
  {
  }

  // ----- padding leaves the codes alone

  lemma PaddedCode(lengths: seq<nat>, size: nat, n: nat)
    requires n < |lengths| <= size && lengths[n] > 0
    ensures Padded(lengths, size)[n] == lengths[n] && CodeBits(Padded(lengths, size), n) == CodeBits(lengths, n)
  {
    PadCode(lengths, size - |lengths|, n);
    assert Padded(lengths, size) == lengths + seq(size - |lengths|, i => 0);
  }

  lemma PaddedToken(token: Token, ll: seq<nat>, d: seq<nat>, ll': seq<nat>, d': seq<nat>)
    requires Coded(token, ll, d) && |ll| <= NUM_DEFLATE_CODE_SYMBOLS && |d| <= NUM_DISTANCE_SYMBOLS
    requires ll' == Padded(ll, NUM_DEFLATE_CODE_SYMBOLS) && d' == Padded(d, NUM_DISTANCE_SYMBOLS)
    ensures Coded(token, ll', d') && TokenBits(token, ll', d') == TokenBits(token, ll, d)
  {
    hide CodeBits, Padded, CodeIndex, LENGTHBASE, DISTANCEBASE;
    var codes := Codes(token);
    PaddedCode(ll, NUM_DEFLATE_CODE_SYMBOLS, codes[0]);
    if token.Match? {
      PaddedCode(d, NUM_DISTANCE_SYMBOLS, codes[2]);
    }
  }

  lemma {:induction false} PaddedTokens(tokens: seq<Token>, ll: seq<nat>, d: seq<nat>, ll': seq<nat>, d': seq<nat>)
    requires AllCoded(tokens, ll, d) && |ll| <= NUM_DEFLATE_CODE_SYMBOLS && |d| <= NUM_DISTANCE_SYMBOLS
    requires ll' == Padded(ll, NUM_DEFLATE_CODE_SYMBOLS) && d' == Padded(d, NUM_DISTANCE_SYMBOLS)
    ensures AllCoded(tokens, ll', d') && TokensBits(tokens, ll', d') == TokensBits(tokens, ll, d)
  {
    hide Coded, TokenBits, Padded;
    if tokens != [] {
      var n := |tokens| - 1;
      PaddedTokens(tokens[..n], ll, d, ll', d');
      PaddedToken(tokens[n], ll, d, ll', d');
    }
  }

  lemma PaddedBody(tokens: seq<Token>, ll: seq<nat>, d: seq<nat>, ll': seq<nat>, d': seq<nat>)
    requires AllCoded(tokens, ll, d) && END_CODE < |ll| <= NUM_DEFLATE_CODE_SYMBOLS && |d| <= NUM_DISTANCE_SYMBOLS
    requires ll[END_CODE] > 0
    requires ll' == Padded(ll, NUM_DEFLATE_CODE_SYMBOLS) && d' == Padded(d, NUM_DISTANCE_SYMBOLS)
    ensures AllCoded(tokens, ll', d') && ll'[END_CODE] > 0
    ensures BodyBits(tokens, ll', d') == BodyBits(tokens, ll, d)
  {
    hide AllCoded, TokensBits, CodeBits, Padded;
    PaddedTokens(tokens, ll, d, ll', d');
    PaddedCode(ll, NUM_DEFLATE_CODE_SYMBOLS, END_CODE);
  }

  // ----- blocks

  function HeaderBits(final: bit, btype: nat): seq<bit> {
    [final] + LsbBits(btype, 2)
  }

  lemma HeaderDecodes(data: seq<byte>, p: nat, final: bit, btype: nat)
    requires btype < 4 && Holds(data, p, HeaderBits(final, btype))
    ensures Number(data, p, 1) == final && Number(data, p + 1, 2) == btype && p + 3 <= 8 * |data|
  {
    hide Holds, Number;
    Pow2Values();
    assert LsbBits(final, 1) == [final];
    HoldsSplit(data, p, [final], LsbBits(btype, 2));
    HoldsNumber(data, p, final, 1);
    HoldsNumber(data, p + 1, btype, 2);
  }

  ghost function FixedBlockBits(final: bit, tokens: seq<Token>): (bits: seq<bit>)
    requires AllCoded(tokens, FixedLitLen(), FixedDistance())
  {
    HeaderBits(final, 1) + BodyBits(tokens, FixedLitLen(), FixedDistance())
  }

  lemma FixedCodesEverything(tokens: seq<Token>)
    requires ValidTokens(tokens)
    ensures AllCoded(tokens, FixedLitLen(), FixedDistance())
  {
    forall i | 0 <= i < |tokens|
      ensures Coded(tokens[i], FixedLitLen(), FixedDistance())
    {
      if tokens[i].Match? {
        MatchCodes(tokens[i].length, tokens[i].distance);
      }
    }
  }

  ghost function DynamicBlockBits(final: bit, t: Description, tokens: seq<Token>): (bits: seq<bit>)
    requires DescriptionOk(t) && AllCoded(tokens, t.ll, t.d)
  {
    HeaderBits(final, 2) + (DescriptionBits(t) + BodyBits(tokens, t.ll, t.d))
  }

  /** Inflating from a position gives `out1` at the position behind a block. */
  ghost predicate BlockLeads(data: seq<byte>, p: nat, out: seq<byte>, final: bit, q: nat, out1: seq<byte>, ignoreNlen: bool) {
    InflateBlocks(data, p, out, ignoreNlen) == if final == 1 then Ok(out1) else InflateBlocks(data, q, out1, ignoreNlen)
  }

  lemma FixedBlockDecodes(data: seq<byte>, p: nat, out: seq<byte>, final: bit, tokens: seq<Token>, ignoreNlen: bool)
    requires AllCoded(tokens, FixedLitLen(), FixedDistance()) && Expandable(tokens, |out|)
    requires Holds(data, p, FixedBlockBits(final, tokens))
    ensures BlockLeads(data, p, out, final, p + |FixedBlockBits(final, tokens)|, Expand(tokens, out), ignoreNlen)
  {
    hide Holds, Number, BodyBits, AllCoded, InflateSymbols, InflateBlocks, InflateStored, FixedLitLen, FixedDistance;
    hide Usable, Expand, Expandable, DynamicTrees;
    var body := BodyBits(tokens, FixedLitLen(), FixedDistance());
    FixedEnd();
    HoldsSplit(data, p, HeaderBits(final, 1), body);
    HeaderDecodes(data, p, final, 1);
    BodyDecodes(data, FixedLitLen(), FixedDistance(), p + 3, tokens, out);
    InflateBlocksStep(data, p, out, ignoreNlen);
  }

  lemma FixedEnd()
    ensures Usable(FixedLitLen()) && Usable(FixedDistance()) && FixedLitLen()[END_CODE] > 0
  {
    FixedTreesOk();
  }

  lemma DynamicBlockDecodes(data: seq<byte>, p: nat, out: seq<byte>, final: bit, t: Description, tokens: seq<Token>,
                            ignoreNlen: bool)
    requires DescriptionOk(t) && AllCoded(tokens, t.ll, t.d) && Expandable(tokens, |out|)
    requires Holds(data, p, DynamicBlockBits(final, t, tokens))
    ensures BlockLeads(data, p, out, final, p + |DynamicBlockBits(final, t, tokens)|, Expand(tokens, out), ignoreNlen)
  {
    hide Holds, Number, BodyBits, AllCoded, DescriptionBits, InflateSymbols, InflateBlocks, InflateStored, Padded, DynamicTrees, Expandable, Expand;
    hide Usable, Trimmed, RunsCoded, ValidRuns, ExpandRuns;
    var body, trees := BodyBits(tokens, t.ll, t.d), DescriptionBits(t);
    var ll, d := Padded(t.ll, NUM_DEFLATE_CODE_SYMBOLS), Padded(t.d, NUM_DISTANCE_SYMBOLS);
    HoldsSplit(data, p, HeaderBits(final, 2), trees + body);
    HoldsSplit(data, p + 3, trees, body);
    HeaderDecodes(data, p, final, 2);
    DescriptionDecodes(data, p + 3, t);
    PaddedUsable(t.ll, NUM_DEFLATE_CODE_SYMBOLS);
    PaddedUsable(t.d, NUM_DISTANCE_SYMBOLS);
    PaddedBody(tokens, t.ll, t.d, ll, d);
    BodyDecodes(data, ll, d, p + 3 + |trees|, tokens, out);
    InflateBlocksStep(data, p, out, ignoreNlen);
  }

  // ----- whole streams

  /** Inflating any buffer that begins with these bits gives `out` so far, or as the final result. */
  ghost predicate Inflates(bits: seq<bit>, out: seq<byte>, done: bit) {
    forall data: seq<byte>, ignoreNlen: bool ::
      Holds(data, 0, bits) ==> BlockLeads(data, 0, [], done, |bits|, out, ignoreNlen)
  }

  lemma NothingInflates()
    ensures Inflates([], [], 0)
  {
  }

  lemma AddFixedBlock(bits: seq<bit>, out: seq<byte>, final: bit, tokens: seq<Token>)
    requires Inflates(bits, out, 0) && AllCoded(tokens, FixedLitLen(), FixedDistance()) && Expandable(tokens, |out|)
    ensures Inflates(bits + FixedBlockBits(final, tokens), Expand(tokens, out), final)
  {
    hide Holds, InflateBlocks, FixedBlockBits, Expand, Expandable, AllCoded, FixedLitLen, FixedDistance;
    var block := FixedBlockBits(final, tokens);
    forall data: seq<byte>, ignoreNlen: bool | Holds(data, 0, bits + block)
      ensures BlockLeads(data, 0, [], final, |bits + block|, Expand(tokens, out), ignoreNlen)
    {
      HoldsSplit(data, 0, bits, block);
      FixedBlockDecodes(data, |bits|, out, final, tokens, ignoreNlen);
      assert BlockLeads(data, 0, [], 0, |bits|, out, ignoreNlen);
    }
  }

  lemma AddDynamicBlock(bits: seq<bit>, out: seq<byte>, final: bit, t: Description, tokens: seq<Token>)
    requires Inflates(bits, out, 0) && DescriptionOk(t) && AllCoded(tokens, t.ll, t.d) && Expandable(tokens, |out|)
    ensures Inflates(bits + DynamicBlockBits(final, t, tokens), Expand(tokens, out), final)
  {
    hide Holds, InflateBlocks, DynamicBlockBits, Expand, Expandable, AllCoded, DescriptionOk;
    var block := DynamicBlockBits(final, t, tokens);
    forall data: seq<byte>, ignoreNlen: bool | Holds(data, 0, bits + block)
      ensures BlockLeads(data, 0, [], final, |bits + block|, Expand(tokens, out), ignoreNlen)
    {
      HoldsSplit(data, 0, bits, block);
      DynamicBlockDecodes(data, |bits|, out, final, t, tokens, ignoreNlen);
      assert BlockLeads(data, 0, [], 0, |bits|, out, ignoreNlen);
    }
  }

  /** A finished stream, padded to whole bytes, inflates to its contents. */
  lemma FinishedStream(data: seq<byte>, bits: seq<bit>, padding: seq<bit>, out: seq<byte>, ignoreNlen: bool)
    requires BitsOf(data) == bits + padding && Inflates(bits, out, 1)
    ensures Inflated(data, ignoreNlen) == Ok(out)
  {
    hide BlockLeads, InflateBlocks;
    PeekInside(data, 0, |bits|);
    assert BitsOf(data)[0..|bits|] == bits;
    assert Holds(data, 0, bits);
    assert BlockLeads(data, 0, [], 1, |bits|, out, ignoreNlen);
    LeadsToEnd(data, |bits|, out, ignoreNlen);
  }

  lemma LeadsToEnd(data: seq<byte>, q: nat, out: seq<byte>, ignoreNlen: bool)
    requires BlockLeads(data, 0, [], 1, q, out, ignoreNlen)
    ensures Inflated(data, ignoreNlen) == Ok(out)
  {
    hide InflateBlocks;
  }

  // ----- stored blocks

  const MAX_STORED: nat := 65535

  function StoredBlock(final: bit, chunk: seq<byte>): (block: seq<byte>)
    requires |chunk| <= MAX_STORED
  {
    var len, nlen := |chunk|, MAX_STORED - |chunk|;
    [final, len % 256, len / 256, nlen % 256, nlen / 256] + chunk
  }

  lemma StoredHeaderDecodes(data: seq<byte>, i: nat, final: bit)
    requires i < |data| && data[i] == final
    ensures Number(data, 8 * i, 1) == final && Number(data, 8 * i + 1, 2) == 0
  {
    hide Peek, Lsb, LsbBits;
    PeekByte(data, i);
    PeekShift(data, 8 * i, 8, 1);
    PeekShift(data, 8 * i + 1, 7, 2);
    assert Low(final, 1) == final && Shr(final, 1) == 0 && Low(0, 2) == 0;
  }

  lemma StoredBlockDecodes(data: seq<byte>, i: nat, out: seq<byte>, final: bit, chunk: seq<byte>, ignoreNlen: bool)
    requires 0 < |chunk| <= MAX_STORED && i + 5 + |chunk| <= |data|
    requires data[i..i + 5 + |chunk|] == StoredBlock(final, chunk)
    ensures BlockLeads(data, 8 * i, out, final, 8 * (i + 5 + |chunk|), out + chunk, ignoreNlen)
  {
    hide InflateBlocks, Number;
    var block := data[i..i + 5 + |chunk|];
    assert block[0] == data[i] && block[1] == data[i + 1] && block[2] == data[i + 2];
    assert block[3] == data[i + 3] && block[4] == data[i + 4];
    StoredHeaderDecodes(data, i, final);
    InflateBlocksStep(data, 8 * i, out, ignoreNlen);
    assert (8 * i + 3 + 7) / 8 == i + 1;
    assert data[i + 5..i + 5 + |chunk|] == block[5..] == chunk;
  }

  /** Inflating any buffer that begins with these bytes gives `out` so far, or as the final result. */
  ghost predicate InflatesBytes(bytes: seq<byte>, out: seq<byte>, done: bit) {
    forall data: seq<byte>, ignoreNlen: bool ::
      bytes <= data ==> BlockLeads(data, 0, [], done, 8 * |bytes|, out, ignoreNlen)
  }

  lemma AddStoredBlock(bytes: seq<byte>, out: seq<byte>, final: bit, chunk: seq<byte>)
    requires InflatesBytes(bytes, out, 0) && 0 < |chunk| <= MAX_STORED
    ensures InflatesBytes(bytes + StoredBlock(final, chunk), out + chunk, final)
  {
    hide InflateBlocks;
    var block := StoredBlock(final, chunk);
    forall data: seq<byte>, ignoreNlen: bool | bytes + block <= data
      ensures BlockLeads(data, 0, [], final, 8 * |bytes + block|, out + chunk, ignoreNlen)
    {
      assert data[..|bytes + block|] == bytes + block;
      assert data[|bytes|..|bytes| + |block|] == block;
      StoredBlockDecodes(data, |bytes|, out, final, chunk, ignoreNlen);
      assert bytes <= data;
      assert BlockLeads(data, 0, [], 0, 8 * |bytes|, out, ignoreNlen);
    }
  }

  lemma FinishedBytes(data: seq<byte>, out: seq<byte>, ignoreNlen: bool)
    requires InflatesBytes(data, out, 1)
    ensures Inflated(data, ignoreNlen) == Ok(out)
  {
    hide InflateBlocks, BlockLeads;
    assert BlockLeads(data, 0, [], 1, 8 * |data|, out, ignoreNlen);
    LeadsToEnd(data, 8 * |data|, out, ignoreNlen);
  }

  /** An empty buffer is not a DEFLATE stream. */
  lemma NothingIsNoStream(ignoreNlen: bool)
    ensures Inflated([], ignoreNlen) == Err(52)
  {
    InflateBlocksStep([], 0, [], ignoreNlen);
  }
}
