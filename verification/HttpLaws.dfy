/**
  What runs of the HTTP parser are about: pieces of a message make no difference, announced lengths are the numbers
  written, and a method is only recognized by its own name.
 */
module HttpLaws {
  import opened HttpChars
  import opened HttpMachine
  import opened HttpRun
  import opened HttpStretch

  // ----- pieces

  function Joined(pieces: seq<seq<octet>>): seq<octet> {
    if pieces == [] then [] else Joined(pieces[..|pieces| - 1]) + pieces[|pieces| - 1]
  }

  /** A call for every piece, as long as none ends the run. */
  function RunPieces(q: Parser, log: seq<Event>, pieces: seq<seq<octet>>, max: nat): (r: Result)
    requires Valid(q)
    ensures !r.Failed? ==> Valid(r.q)
  {
    if pieces == [] then Running(q, log)
    else
      var last := |pieces| - 1;
      Then(RunPieces(q, log, pieces[..last], max), pieces[last], max, |Joined(pieces[..last])|)
  }

  /** However the bytes are cut into pieces, the parser and its callbacks end up the same. */
  lemma {:induction false} PiecesMakeNoDifference(q: Parser, log: seq<Event>, pieces: seq<seq<octet>>, max: nat)
    requires Valid(q)
    ensures RunPieces(q, log, pieces, max) == Run(q, log, Joined(pieces), max)
  {
    hide Valid, Run, Then;
    if pieces == [] {
      EmptyRun(q, log, max);
    } else {
      var last := |pieces| - 1;
      PiecesMakeNoDifference(q, log, pieces[..last], max);
      RunConcat(q, log, Joined(pieces[..last]), pieces[last], max);
    }
  }

  lemma EmptyRun(q: Parser, log: seq<Event>, max: nat)
    requires Valid(q)
    ensures Run(q, log, [], max) == Running(q, log)
  {
  }

  // ----- characters

  const SMALL_DIGITS: string := "0123456789abcdef"
  const LARGE_DIGITS: string := "0123456789ABCDEF"

  /** The values of digits, which may be capitals or not. A byte above 127 counts as a zero. */
  lemma DigitsFormat(c: octet, d: nat)
    requires d < 16
    ensures |SMALL_DIGITS| == |LARGE_DIGITS| == 16
    ensures Unhex(c) == d <==> c == SMALL_DIGITS[d] || c == LARGE_DIGITS[d] || (d == 0 && c as int >= 128)
  {
  }

  // ----- announced lengths

  /** The number written with some digits after those of `v`. */
  function Number(v: nat, ds: seq<octet>, base: nat): nat
    requires forall i :: 0 <= i < |ds| ==> Unhex(ds[i]) >= 0
  {
    if ds == [] then v else Number(v, ds[..|ds| - 1], base) * base + Unhex(ds[|ds| - 1])
  }

  /** Whether the digits before the last one leave room for it. */
  predicate Fits(v: nat, ds: seq<octet>, base: nat, limit: nat)
    requires forall i :: 0 <= i < |ds| ==> Unhex(ds[i]) >= 0
  {
    ds == [] || Number(v, ds[..|ds| - 1], base) <= limit
  }

  lemma NumberGrows(v: nat, ds: seq<octet>, base: nat)
    requires base >= 1 && forall i :: 0 <= i < |ds| ==> Unhex(ds[i]) >= 0
    ensures ds != [] ==> Number(v, ds[..|ds| - 1], base) <= Number(v, ds, base)
  {
    if ds != [] {
      TimesGrows(Number(v, ds[..|ds| - 1], base), base);
    }
  }

  lemma TimesGrows(n: nat, base: nat)
    requires base >= 1
    ensures n * base >= n
  {
  }

  lemma {:induction false} NumberSplit(d: octet, ds: seq<octet>, base: nat)
    requires Unhex(d) >= 0 && forall i :: 0 <= i < |ds| ==> Unhex(ds[i]) >= 0
    ensures Number(0, [d] + ds, base) == Number(Unhex(d), ds, base)
  {
    var all := [d] + ds;
    if ds == [] {
      assert all[..|all| - 1] == [] && all[|all| - 1] == d;
      assert Number(0, [], base) == 0;
      ZeroTimes(base);
    } else {
      var last := |ds| - 1;
      assert all[..|all| - 1] == [d] + ds[..last];
      NumberSplit(d, ds[..last], base);
    }
  }

  lemma ZeroTimes(base: nat)
    ensures 0 * base == 0
  {
  }

  lemma FitsSplit(d: octet, ds: seq<octet>, base: nat, limit: nat)
    requires Unhex(d) >= 0 && forall i :: 0 <= i < |ds| ==> Unhex(ds[i]) >= 0
    ensures Fits(0, [d] + ds, base, limit) <==> Fits(Unhex(d), ds, base, limit)
  {
    var all := [d] + ds;
    if ds == [] {
      assert all[..|all| - 1] == [];
    } else {
      assert all[..|all| - 1] == [d] + ds[..|ds| - 1];
      NumberSplit(d, ds[..|ds| - 1], base);
    }
  }

  predicate Digits(ds: seq<octet>) {
    forall i :: 0 <= i < |ds| ==> IsNum(ds[i])
  }

  lemma DigitsAreHex(ds: seq<octet>)
    requires Digits(ds)
    ensures forall i :: 0 <= i < |ds| ==> Unhex(ds[i]) >= 0
  {
  }

  const LENGTH_LIMIT: nat := (ULLONG_MAX - 10) / 10

  /** Digits of a length that is being read: accepted with the right number exactly if it cannot overflow. */
  lemma {:induction false} LengthDigits(q: Parser, ds: seq<octet>)
    requires q.state.HeaderValue? && q.header.ContentLengthNum? && Digits(ds)
    ensures forall i :: 0 <= i < |ds| ==> Unhex(ds[i]) >= 0
    ensures PlainBytes(q, ds) == if Fits(q.contentLength, ds, 10, LENGTH_LIMIT)
                                 then Ok(q.(contentLength := Number(q.contentLength, ds, 10)))
                                 else Bad(INVALID_CONTENT_LENGTH)
  {
    DigitsAreHex(ds);
    if ds != [] {
      var last := |ds| - 1;
      LengthDigits(q, ds[..last]);
      NumberGrows(q.contentLength, ds[..last], 10);
      if Fits(q.contentLength, ds[..last], 10, LENGTH_LIMIT) {
        LengthDigit(q.(contentLength := Number(q.contentLength, ds[..last], 10)), ds[last]);
      }
    }
  }

  lemma LengthDigit(q: Parser, ch: octet)
    requires q.state.HeaderValue? && q.header.ContentLengthNum? && IsNum(ch)
    ensures Plain1(q, ch) == if q.contentLength <= LENGTH_LIMIT
                             then Ok(q.(contentLength := q.contentLength * 10 + Unhex(ch)))
                             else Bad(INVALID_CONTENT_LENGTH)
  {
  }

  /** The first byte that is not plain fails the run. */
  lemma {:induction false} PlainBad(q: Parser, log: seq<Event>, s: seq<octet>, max: nat)
    requires Valid(q) && q.state.HeaderValue? && PlainBytes(q, s).Bad? && q.nread + |s| <= max
    requires forall i :: 0 <= i < |s| ==> s[i] != CR && s[i] != LF
    ensures var r := Run(q, log, s, max); r.Failed? && r.errno == PlainBytes(q, s).errno
  {
    hide Valid, Step, ValueByte;
    var last := |s| - 1;
    if PlainBytes(q, s[..last]).Bad? {
      PlainBad(q, log, s[..last], max);
    } else {
      PlainBytesKeep(q, s[..last]);
      PlainRun(q, log, s[..last], max);
      var n := q.nread + last;
      var q' := PlainBytes(q, s[..last]).q;
      PlainCounts(q', s[last], n);
      ValidRecounted(q', n);
      BadStep(q'.(nread := n), With(log, VALUE, s[..last]), s[last], max, last);
    }
  }

  lemma BadStep(q: Parser, log: seq<Event>, ch: octet, max: nat, n: nat)
    requires Valid(q) && q.state.HeaderValue? && ch != CR && ch != LF && Plain1(q, ch).Bad? && q.nread + 1 <= max
    ensures Step(q, log, ch, max, n) == Failed(Plain1(q, ch).errno, n)
  {
    hide Valid, ValueByte, AtUrl, AtVersion, StartLineByte;
    PlainCounts(q, ch, q.nread + 1);
  }

  lemma LengthStart(q: Parser, log: seq<Event>, d: octet, max: nat, n: nat)
    requires Valid(q) && q.state.HeaderValueDiscardWs? && q.header.ContentLength? && !q.flags.contentLength
    requires IsNum(d) && q.nread + 1 <= max
    ensures Step(q, log, d, max, n)
         == Running(q.(nread := q.nread + 1, state := HeaderValue, index := 0, contentLength := Unhex(d),
                       flags := q.flags.(contentLength := true), header := ContentLengthNum), Emit(log, Data(VALUE, [d])))
  {
    hide Valid, Emit, AtUrl, AtVersion, StartLineByte;
    assert [d][0..] == [d];
    assert [Mark(VALUE)][1..] == [];
  }

  lemma ValueEnds(q: Parser, log: seq<Event>, bytes: seq<octet>, max: nat, n: nat)
    requires Valid(q) && q.state.HeaderValue? && q.nread + 1 <= max
    ensures Step(q, Emit(log, Data(VALUE, bytes)), CR, max, n)
         == Running(q.(nread := q.nread + 1, state := HeaderAlmostDone), Emit(log, Data(VALUE, bytes)))
  {
    hide Valid, Emit, ValueByte, AtUrl, AtVersion, StartLineByte;
    EmitEmit(log, VALUE, bytes, []);
    assert bytes + [] == bytes && [CR][0..0] == [];
    assert [Flush(VALUE)][1..] == [];
  }

  /**
    The value of a Content-Length header is exactly the number written, and below the value that stands for no length;
    it is refused exactly if the digits before the last one exceed a tenth of the largest number.
   */
  lemma ContentLengthExact(q: Parser, log: seq<Event>, ds: seq<octet>, max: nat)
    requires Valid(q) && q.state.HeaderValueDiscardWs? && q.header.ContentLength? && !q.flags.contentLength
    requires ds != [] && Digits(ds) && q.nread + |ds| + 1 <= max
    ensures forall i :: 0 <= i < |ds| ==> Unhex(ds[i]) >= 0
    ensures var r := Run(q, log, ds + [CR], max);
            if Fits(0, ds, 10, LENGTH_LIMIT) then
              && r.Running? && r.q.contentLength == Number(0, ds, 10) < ULLONG_MAX && r.q.flags.contentLength
              && r.q.state.HeaderAlmostDone? && r.log == Emit(log, Data(VALUE, ds))
            else r.Failed? && r.errno == INVALID_CONTENT_LENGTH
  {
    hide Valid, Step, Emit, PlainBytes, Run, Number, Fits;
    DigitsAreHex(ds);
    var d, rest := ds[0], ds[1..];
    assert ds == [d] + rest;
    NumberSplit(d, rest, 10);
    FitsSplit(d, rest, 10, LENGTH_LIMIT);
    LengthStart(q, log, d, max, 0);
    StepValid(q, log, d, max, 0);
    FirstByte(q, log, d, rest + [CR], max);
    assert [d] + (rest + [CR]) == ds + [CR];
    var q1, log1 := Step(q, log, d, max, 0).q, Emit(log, Data(VALUE, [d]));
    LengthDigits(q1, rest);
    RunConcat(q1, log1, rest, [CR], max);
    if Fits(Unhex(d), rest, 10, LENGTH_LIMIT) {
      PlainRun(q1, log1, rest, max);
      PlainBytesKeep(q1, rest);
      WithWith(log, VALUE, [d], rest);
      var q2 := Run(q1, log1, rest, max).q;
      ValueEnds(q2, log, ds, max, 0);
      OneByte(q2, Emit(log, Data(VALUE, ds)), CR, max);
      StepValid(q2, Emit(log, Data(VALUE, ds)), CR, max, 0);
      LengthBelow(Run(q, log, ds + [CR], max).q);
    } else {
      NotLineEnds(rest);
      PlainBad(q1, log1, rest, max);
    }
  }

  lemma NotLineEnds(ds: seq<octet>)
    requires Digits(ds)
    ensures forall i :: 0 <= i < |ds| ==> ds[i] != CR && ds[i] != LF
  {
  }

  lemma LengthBelow(q: Parser)
    requires Valid(q) && q.flags.contentLength
    ensures q.contentLength < ULLONG_MAX
  {
  }

  lemma OneByte(q: Parser, log: seq<Event>, ch: octet, max: nat)
    requires Valid(q)
    ensures Run(q, log, [ch], max) == Step(q, log, ch, max, 0)
  {
    hide Valid, Step;
    assert [ch][..0] == [];
  }

  lemma FirstByte(q: Parser, log: seq<Event>, ch: octet, rest: seq<octet>, max: nat)
    requires Valid(q)
    ensures Run(q, log, [ch] + rest, max) == Then(Run(q, log, [ch], max), rest, max, 1)
    ensures Run(q, log, [ch], max) == Step(q, log, ch, max, 0)
  {
    hide Valid, Step, Run;
    OneByte(q, log, ch, max);
    RunConcat(q, log, [ch], rest, max);
  }

  // ----- chunk sizes

  const CHUNK_LIMIT: nat := (ULLONG_MAX - 16) / 16

  predicate HexDigits(hs: seq<octet>) {
    forall i :: 0 <= i < |hs| ==> Unhex(hs[i]) >= 0
  }

  lemma ChunkDigit(q: Parser, log: seq<Event>, h: octet, max: nat, n: nat)
    requires Valid(q) && q.state.ChunkSize? && Unhex(h) >= 0 && q.nread + 1 <= max
    ensures Step(q, log, h, max, n)
         == if q.contentLength <= CHUNK_LIMIT
            then Running(q.(nread := q.nread + 1, contentLength := q.contentLength * 16 + Unhex(h)), log)
            else Failed(INVALID_CONTENT_LENGTH, n)
  {
    hide Valid, AtUrl, AtVersion, StartLineByte;
  }

  lemma {:induction false} ChunkDigits(q: Parser, log: seq<Event>, hs: seq<octet>, max: nat)
    requires Valid(q) && q.state.ChunkSize? && HexDigits(hs) && q.nread + |hs| <= max
    ensures var r := Run(q, log, hs, max);
            if Fits(q.contentLength, hs, 16, CHUNK_LIMIT)
            then r == Running(q.(nread := q.nread + |hs|, contentLength := Number(q.contentLength, hs, 16)), log)
            else r.Failed? && r.errno == INVALID_CONTENT_LENGTH
  {
    hide Valid, Step;
    if hs != [] {
      var last := |hs| - 1;
      ChunkDigits(q, log, hs[..last], max);
      NumberGrows(q.contentLength, hs[..last], 16);
      var r := Run(q, log, hs[..last], max);
      if r.Running? {
        ChunkDigit(r.q, log, hs[last], max, last);
      }
    }
  }

  lemma ChunkStart(q: Parser, log: seq<Event>, h: octet, max: nat, n: nat)
    requires Valid(q) && q.state.ChunkSizeStart? && Unhex(h) >= 0 && q.nread + 1 <= max
    ensures Step(q, log, h, max, n)
         == Running(q.(nread := q.nread + 1, state := ChunkSize, contentLength := Unhex(h)), log)
  {
    hide Valid, AtUrl, AtVersion, StartLineByte;
  }

  lemma ChunkSizeCr(q: Parser, log: seq<Event>, max: nat, n: nat)
    requires Valid(q) && q.state.ChunkSize? && q.nread + 1 <= max
    ensures Step(q, log, CR, max, n) == Running(q.(nread := q.nread + 1, state := ChunkSizeAlmostDone), log)
  {
    hide Valid, AtUrl, AtVersion, StartLineByte;
  }

  lemma ChunkSizeEnds(q: Parser, log: seq<Event>, max: nat)
    requires Valid(q) && q.state.ChunkSize? && q.nread + 2 <= max
    ensures Run(q, log, [CR, LF], max)
         == Running(ChunkBegun(q), Emit(log, ChunkHeader(q.contentLength)))
  {
    hide Valid, Emit, Run, Step;
    assert [CR] + [LF] == [CR, LF];
    FirstByte(q, log, CR, [LF], max);
    ChunkSizeCr(q, log, max, 0);
    var q1 := q.(nread := q.nread + 1, state := ChunkSizeAlmostDone);
    StepValid(q, log, CR, max, 0);
    OneByte(q1, log, LF, max);
    ChunkSizeLf(q1, log, max);
  }

  lemma Notified(log: seq<Event>, e: Event, ch: octet)
    ensures AtEnd(DoAll(Calls(NoMark, log), [Notify(e)], [ch], 0), [ch]) == Emit(log, e)
  {
    hide Emit;
    assert [Notify(e)][1..] == [];
  }

  lemma ChunkSizeLf(q: Parser, log: seq<Event>, max: nat)
    requires Valid(q) && q.state.ChunkSizeAlmostDone? && q.nread + 1 <= max
    ensures Step(q, log, LF, max, 0) == Running(ChunkBegun(q), Emit(log, ChunkHeader(q.contentLength)))
  {
    hide Valid, Emit, DoAll, AtEnd, AtUrl, AtVersion, StartLineByte;
    CountedValid(q);
    assert Byte(Counted(q), LF) == Next(ChunkBegun(q), [Notify(ChunkHeader(q.contentLength))]);
    Notified(log, ChunkHeader(q.contentLength), LF);
  }

  /** The data of a chunk, or the trailer after the last chunk, come next. */
  function ChunkBegun(q: Parser): Parser {
    if q.contentLength == 0 then q.(flags := q.flags.(trailing := true), state := HeaderFieldStart, nread := 0)
    else q.(state := ChunkData, nread := 0)
  }

  /**
    The size of a chunk is exactly the hexadecimal number written; it is refused exactly if the digits before the last
    one exceed a sixteenth of the largest number.
   */
  lemma ChunkSizeExact(q: Parser, log: seq<Event>, hs: seq<octet>, max: nat)
    requires Valid(q) && q.state.ChunkSizeStart? && hs != [] && HexDigits(hs) && q.nread + |hs| + 2 <= max
    ensures var r, size := Run(q, log, hs + [CR, LF], max), Number(0, hs, 16);
            if Fits(0, hs, 16, CHUNK_LIMIT) then
              r == Running(ChunkBegun(q.(contentLength := size)), Emit(log, ChunkHeader(size))) && size < ULLONG_MAX
            else r.Failed? && r.errno == INVALID_CONTENT_LENGTH
  {
    hide Valid, Step, Emit, Run, Number, Fits;
    var h, rest := hs[0], hs[1..];
    assert hs == [h] + rest;
    NumberSplit(h, rest, 16);
    FitsSplit(h, rest, 16, CHUNK_LIMIT);
    ChunkStart(q, log, h, max, 0);
    StepValid(q, log, h, max, 0);
    FirstByte(q, log, h, rest + [CR, LF], max);
    assert [h] + (rest + [CR, LF]) == hs + [CR, LF];
    var q1 := Step(q, log, h, max, 0).q;
    ChunkDigits(q1, log, rest, max);
    RunConcat(q1, log, rest, [CR, LF], max);
    var r := Run(q1, log, rest, max);
    if r.Running? {
      SizeBelow(r.q);
      ChunkSizeEnds(r.q, log, max);
    }
  }

  lemma SizeBelow(q: Parser)
    requires Valid(q) && q.state.ChunkSize?
    ensures q.contentLength < ULLONG_MAX
  {
  }

  lemma ChunkCr(q: Parser, log: seq<Event>, max: nat, n: nat)
    requires Valid(q) && q.state.ChunkDataAlmostDone?
    ensures Step(q, log, CR, max, n) == Running(q.(state := ChunkDataDone), log)
  {
    hide Valid, DoAll, AtEnd, AtUrl, AtVersion, StartLineByte;
    Unmarked(log, CR);
  }

  lemma ChunkLf(q: Parser, log: seq<Event>, max: nat, n: nat)
    requires Valid(q) && q.state.ChunkDataDone? && max > 0
    ensures Step(q, log, LF, max, n) == Running(q.(nread := 0, state := ChunkSizeStart), Emit(log, ChunkComplete))
  {
    hide Valid, Emit, DoAll, AtEnd, AtUrl, AtVersion, StartLineByte;
    Notified(log, ChunkComplete, LF);
  }

  /** A chunk: exactly as many bytes as its size says are handed out between its header and its completion. */
  lemma ChunkExact(q: Parser, log: seq<Event>, body: seq<octet>, max: nat)
    requires Valid(q) && q.state.ChunkData? && |body| == q.contentLength && max > 0
    ensures Run(q, log, body + [CR, LF], max)
         == Running(q.(contentLength := 0, nread := 0, state := ChunkSizeStart),
                    Emit(Emit(log, Data(BODY, body)), ChunkComplete))
  {
    hide Valid, Emit, Run, Step;
    BodyExact(q, log, body, max);
    RunConcat(q, log, body, [CR, LF], max);
    var q1, log1 := Run(q, log, body, max).q, Emit(log, Data(BODY, body));
    assert [CR] + [LF] == [CR, LF];
    FirstByte(q1, log1, CR, [LF], max);
    ChunkCr(q1, log1, max, 0);
    StepValid(q1, log1, CR, max, 0);
    var q2 := q1.(state := ChunkDataDone);
    OneByte(q2, log1, LF, max);
    ChunkLf(q2, log1, max, 0);
  }

  lemma Unmarked(log: seq<Event>, ch: octet)
    ensures AtEnd(DoAll(Calls(NoMark, log), [Flush(BODY)], [ch], 0), [ch]) == log
  {
    assert [Flush(BODY)][1..] == [];
  }

  // ----- methods

  /** What has been read of the method so far is the beginning of the name of the guess. */
  predicate Spelled(q: Parser, s: seq<octet>) {
    q.state.ReqMethod? && q.index == |s| && |s| <= |Name(q.verb)| && Name(q.verb)[..|s|] == s
  }

  /** A space ends the method exactly after its whole name; any other byte accepted continues the name of the guess. */
  lemma MethodsAreSpelled(q: Parser, s: seq<octet>, ch: octet)
    requires Spelled(q, s)
    ensures var o := AtReqMethod(q, ch);
            if ch == ' ' then
              if Name(q.verb) == s then o == Next(q.(state := ReqSpacesBeforeUrl, index := q.index + 1), [])
              else o.Fail?
            else o.Fail? || (o.Next? && Spelled(o.q, s + [ch]))
  {
    hide Name, NextGuess;
    assert Name(q.verb) == s <==> q.index == |Name(q.verb)|;
    Letters(q.verb);
    NoSpace(q.verb, q.index);
    if q.index < |Name(q.verb)| && ch == Name(q.verb)[q.index] {
      assert Name(q.verb)[..|s| + 1] == s + [ch];
    } else if NextGuess(q.verb, q.index, ch).Guessed? {
      GuessesAgree(q.verb, q.index, ch);
      var m := NextGuess(q.verb, q.index, ch).verb;
      assert Name(m)[..|s| + 1] == s + [ch];
    }
  }

  /** Capital letters, and the hyphen. */
  predicate NameLetters(name: string) {
    forall i :: 0 <= i < |name| ==> 'A' <= name[i] <= 'Z' || name[i] == '-'
  }

  lemma LastLetters(m: Method)
    ensures NameLetters(LastName(m))
  {
  }

  lemma LaterLetters(m: Method)
    ensures NameLetters(LaterName(m))
  {
    hide LastName;
    LastLetters(m);
  }

  lemma Letters(m: Method)
    ensures NameLetters(Name(m))
  {
    hide LaterName;
    LaterLetters(m);
  }

  lemma NoSpace(m: Method, index: nat)
    ensures NextGuess(m, index, ' ').NoGuess? && NextGuess(m, index, '\0').NoGuess?
  {
  }

  /** The next guess begins like the one before, and goes on with the character read. */
  ghost predicate Continues(m: Method, index: nat, ch: octet) {
    var g := NextGuess(m, index, ch);
    g.Guessed? ==> index <= |Name(m)| && index < |Name(g.verb)| && Name(g.verb)[..index] == Name(m)[..index]
                   && Name(g.verb)[index] == ch
  }

  lemma PostGuesses(index: nat, ch: octet)
    ensures Continues(POST, index, ch) && Continues(PUT, index, ch)
  {
  }

  lemma ConnectGuesses(index: nat, ch: octet)
    ensures Continues(CONNECT, index, ch)
  {
  }

  lemma MkcolGuesses(index: nat, ch: octet)
    ensures Continues(MKCOL, index, ch)
  {
  }

  lemma SubscribeGuesses(index: nat, ch: octet)
    ensures Continues(SUBSCRIBE, index, ch) && Continues(REPORT, index, ch)
  {
  }

  lemma PropfindGuesses(index: nat, ch: octet)
    ensures Continues(PROPFIND, index, ch) && Continues(LOCK, index, ch)
  {
  }

  lemma UnlockGuesses(index: nat, ch: octet)
    ensures Continues(UNLOCK, index, ch)
  {
  }

  lemma GuessesAgree(m: Method, index: nat, ch: octet)
    ensures Continues(m, index, ch)
  {
    hide Name;
    PostGuesses(index, ch);
    ConnectGuesses(index, ch);
    MkcolGuesses(index, ch);
    SubscribeGuesses(index, ch);
    PropfindGuesses(index, ch);
    UnlockGuesses(index, ch);
  }

  lemma FirstGuessSpelled(q: Parser, ch: octet)
    requires q.state.StartReq?
    ensures AtStartReq(q, ch).Next? && ch != CR && ch != LF ==> Spelled(AtStartReq(q, ch).q, [ch])
  {
  }
}
