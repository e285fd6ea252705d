/**
  Stretches of bytes that the HTTP parser takes in one go: field names, field values and bodies.
  Each is shown to be what a call for every one of its bytes comes to.
 */
module HttpStretch {
  import opened HttpChars
  import opened HttpMachine
  import opened HttpRun

  // ----- names and values of headers

  /** A byte of a field name or value that does not end it. */
  function Plain1(q: Parser, ch: octet): Byted {
    if q.state.HeaderField? && Token(ch) != '\0' then Ok(FieldByte(q, ch))
    else if q.state.HeaderValue? && ch != CR && ch != LF then ValueByte(q, ch)
    else Bad(INVALID_HEADER_TOKEN)
  }

  function PlainBytes(q: Parser, s: seq<octet>): Byted {
    if s == [] then Ok(q)
    else
      match PlainBytes(q, s[..|s| - 1])
      case Ok(q') => Plain1(q', s[|s| - 1])
      case Bad(errno) => Bad(errno)
  }

  predicate InName(s: State) {
    s.HeaderField? || s.HeaderValue?
  }

  lemma PlainKeeps(q: Parser, ch: octet)
    requires Valid(q) && InName(q.state) && Plain1(q, ch).Ok?
    ensures var q' := Plain1(q, ch).q; Valid(q') && q'.state == q.state && q'.nread == q.nread
  {
    hide Valid, FieldByte, ValueByte, Token, HeldAfter;
    if q.state.HeaderField? {
      FieldFine(q, ch);
    } else {
      ValueByteKeeps(q, ch);
    }
  }

  lemma MatchCounts(q: Parser, c: octet, name: string, matched: HeaderState, otherwise: HeaderState, n: nat)
    ensures Match(q.(nread := n), c, name, matched, otherwise) == Match(q, c, name, matched, otherwise).(nread := n)
  {
  }

  lemma FieldCounts(q: Parser, ch: octet, n: nat)
    ensures FieldByte(q.(nread := n), ch) == FieldByte(q, ch).(nread := n)
  {
    hide Token, Match;
    var c, further := Token(ch), q.(index := q.index + 1);
    assert q.(nread := n).(index := q.index + 1) == further.(nread := n);
    match q.header
    case MatchingConnection => MatchCounts(further, c, "connection", Connection, General, n);
    case MatchingProxyConnection => MatchCounts(further, c, "proxy-connection", Connection, General, n);
    case MatchingContentLength => MatchCounts(further, c, "content-length", ContentLength, General, n);
    case MatchingTransferEncoding => MatchCounts(further, c, "transfer-encoding", TransferEncoding, General, n);
    case MatchingUpgrade => MatchCounts(further, c, "upgrade", Upgrade, General, n);
    case _ =>
  }

  function Recounted(b: Byted, n: nat): Byted {
    if b.Ok? then Ok(b.q.(nread := n)) else b
  }

  lemma LengthCounts(q: Parser, ch: octet, n: nat)
    ensures LengthByte(q.(nread := n), ch) == Recounted(LengthByte(q, ch), n)
    ensures ConnectionByte(q.(nread := n), ch) == ConnectionByte(q, ch).(nread := n)
  {
  }

  lemma ConnectionValueCounts(q: Parser, ch: octet, n: nat)
    requires q.header.MatchingConnectionTokenStart? || q.header.MatchingConnectionKeepAlive?
          || q.header.MatchingConnectionClose? || q.header.MatchingConnectionUpgrade? || q.header.MatchingConnectionToken?
    ensures ValueByte(q.(nread := n), ch) == Recounted(ValueByte(q, ch), n)
  {
    hide Token, Lower, IsHeaderChar, Match;
    var c, further := Lower(ch), q.(index := q.index + 1);
    assert q.(nread := n).(index := q.index + 1) == further.(nread := n);
    match q.header
    case MatchingConnectionKeepAlive =>
      MatchCounts(further, c, "keep-alive", ConnectionKeepAlive, MatchingConnectionToken, n);
    case MatchingConnectionClose => MatchCounts(further, c, "close", ConnectionClose, MatchingConnectionToken, n);
    case MatchingConnectionUpgrade => MatchCounts(further, c, "upgrade", ConnectionUpgrade, MatchingConnectionToken, n);
    case _ =>
  }

  lemma ValueCounts(q: Parser, ch: octet, n: nat)
    ensures ValueByte(q.(nread := n), ch) == Recounted(ValueByte(q, ch), n)
  {
    hide Token, Lower, IsHeaderChar, Match, LengthByte, ConnectionByte;
    var c, further := Lower(ch), q.(index := q.index + 1);
    assert q.(nread := n).(index := q.index + 1) == further.(nread := n);
    LengthCounts(q, ch, n);
    match q.header
    case MatchingConnectionTokenStart => ConnectionValueCounts(q, ch, n);
    case MatchingConnectionKeepAlive => ConnectionValueCounts(q, ch, n);
    case MatchingConnectionClose => ConnectionValueCounts(q, ch, n);
    case MatchingConnectionUpgrade => ConnectionValueCounts(q, ch, n);
    case MatchingConnectionToken => ConnectionValueCounts(q, ch, n);
    case MatchingTransferEncodingChunked =>
      MatchCounts(further, c, "chunked", TransferEncodingChunked, MatchingTransferEncodingToken, n);
    case _ =>
  }

  /** Counting has no part in it. */
  lemma PlainCounts(q: Parser, ch: octet, n: nat)
    ensures Plain1(q.(nread := n), ch) == Recounted(Plain1(q, ch), n)
  {
    hide FieldByte, ValueByte, Token;
    FieldCounts(q, ch, n);
    ValueCounts(q, ch, n);
  }

  lemma PlainIsByte(q: Parser, ch: octet)
    requires Valid(q) && InName(q.state) && Plain1(q, ch).Ok?
    ensures Byte(q, ch) == Next(Plain1(q, ch).q, [])
  {
    hide FieldByte, ValueByte, Token, Valid;
  }

  lemma {:induction false} PlainBytesKeep(q: Parser, s: seq<octet>)
    requires Valid(q) && InName(q.state) && PlainBytes(q, s).Ok?
    ensures var q' := PlainBytes(q, s).q; Valid(q') && q'.state == q.state && q'.nread == q.nread
  {
    hide Valid, Plain1;
    if s != [] {
      PlainBytesKeep(q, s[..|s| - 1]);
      PlainKeeps(PlainBytes(q, s[..|s| - 1]).q, s[|s| - 1]);
    }
  }

  lemma {:induction false} PlainBytesCount(q: Parser, s: seq<octet>, n: nat)
    ensures PlainBytes(q.(nread := n), s) == Recounted(PlainBytes(q, s), n)
  {
    hide Plain1;
    if s != [] {
      PlainBytesCount(q, s[..|s| - 1], n);
      if PlainBytes(q, s[..|s| - 1]).Ok? {
        PlainCounts(PlainBytes(q, s[..|s| - 1]).q, s[|s| - 1], n);
      }
    }
  }

  function PartOf(q: Parser): Part {
    if q.state.HeaderField? then FIELD else VALUE
  }

  lemma PlainStep(q: Parser, log: seq<Event>, ch: octet, max: nat, n: nat)
    requires Valid(q) && InName(q.state) && Plain1(q, ch).Ok? && q.nread + 1 <= max
    ensures Step(q, log, ch, max, n) == Running(Plain1(q, ch).q.(nread := q.nread + 1), Emit(log, Data(PartOf(q), [ch])))
  {
    hide Valid, Byte, Plain1, Emit;
    CountedValid(q);
    PlainCounts(q, ch, q.nread + 1);
    PlainIsByte(Counted(q), ch);
    assert [ch][0..] == [ch];
  }

  /** Plain bytes that can be counted: each changes the fields, and all of them are handed out. */
  lemma {:induction false} PlainRun(q: Parser, log: seq<Event>, s: seq<octet>, max: nat)
    requires Valid(q) && InName(q.state) && PlainBytes(q, s).Ok? && q.nread + |s| <= max
    ensures Run(q, log, s, max) == Running(PlainBytes(q, s).q.(nread := q.nread + |s|), With(log, PartOf(q), s))
  {
    hide Valid, Step, Plain1, Emit;
    if s != [] {
      var last := |s| - 1;
      PlainRun(q, log, s[..last], max);
      PlainBytesKeep(q, s[..last]);
      var q' := PlainBytes(q, s[..last]).q.(nread := q.nread + last);
      PlainCounts(PlainBytes(q, s[..last]).q, s[last], q.nread + last);
      assert Run(q, log, s[..last], max).q == q';
      PlainStep(q', With(log, PartOf(q), s[..last]), s[last], max, last);
      PlainCounts(PlainBytes(q, s[..last]).q, s[last], q.nread + |s|);
      PlainCounts(q', s[last], q.nread + |s|);
      EmitMore(log, PartOf(q), s[..last], [s[last]]);
      assert s[..last] + [s[last]] == s;
    }
  }

  lemma CountFails(q: Parser, log: seq<Event>, ch: octet, max: nat, n: nat)
    requires Valid(q) && InName(q.state) && q.nread + 1 > max
    ensures Step(q, log, ch, max, n) == Failed(HEADER_OVERFLOW, n)
  {
    hide Valid, Byte;
  }

  /** One byte more than can be counted. */
  lemma {:induction false} PlainOverflow(q: Parser, log: seq<Event>, s: seq<octet>, ch: octet, max: nat)
    requires Valid(q) && InName(q.state) && PlainBytes(q, s).Ok? && q.nread + |s| + 1 > max
    ensures var r := Run(q, log, s + [ch], max); r.Failed? && r.errno == HEADER_OVERFLOW
  {
    hide Valid, Step, Plain1, Emit;
    assert (s + [ch])[..|s|] == s;
    if q.nread + |s| <= max {
      PlainRun(q, log, s, max);
      PlainBytesKeep(q, s);
      CountFails(Run(q, log, s, max).q, Run(q, log, s, max).log, ch, max, |s|);
    } else if s == [] {
      CountFails(q, log, ch, max, 0);
    } else {
      var last := |s| - 1;
      PlainOverflow(q, log, s[..last], s[last], max);
      assert s[..last] + [s[last]] == s;
    }
  }

  // ----- bodies

  predicate Counting(s: State) {
    s.BodyIdentity? || s.ChunkData?
  }

  lemma BodyMarked(log: seq<Event>, ch: octet)
    ensures AtEnd(DoAll(Calls(NoMark, log), [Mark(BODY)], [ch], 0), [ch]) == Emit(log, Data(BODY, [ch]))
  {
    hide Emit;
    assert [ch][0..] == [ch];
    assert [Mark(BODY)][1..] == [];
  }

  lemma BodyFlushed(log: seq<Event>, ch: octet)
    ensures AtEnd(DoAll(Calls(NoMark, log), [Mark(BODY), FlushThrough(BODY), Notify(MessageComplete)], [ch], 0), [ch])
         == Emit(Emit(log, Data(BODY, [ch])), MessageComplete)
  {
    hide Emit;
    var acts := [Mark(BODY), FlushThrough(BODY), Notify(MessageComplete)];
    assert [ch][0..1] == [ch];
    assert acts[1..] == [FlushThrough(BODY), Notify(MessageComplete)];
    assert acts[1..][1..] == [Notify(MessageComplete)];
    assert acts[1..][1..][1..] == [];
  }

  lemma BodyByte(q: Parser, ch: octet)
    requires Valid(q) && Counting(q.state)
    ensures Counted(q) == q && EntryMark(q.state) == NoMark && !ParsingHeader(q.state)
    ensures var left := q.(contentLength := q.contentLength - 1);
            Byte(q, ch)
            == if left.contentLength > 0 then Next(left, [Mark(BODY)])
               else if q.state.ChunkData? then Next(left.(state := ChunkDataAlmostDone), [Mark(BODY)])
               else
                 var acts := [Mark(BODY), FlushThrough(BODY), Notify(MessageComplete)];
                 if q.upgrade then Exit(NewMessage(left), acts) else Next(NewMessage(left), acts)
  {
    hide Valid, NewMessage, AtUrl, AtVersion, StartLineByte;
    LeftOver(q);
    assert [Mark(BODY)] + [] == [Mark(BODY)];
    assert [Mark(BODY)] + ([FlushThrough(BODY)] + [Notify(MessageComplete)])
        == [Mark(BODY), FlushThrough(BODY), Notify(MessageComplete)];
  }

  lemma LeftOver(q: Parser)
    requires Valid(q) && Counting(q.state)
    ensures q.contentLength > 0
    ensures var left := q.(contentLength := q.contentLength - 1);
            NewMessage(left.(state := MessageDone)) == NewMessage(left)
  {
  }

  lemma BodyStep(q: Parser, log: seq<Event>, ch: octet, max: nat, n: nat)
    requires Valid(q) && Counting(q.state)
    ensures var left := q.(contentLength := q.contentLength - 1);
            var log' := Emit(log, Data(BODY, [ch]));
            Step(q, log, ch, max, n)
            == if left.contentLength > 0 then Running(left, log')
               else if q.state.ChunkData? then Running(left.(state := ChunkDataAlmostDone), log')
               else if q.upgrade then Exited(NewMessage(left), Emit(log', MessageComplete), n + 1)
               else Running(NewMessage(left), Emit(log', MessageComplete))
  {
    hide Emit, NewMessage, Byte, DoAll, AtEnd, Counted, EntryMark, ParsingHeader;
    BodyByte(q, ch);
    BodyMarked(log, ch);
    BodyFlushed(log, ch);
  }

  /** A part of a body, or of a chunk: all of it is handed out, and the length left is less by its size. */
  lemma {:induction false} BodyRun(q: Parser, log: seq<Event>, s: seq<octet>, max: nat)
    requires Valid(q) && Counting(q.state) && |s| < q.contentLength
    ensures Run(q, log, s, max) == Running(q.(contentLength := q.contentLength - |s|), With(log, BODY, s))
  {
    hide Step, Emit;
    if s != [] {
      var last := |s| - 1;
      BodyRun(q, log, s[..last], max);
      BodyStep(q.(contentLength := q.contentLength - last), With(log, BODY, s[..last]), s[last], max, last);
      EmitMore(log, BODY, s[..last], [s[last]]);
      assert s[..last] + [s[last]] == s;
    }
  }

  /** What comes of the last byte of a body or chunk. */
  function BodyEnd(q: Parser, log: seq<Event>, s: seq<octet>): Result
    requires |s| == q.contentLength
  {
    var left, log' := q.(contentLength := 0), Emit(log, Data(BODY, s));
    if q.state.ChunkData? then Running(left.(state := ChunkDataAlmostDone), log')
    else if q.upgrade then Exited(NewMessage(left), Emit(log', MessageComplete), |s|)
    else Running(NewMessage(left), Emit(log', MessageComplete))
  }

  /** Exactly the announced number of bytes is handed out before the message, or the chunk, ends. */
  lemma BodyExact(q: Parser, log: seq<Event>, s: seq<octet>, max: nat)
    requires Valid(q) && Counting(q.state) && |s| == q.contentLength
    ensures Run(q, log, s, max) == BodyEnd(q, log, s)
  {
    hide Step, Emit, NewMessage;
    var last := |s| - 1;
    BodyRun(q, log, s[..last], max);
    BodyStep(q.(contentLength := 1), With(log, BODY, s[..last]), s[last], max, last);
    EmitMore(log, BODY, s[..last], [s[last]]);
    assert s[..last] + [s[last]] == s;
    assert q.(contentLength := 1).(contentLength := 0) == q.(contentLength := 0);
  }

  lemma EofStep(q: Parser, log: seq<Event>, ch: octet, max: nat, n: nat)
    requires Valid(q) && q.state.BodyIdentityEof?
    ensures Step(q, log, ch, max, n) == Running(q, Emit(log, Data(BODY, [ch])))
  {
    hide Valid, Emit, DoAll, AtEnd, AtUrl, AtVersion, StartLineByte;
    BodyMarked(log, ch);
  }

  /** A body that lasts until the connection is closed. */
  lemma {:induction false} EofRun(q: Parser, log: seq<Event>, s: seq<octet>, max: nat)
    requires Valid(q) && q.state.BodyIdentityEof?
    ensures Run(q, log, s, max) == Running(q, With(log, BODY, s))
  {
    hide Valid, Step, Emit;
    if s != [] {
      var last := |s| - 1;
      EofRun(q, log, s[..last], max);
      EofStep(q, With(log, BODY, s[..last]), s[last], max, last);
      EmitMore(log, BODY, s[..last], [s[last]]);
      assert s[..last] + [s[last]] == s;
    }
  }

  // ----- stretches within a call

  lemma {:induction false} PlainPrefix(q: Parser, s: seq<octet>, k: nat)
    requires k <= |s| && PlainBytes(q, s).Ok?
    ensures PlainBytes(q, s[..k]).Ok?
    decreases |s|
  {
    hide Plain1;
    if k == |s| {
      assert s[..k] == s;
    } else {
      var last := |s| - 1;
      PlainPrefix(q, s[..last], k);
      assert s[..last][..k] == s[..k];
    }
  }

  lemma WithWith(log: seq<Event>, part: Part, a: seq<octet>, b: seq<octet>)
    ensures With(With(log, part, a), part, b) == With(log, part, a + b)
  {
    if b == [] {
      assert a + b == a;
    } else {
      EmitMore(log, part, a, b);
    }
  }

  /** With the mark unmoved, more bytes are more data. */
  lemma ReceivedMore(c: Calls, data: seq<octet>, p: nat, e: nat)
    requires c.mark.At? && c.mark.pos <= p <= e <= |data|
    ensures With(Received(c, data, p), c.mark.part, data[p..e]) == Received(c, data, e)
  {
    WithWith(c.log, c.mark.part, data[c.mark.pos..p], data[p..e]);
    assert data[c.mark.pos..p] + data[p..e] == data[c.mark.pos..e];
  }

  /** A stretch of a name or value: it agrees if it can be counted, and otherwise the run fails. */
  lemma PlainAgrees(q0: Parser, log0: seq<Event>, q: Parser, c: Calls, data: seq<octet>, p: nat, e: nat, max: nat)
    requires Valid(q0) && p <= e <= |data| && Agrees(q, c, Run(q0, log0, data[..p], max), data, p)
    requires InName(q.state) && PlainBytes(q, data[p..e]).Ok?
    ensures q.nread + (e - p) <= max ==>
              Agrees(PlainBytes(q, data[p..e]).q.(nread := q.nread + (e - p)), c, Run(q0, log0, data[..e], max), data, e)
    ensures q.nread + (e - p) > max && e > p ==> Overflows(Run(q0, log0, data, max))
    ensures q.nread + (e - p) + 1 > max && e < |data| ==> Overflows(Run(q0, log0, data, max))
  {
    hide Valid, Run, PlainBytes, Emit;
    var r := Run(q0, log0, data[..p], max);
    if q.nread + (e - p) <= max {
      RunOn(q0, log0, data, p, e, max);
      PlainRun(q, r.log, data[p..e], max);
      PlainBytesKeep(q, data[p..e]);
      MarkMore(q, c, data, p, e);
      ValidRecounted(PlainBytes(q, data[p..e]).q, q.nread + (e - p));
    } else if e > p {
      PlainPrefix(q, data[p..e], e - 1 - p);
      assert data[p..e][..e - 1 - p] == data[p..e - 1];
      PlainFails(q0, log0, q, data, p, e - 1, max);
    }
    if q.nread + (e - p) + 1 > max && e < |data| {
      PlainFails(q0, log0, q, data, p, e, max);
    }
  }

  predicate Overflows(r: Result) {
    r.Failed? && r.errno == HEADER_OVERFLOW
  }

  lemma ValidRecounted(q: Parser, n: nat)
    requires Valid(q)
    ensures Valid(q.(nread := n))
  {
  }

  lemma MarkMore(q: Parser, c: Calls, data: seq<octet>, p: nat, e: nat)
    requires InName(q.state) && p <= e <= |data| && MarkOk(q.state, c.mark, p)
    ensures MarkedBy(c, p) && MarkedBy(c, e) && MarkOk(q.state, c.mark, e)
    ensures With(Received(c, data, p), PartOf(q), data[p..e]) == Received(c, data, e)
  {
    ReceivedMore(c, data, p, e);
  }

  lemma PlainFails(q0: Parser, log0: seq<Event>, q: Parser, data: seq<octet>, p: nat, e: nat, max: nat)
    requires Valid(q0) && p <= e < |data| && Run(q0, log0, data[..p], max).Running?
    requires Run(q0, log0, data[..p], max).q == q && InName(q.state)
    requires PlainBytes(q, data[p..e]).Ok? && q.nread + (e - p) + 1 > max
    ensures Overflows(Run(q0, log0, data, max))
  {
    hide Valid, Run, PlainBytes;
    PlainOverflow(q, Run(q0, log0, data[..p], max).log, data[p..e], data[e], max);
    assert data[p..e] + [data[e]] == data[p..e + 1];
    RunOn(q0, log0, data, p, e + 1, max);
    RunEnded(q0, log0, data, e + 1, max);
  }

  /** A stretch of a body, with more to come. */
  lemma BodyGoesOn(q0: Parser, log0: seq<Event>, q: Parser, c: Calls, data: seq<octet>, p: nat, e: nat, max: nat)
    requires Valid(q0) && p < e <= |data| && Agrees(q, c, Run(q0, log0, data[..p], max), data, p)
    requires Counting(q.state) && e - p < q.contentLength
    ensures c.mark.At? ==> c.mark.part == BODY && c.mark.pos < p
    ensures var c' := if c.mark.At? then c else c.(mark := At(BODY, p));
            Agrees(q.(contentLength := q.contentLength - (e - p)), c', Run(q0, log0, data[..e], max), data, e)
  {
    hide Valid, Run, Emit;
    var r := Run(q0, log0, data[..p], max);
    var c' := if c.mark.At? then c else c.(mark := At(BODY, p));
    assert data[p..p] == [];
    assert Received(c', data, p) == r.log;
    RunOn(q0, log0, data, p, e, max);
    ReceivedMore(c', data, p, e);
    BodyRun(q, r.log, data[p..e], max);
    BodyValid(q, e - p);
  }

  /** Only the body itself can be marked while its bytes are counted. */
  lemma BodyMark(q: Parser, c: Calls, r: Result, data: seq<octet>, p: nat)
    requires Agrees(q, c, r, data, p) && Counting(q.state)
    ensures c.mark.At? ==> c.mark.part == BODY && c.mark.pos < p
    ensures MarkedBy(c, p) && r == Running(q, Received(c, data, p))
    ensures Received(if c.mark.At? then c else c.(mark := At(BODY, p)), data, p) == Received(c, data, p)
  {
    hide Valid;
  }

  lemma RestAgrees(q: Parser, log: seq<Event>, data: seq<octet>, p: nat)
    requires Valid(q) && EntryPart(q.state).NoEntry? && p <= |data|
    ensures Agrees(q, Calls(NoMark, log), Running(q, log), data, p)
  {
  }

  lemma ChunkAgrees(q: Parser, c: Calls, data: seq<octet>, p: nat)
    requires Valid(q) && q.state.ChunkDataAlmostDone? && p <= |data| && c.mark.At? && c.mark.part == BODY && c.mark.pos < p
    ensures Agrees(q, c, Running(q, With(c.log, BODY, data[c.mark.pos..p])), data, p)
  {
    hide Valid;
  }

  /** The last stretch of a body. */
  lemma BodyEnds(q0: Parser, log0: seq<Event>, q: Parser, c: Calls, data: seq<octet>, p: nat, e: nat, max: nat)
    requires Valid(q0) && p < e <= |data| && Agrees(q, c, Run(q0, log0, data[..p], max), data, p)
    requires Counting(q.state) && e - p == q.contentLength
    ensures c.mark.At? ==> c.mark.part == BODY && c.mark.pos < p
    ensures var c' := if c.mark.At? then c else c.(mark := At(BODY, p));
            if q.state.ChunkData? then
              Agrees(q.(contentLength := 0, state := ChunkDataAlmostDone), c', Run(q0, log0, data[..e], max), data, e)
            else
              var q', log' := NewMessage(q.(contentLength := 0)), Emit(Emit(c'.log, Data(BODY, data[c'.mark.pos..e])), MessageComplete);
              Valid(q') && Rested(q') &&
              if q.upgrade then Run(q0, log0, data, max) == Exited(q', log', e)
              else Agrees(q', Calls(NoMark, log'), Run(q0, log0, data[..e], max), data, e)
  {
    hide Valid, Run, Emit, NewMessage, Agrees, MarkOk, Rested, EntryPart;
    BodyMark(q, c, Run(q0, log0, data[..p], max), data, p);
    var c' := if c.mark.At? then c else c.(mark := At(BODY, p));
    var log, part := Received(c', data, p), data[c'.mark.pos..e];
    RunOn(q0, log0, data, p, e, max);
    AgreesValid(q, c, Run(q0, log0, data[..p], max), data, p);
    BodyExact(q, log, data[p..e], max);
    BodyEndValid(q);
    EmitMore(c'.log, BODY, data[c'.mark.pos..p], data[p..e]);
    assert data[c'.mark.pos..p] + data[p..e] == part;
    if q.state.ChunkData? {
      ChunkAgrees(q.(contentLength := 0, state := ChunkDataAlmostDone), c', data, e);
    } else if q.upgrade {
      RunEnded(q0, log0, data, e, max);
    } else {
      RestAgrees(NewMessage(q.(contentLength := 0)), Emit(Emit(c'.log, Data(BODY, part)), MessageComplete), data, e);
    }
  }

  lemma BodyValid(q: Parser, k: nat)
    requires Valid(q) && Counting(q.state) && k < q.contentLength
    ensures Valid(q.(contentLength := q.contentLength - k))
  {
  }

  lemma BodyEndValid(q: Parser)
    requires Valid(q) && Counting(q.state)
    ensures var q' := NewMessage(q.(contentLength := 0)); Valid(q') && Rested(q') && EntryPart(q'.state).NoEntry?
    ensures q.state.ChunkData? ==> Valid(q.(contentLength := 0, state := ChunkDataAlmostDone))
  {
  }

  lemma EofAgrees(q0: Parser, log0: seq<Event>, q: Parser, c: Calls, data: seq<octet>, p: nat, max: nat)
    requires Valid(q0) && p < |data| && Agrees(q, c, Run(q0, log0, data[..p], max), data, p) && q.state.BodyIdentityEof?
    ensures var c' := if c.mark.At? then c else c.(mark := At(BODY, p));
            Agrees(q, c', Run(q0, log0, data[..|data|], max), data, |data|)
  {
    hide Valid, Run, Emit;
    var r := Run(q0, log0, data[..p], max);
    var c' := if c.mark.At? then c else c.(mark := At(BODY, p));
    assert data[p..p] == [];
    assert Received(c', data, p) == r.log;
    RunOn(q0, log0, data, p, |data|, max);
    ReceivedMore(c', data, p, |data|);
    EofRun(q, r.log, data[p..|data|], max);
  }
}
