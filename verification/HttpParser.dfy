/**
  The HTTP parser proper: one call takes any number of bytes, with fast inner loops for names, values and bodies.
 */
module HttpParser {
  import opened Options
  import opened HttpChars
  import opened HttpMachine
  import opened HttpRun
  import opened HttpStretch

  lemma PlainMore(q: Parser, data: seq<octet>, i: nat, p: nat)
    requires i <= p < |data| && PlainBytes(q, data[i..p]).Ok?
    ensures PlainBytes(q, data[i..p + 1]) == Plain1(PlainBytes(q, data[i..p]).q, data[p])
  {
    hide Plain1;
    assert data[i..p + 1][..p - i] == data[i..p];
  }

  function Least(a: nat, b: nat): nat {
    if a < b then a else b
  }

  /** The token characters of a field name. */
  method ReadField(data: seq<octet>, start: nat, q: Parser, max: nat) returns (q': Parser, p: nat)
    requires start < |data| && q.state.HeaderField? && Valid(q)
    ensures start <= p <= |data| && PlainBytes(q, data[start..p]) == Ok(q')
    ensures p < |data| ==> Token(data[p]) == '\0'
  {
    hide Valid, FieldByte, Token, PlainBytes;
    q', p := q, start;
    NoPlain(q, data, start);
    while p < |data| && Token(data[p]) != '\0'
      invariant start <= p <= |data| && PlainBytes(q, data[start..p]) == Ok(q')
    {
      PlainBytesKeep(q, data[start..p]);
      if q'.header.General? {
        var pe := p + Least(|data| - p, max);
        while p + 1 < pe && Token(data[p + 1]) != '\0'
          invariant start <= p < |data| && (p < pe || pe == p) && PlainBytes(q, data[start..p]) == Ok(q')
          invariant Token(data[p]) != '\0'
        {
          GeneralByte(q', data[p]);
          PlainMore(q, data, start, p);
          p := p + 1;
        }
        GeneralByte(q', data[p]);
      } else {
        q' := FieldByte(q', data[p]);
      }
      PlainMore(q, data, start, p);
      p := p + 1;
    }
  }

  lemma NoPlain(q: Parser, data: seq<octet>, i: nat)
    requires i <= |data|
    ensures PlainBytes(q, data[i..i]) == Ok(q)
  {
  }

  lemma GeneralByte(q: Parser, ch: octet)
    requires q.header.General?
    ensures FieldByte(q, ch) == q
    ensures ValueByte(q, ch) == if IsHeaderChar(ch) then Ok(q) else Bad(INVALID_HEADER_TOKEN)
  {
  }

  /**
    The characters of a field value up to a line end. The loop over general values looks at no more bytes than a
    header may have, and then steps over one more: `skipped` is that byte, if any.
   */
  method ReadValue(data: seq<octet>, start: nat, q: Parser, max: nat) returns (r: Byted, p: nat, ghost skipped: Option<nat>)
    requires start < |data| && q.state.HeaderValue? && Valid(q) && max > 0
    ensures start <= p <= |data|
    ensures skipped.None? ==>
      && PlainBytes(q, data[start..p]).Ok?
      && (r.Ok? ==> r == PlainBytes(q, data[start..p]) && (p == |data| || data[p] == CR || data[p] == LF))
      && (r.Bad? ==> p < |data| && data[p] != CR && data[p] != LF && Plain1(PlainBytes(q, data[start..p]).q, data[p]) == r)
    ensures skipped.Some? ==> Skipped(q, data, start, p, max, skipped.value)
  {
    hide Valid, ValueByte, IsHeaderChar, PlainBytes;
    r, p, skipped := Ok(q), start, None;
    NoPlain(q, data, start);
    while p < |data| && data[p] != CR && data[p] != LF
      invariant start <= p <= |data| && r.Ok? && r.q.state.HeaderValue?
      invariant skipped.None? ==> PlainBytes(q, data[start..p]) == r
      invariant skipped.Some? ==> Skipped(q, data, start, p, max, skipped.value)
      decreases |data| - p
    {
      ghost var at := p;
      if r.q.header.General? {
        var pe := p + Least(|data| - p, max);
        while p != pe && data[p] != CR && data[p] != LF
          invariant at <= p <= pe <= |data| && (p == at ==> at < pe && data[at] != CR && data[at] != LF)
          invariant skipped.None? ==> PlainBytes(q, data[start..p]) == r
          decreases pe - p
        {
          GeneralByte(r.q, data[p]);
          if !IsHeaderChar(data[p]) {
            r := Bad(INVALID_HEADER_TOKEN);
            return;
          }
          if skipped.None? {
            PlainMore(q, data, start, p);
          }
          p := p + 1;
        }
        if p == pe && p < |data| {
          if skipped.None? {
            skipped := Some(p);
          }
          p := p + 1;
        }
      } else {
        if skipped.None? {
          PlainMore(q, data, start, p);
        }
        var next := ValueByte(r.q, data[p]);
        if next.Bad? {
          r := next;
          return;
        }
        ValueStays(r.q, data[p]);
        r := next;
        p := p + 1;
      }
    }
  }

  /** More bytes than a header may have were plain before byte `e`, which was stepped over. */
  ghost predicate Skipped(q: Parser, data: seq<octet>, start: nat, p: nat, max: nat, e: nat) {
    start <= e < p <= |data| && e - start >= max && PlainBytes(q, data[start..e]).Ok?
  }

  lemma ValueStays(q: Parser, ch: octet)
    requires ValueByte(q, ch).Ok?
    ensures ValueByte(q, ch).q.state == q.state
  {
    hide Token, Lower, IsHeaderChar;
  }

  // ----- a call

  /** What a call reports of a run that has failed: the same error at the same byte, unless headers were too long. */
  ghost predicate FailsAs(r: Result, errno: Errno, n: nat) {
    r.Failed? && (r.errno == HEADER_OVERFLOW || r == Failed(errno, n))
  }

  lemma StepFails(q0: Parser, log0: seq<Event>, q: Parser, c: Calls, data: seq<octet>, p: nat, errno: Errno, max: nat)
    requires Valid(q0) && p < |data| && Agrees(q, c, Run(q0, log0, data[..p], max), data, p)
    requires Step(q, Run(q0, log0, data[..p], max).log, data[p], max, p) == Failed(errno, p)
    ensures Run(q0, log0, data, max) == Failed(errno, p)
  {
    hide Valid, Run, Step;
    RunOne(q0, log0, data, p, max);
    RunEnded(q0, log0, data, p + 1, max);
  }

  lemma BadStep(q: Parser, log: seq<Event>, ch: octet, n: nat, errno: Errno, max: nat)
    requires Valid(q) && q.state.HeaderValue? && ch != CR && ch != LF && Plain1(q, ch) == Bad(errno) && q.nread + 1 <= max
    ensures Step(q, log, ch, max, n) == Failed(errno, n)
  {
    hide Valid, ValueByte, FieldByte, DoAll, AtEnd, AtUrl, AtVersion, StartLineByte;
    ValidRecounted(q, q.nread + 1);
    PlainCounts(q, ch, q.nread + 1);
  }

  /** A byte that a value must not have. */
  lemma BadFails(q0: Parser, log0: seq<Event>, q: Parser, c: Calls, data: seq<octet>, p: nat, errno: Errno, max: nat)
    requires Valid(q0) && p < |data| && Agrees(q, c, Run(q0, log0, data[..p], max), data, p)
    requires q.state.HeaderValue? && data[p] != CR && data[p] != LF && Plain1(q, data[p]) == Bad(errno)
    requires q.nread + 1 <= max
    ensures Run(q0, log0, data, max) == Failed(errno, p)
  {
    hide Valid, Run, Agrees, Step, Plain1;
    AgreesValid(q, c, Run(q0, log0, data[..p], max), data, p);
    BadStep(q, Run(q0, log0, data[..p], max).log, data[p], p, errno, max);
    StepFails(q0, log0, q, c, data, p, errno, max);
  }

  /** A name or value, and the count of its bytes. */
  method ReadHeader(data: seq<octet>, start: nat, q: Parser, ghost c: Calls, max: nat,
                    ghost q0: Parser, ghost log0: seq<Event>, ghost g: Parser)
    returns (q': Parser, p: nat, bad: Option<Errno>)
    requires Valid(q0) && start < |data| && Agrees(g, c, Run(q0, log0, data[..start], max), data, start)
    requires InName(g.state) && q == g.(nread := g.nread + 1) && q.nread <= max
    ensures start <= p <= |data|
    ensures bad.None? && p == |data| ==> Agrees(q', c, Run(q0, log0, data[..p], max), data, p)
    ensures bad.None? && p < |data| ==>
      0 < q'.nread <= max && Agrees(q'.(nread := q'.nread - 1), c, Run(q0, log0, data[..p], max), data, p)
    ensures bad.None? ==> q'.state == g.state
    ensures bad.Some? ==> FailsAs(Run(q0, log0, data, max), bad.value, p)
  {
    hide Valid, Agrees, Run, PlainBytes, Plain1, Byte;
    AgreesValid(g, c, Run(q0, log0, data[..start], max), data, start);
    ValidRecounted(g, q.nread);
    var r: Byted;
    ghost var skipped: Option<nat> := None;
    if q.state.HeaderField? {
      q', p := ReadField(data, start, q, max);
      r := Ok(q');
    } else {
      r, p, skipped := ReadValue(data, start, q, max);
    }
    ghost var e := if skipped.Some? then skipped.value else p;
    PlainBytesCount(g, data[start..e], q.nread);
    PlainAgrees(q0, log0, g, c, data, start, e, max);
    if r.Bad? {
      if skipped.None? && g.nread + (p - start) + 1 <= max {
        ghost var h := PlainBytes(g, data[start..p]).q;
        PlainBytesKeep(g, data[start..p]);
        PlainCounts(h, data[p], q.nread);
        PlainCounts(h, data[p], g.nread + (p - start));
        BadFails(q0, log0, h.(nread := g.nread + (p - start)), c, data, p, r.errno, max);
      }
      return q, p, Some(r.errno);
    }
    PlainBytesKeep(q, data[start..e]);
    q' := r.q.(nread := q.nread + (if p == |data| then p - 1 - start else p - start));
    bad := if q'.nread > max then Some(HEADER_OVERFLOW) else None;
  }

  /** As much of a body or chunk as there is. */
  method ReadBody(data: seq<octet>, start: nat, q: Parser, c: Calls, max: nat, ghost q0: Parser, ghost log0: seq<Event>)
    returns (q': Parser, c': Calls, p: nat, exited: bool)
    requires Valid(q0) && start < |data| && Agrees(q, c, Run(q0, log0, data[..start], max), data, start)
    requires Counting(q.state)
    ensures start < p <= |data|
    ensures !exited ==> Agrees(q', c', Run(q0, log0, data[..p], max), data, p) && Rested(q')
    ensures exited ==> Run(q0, log0, data, max) == Exited(q', c'.log, p) && Valid(q') && Rested(q')
  {
    hide Valid, Agrees, Run, Emit, NewMessage;
    AgreesValid(q, c, Run(q0, log0, data[..start], max), data, start);
    LengthKnown(q);
    assert q.contentLength != 0 && q.contentLength != ULLONG_MAX;
    var toRead := Least(q.contentLength, |data| - start);
    if toRead < q.contentLength {
      BodyGoesOn(q0, log0, q, c, data, start, start + toRead, max);
    } else {
      BodyEnds(q0, log0, q, c, data, start, start + toRead, max);
    }
    c' := if c.mark.NoMark? then c.(mark := At(BODY, start)) else c;
    q', p, exited := q.(contentLength := q.contentLength - toRead), start + toRead, false;
    if q'.contentLength == 0 {
      if q.state.ChunkData? {
        q' := q'.(state := ChunkDataAlmostDone);
      } else {
        c' := Calls(NoMark, Emit(Emit(c'.log, Data(BODY, data[c'.mark.pos..p])), MessageComplete));
        q' := NewMessage(q');
        exited := q'.upgrade;
      }
    }
  }

  lemma LengthKnown(q: Parser)
    requires Valid(q) && Counting(q.state)
    ensures 0 < q.contentLength < ULLONG_MAX
  {
  }

  lemma OverflowNow(q0: Parser, log0: seq<Event>, q: Parser, c: Calls, data: seq<octet>, p: nat, max: nat)
    requires Valid(q0) && p < |data| && Agrees(q, c, Run(q0, log0, data[..p], max), data, p)
    requires ParsingHeader(q.state) && q.nread + 1 > max
    ensures Run(q0, log0, data, max) == Failed(HEADER_OVERFLOW, p)
  {
    hide Valid, Run, Byte;
    StepFails(q0, log0, q, c, data, p, HEADER_OVERFLOW, max);
  }

  /** The byte at `p`, when it has been counted. */
  lemma ByteNow(q0: Parser, log0: seq<Event>, q: Parser, c: Calls, data: seq<octet>, p: nat, max: nat)
    requires Valid(q0) && p < |data| && Agrees(q, c, Run(q0, log0, data[..p], max), data, p)
    requires !(ParsingHeader(q.state) && q.nread + 1 > max)
    ensures Valid(Counted(q)) && MarkedBy(c, p)
    ensures ByteDone(Byte(Counted(q), data[p]), q0, log0, c, data, p, max)
  {
    hide Valid, Run, Byte, Step, ParsingHeader, DoAll;
    AgreesValid(q, c, Run(q0, log0, data[..p], max), data, p);
    CountedValid(q);
    ByteAgrees(q, c, Run(q0, log0, data[..p], max), data, p, max);
    RunOne(q0, log0, data, p, max);
    StepValid(q, Run(q0, log0, data[..p], max).log, data[p], max, p);
    if !Run(q0, log0, data[..p + 1], max).Running? {
      RunEnded(q0, log0, data, p + 1, max);
    }
  }

  ghost predicate ByteDone(o: Outcome, q0: Parser, log0: seq<Event>, c: Calls, data: seq<octet>, p: nat, max: nat)
    requires Valid(q0) && p < |data| && MarkedBy(c, p)
  {
    if o.Fail? then Run(q0, log0, data, max) == Failed(o.errno, p)
    else
      var c' := DoAll(c, o.acts, data, p);
      if o.Next? then Agrees(o.q, c', Run(q0, log0, data[..p + 1], max), data, p + 1) && Rested(o.q)
      else Run(q0, log0, data, max) == Exited(o.q, c'.log, p + 1) && Valid(o.q) && Rested(o.q)
  }

  class HttpParser {
    var fields: Parser
    var errno: Option<Errno>
    /** What the callbacks have received; adjacent data of one kind are joined. */
    var log: seq<Event>
    const maxHeaderSize: nat

    ghost predicate Valid()
      reads this
    {
      errno.None? ==> HttpMachine.Valid(fields) && Rested(fields)
    }

    constructor (kind: Kind, maxHeaderSize: nat)
      ensures Valid() && fields == Init(kind) && errno.None? && log == [] && this.maxHeaderSize == maxHeaderSize
    {
      fields, errno, log := Init(kind), None, [];
      this.maxHeaderSize := maxHeaderSize;
    }

    /** What a call has to do, given the run with a call for every byte. */
    twostate predicate ExecutedAs(r: Result, len: nat, nparsed: nat)
      reads this
    {
      match r
      case Running(q, l) => errno.None? && fields == q && log == l && nparsed == len
      case Exited(q, l, n) => errno.None? && fields == q && log == l && nparsed == n
      case Failed(_, _) => errno.Some? && FailsAs(r, errno.value, nparsed) && nparsed <= len
    }

    /** An empty call says that the connection was closed. */
    method End() returns (nparsed: nat)
      requires Valid() && errno.None?
      modifies this
      ensures Valid() && AtEof(old(fields), old(log), fields, log, errno, nparsed)
    {
      hide HttpMachine.Valid, Emit;
      if fields.state.BodyIdentityEof? {
        log := Emit(log, MessageComplete);
        return 0;
      }
      if EofAllowed(fields.state) {
        return 0;
      }
      errno := Some(INVALID_EOF_STATE);
      return 1;
    }

    /** Parses some bytes, or the end of the connection if there are none. */
    method Execute(data: seq<octet>) returns (nparsed: nat)
      requires Valid()
      modifies this
      ensures Valid()
      ensures old(errno).Some? ==> nparsed == 0 && unchanged(this)
      ensures old(errno).None? && data == [] ==>
                AtEof(old(fields), old(log), fields, log, errno, nparsed)
      ensures old(errno).None? && data != [] ==>
                ExecutedAs(Run(old(fields), old(log), data, maxHeaderSize), |data|, nparsed)
    {
      hide HttpMachine.Valid, Agrees, Run, Byte, DoAll, NewMessage, Emit, Received, AtEnd, InBody, MarkOk, AtEof;
      if errno.Some? {
        return 0;
      }
      if data == [] {
        nparsed := End();
        return;
      }
      ghost var q0, log0 := fields, log;
      var q, c, p := fields, Calls(EntryMark(fields.state), log), 0;
      StartAgrees(q, log, data, maxHeaderSize);
      while p < |data|
        invariant p <= |data| && Agrees(q, c, Run(q0, log0, data[..p], maxHeaderSize), data, p) && Rested(q)
        invariant unchanged(this)
      {
        ghost var g, start := q, p;
        AgreesValid(q, c, Run(q0, log0, data[..p], maxHeaderSize), data, p);
        if ParsingHeader(q.state) {
          q := q.(nread := q.nread + 1);
          if q.nread > maxHeaderSize {
            OverflowNow(q0, log0, g, c, data, p, maxHeaderSize);
            errno := Some(HEADER_OVERFLOW);
            return p;
          }
        }
        assert q.state.ChunkSizeStart? ==> q.nread == 1;
        if InName(q.state) {
          var bad;
          q, p, bad := ReadHeader(data, p, q, c, maxHeaderSize, q0, log0, g);
          if bad.Some? {
            errno := bad;
            return p;
          }
          if p == |data| {
            break;
          }
          g := q.(nread := q.nread - 1);
        } else if Counting(q.state) {
          var exited;
          q, c, p, exited := ReadBody(data, p, q, c, maxHeaderSize, q0, log0);
          if exited {
            fields, log := q, c.log;
            return p;
          }
          continue;
        } else if q.state.BodyIdentityEof? {
          EofAgrees(q0, log0, q, c, data, p, maxHeaderSize);
          if c.mark.NoMark? {
            c := c.(mark := At(BODY, p));
          }
          p := |data|;
          assert Agrees(q, c, Run(q0, log0, data[..p], maxHeaderSize), data, p);
          continue;
        }
        ByteNow(q0, log0, g, c, data, p, maxHeaderSize);
        var o := Byte(q, data[p]);
        match o {
          case Fail(e) =>
            errno := Some(e);
            return p;
          case Next(q', acts) =>
            c := DoAll(c, acts, data, p);
            q, p := q', p + 1;
          case Exit(q', acts) =>
            c := DoAll(c, acts, data, p);
            fields, log := q', c.log;
            return p + 1;
        }
      }
      assert data[..p] == data;
      EndAgrees(q, c, Run(q0, log0, data, maxHeaderSize), data);
      fields, log := q, AtEnd(c, data);
      return |data|;
    }
  }

  predicate EofAllowed(s: State) {
    s.Dead? || s.StartReqOrRes? || s.StartRes? || s.StartReq?
  }

  ghost predicate AtEof(q: Parser, log: seq<Event>, q': Parser, log': seq<Event>, errno: Option<Errno>, nparsed: nat) {
    && q' == q
    && if q.state.BodyIdentityEof? then errno.None? && log' == Emit(log, MessageComplete) && nparsed == 0
       else if EofAllowed(q.state) then errno.None? && log' == log && nparsed == 0
       else errno == Some(INVALID_EOF_STATE) && log' == log && nparsed == 1
  }

  /**
    If one call would take all bytes without an error or another protocol, then so do two, and they leave the parser
    the same and call back with the same data.
   */
  method ExecuteInTwo(parser: HttpParser, a: seq<octet>, b: seq<octet>)
    requires parser.Valid() && parser.errno.None? && a != [] && b != []
    requires HttpMachine.Valid(parser.fields) && Run(parser.fields, parser.log, a + b, parser.maxHeaderSize).Running?
    modifies parser
    ensures parser.Valid() && parser.errno.None?
    ensures Running(parser.fields, parser.log) == Run(old(parser.fields), old(parser.log), a + b, parser.maxHeaderSize)
  {
    hide HttpMachine.Valid, Run;
    RunConcat(parser.fields, parser.log, a, b, parser.maxHeaderSize);
    var n := parser.Execute(a);
    n := parser.Execute(b);
  }
}
