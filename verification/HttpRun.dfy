/**
  Runs of the HTTP parser: what the callbacks receive, byte by byte, and why handing in the bytes in pieces
  makes no difference.
 */
module HttpRun {
  import opened HttpChars
  import opened HttpMachine

  // ----- what the callbacks receive

  /** One more event; adjacent data of one kind are joined. */
  function Emit(log: seq<Event>, e: Event): seq<Event> {
    var last := |log| - 1;
    if e.Data? && log != [] && log[last].Data? && log[last].part == e.part then
      log[..last] + [Data(e.part, log[last].bytes + e.bytes)]
    else log + [e]
  }

  /** Data that are only handed out if there are any. */
  function With(log: seq<Event>, part: Part, bytes: seq<octet>): seq<Event> {
    if bytes == [] then log else Emit(log, Data(part, bytes))
  }

  lemma EmitEmit(log: seq<Event>, part: Part, a: seq<octet>, b: seq<octet>)
    ensures Emit(Emit(log, Data(part, a)), Data(part, b)) == Emit(log, Data(part, a + b))
  {
    var once := Emit(log, Data(part, a));
    var last := |log| - 1;
    if log != [] && log[last].Data? && log[last].part == part {
      assert once[..|once| - 1] == log[..last];
      assert (log[last].bytes + a) + b == log[last].bytes + (a + b);
    } else {
      assert once[..|once| - 1] == log;
    }
  }

  lemma EmitNothing(log: seq<Event>, part: Part, a: seq<octet>)
    ensures Emit(With(log, part, a), Data(part, [])) == Emit(log, Data(part, a))
  {
    EmitEmit(log, part, a, []);
    assert a + [] == a;
  }

  lemma EmitMore(log: seq<Event>, part: Part, a: seq<octet>, b: seq<octet>)
    requires b != []
    ensures Emit(With(log, part, a), Data(part, b)) == With(log, part, a + b) == Emit(log, Data(part, a + b))
  {
    if a == [] {
      assert a + b == b;
    } else {
      EmitEmit(log, part, a, b);
    }
  }

  // ----- marks and callbacks within one call

  /** The mark that is set, if any, and what the callbacks have received. */
  datatype Marked = NoMark | At(part: Part, pos: nat)
  datatype Calls = Calls(mark: Marked, log: seq<Event>)

  predicate MarkedBy(c: Calls, p: nat) {
    c.mark.At? ==> c.mark.pos <= p
  }

  function Do(c: Calls, act: Act, data: seq<octet>, p: nat): (r: Calls)
    requires p < |data| && MarkedBy(c, p)
    ensures MarkedBy(r, p)
  {
    match act
    case Mark(k) => if c.mark.NoMark? then c.(mark := At(k, p)) else c
    case Flush(k) =>
      if c.mark.At? && c.mark.part == k then Calls(NoMark, Emit(c.log, Data(k, data[c.mark.pos..p]))) else c
    case FlushThrough(k) =>
      if c.mark.At? && c.mark.part == k then Calls(NoMark, Emit(c.log, Data(k, data[c.mark.pos..p + 1]))) else c
    case Notify(e) => c.(log := Emit(c.log, e))
  }

  function DoAll(c: Calls, acts: seq<Act>, data: seq<octet>, p: nat): (r: Calls)
    requires p < |data| && MarkedBy(c, p)
    ensures MarkedBy(r, p)
    decreases |acts|
  {
    if acts == [] then c else DoAll(Do(c, acts[0], data, p), acts[1..], data, p)
  }

  function EntryMark(s: State): Marked {
    match EntryPart(s)
    case Goes(k) => At(k, 0)
    case NoEntry => NoMark
  }

  /** The end of a call: data after the mark are handed out. */
  function AtEnd(c: Calls, data: seq<octet>): seq<Event>
    requires MarkedBy(c, |data|)
  {
    if c.mark.At? then Emit(c.log, Data(c.mark.part, data[c.mark.pos..])) else c.log
  }

  // ----- runs, one byte at a time

  datatype Result =
    | Running(q: Parser, log: seq<Event>)
    | Exited(q: Parser, log: seq<Event>, n: nat)
    | Failed(errno: Errno, n: nat)

  function Counted(q: Parser): Parser {
    if ParsingHeader(q.state) then q.(nread := q.nread + 1) else q
  }

  /** A call with one byte. */
  function Step(q: Parser, log: seq<Event>, ch: octet, max: nat, n: nat): Result
    requires Valid(q)
  {
    if ParsingHeader(q.state) && q.nread + 1 > max then Failed(HEADER_OVERFLOW, n)
    else
      match Byte(Counted(q), ch)
      case Fail(errno) => Failed(errno, n)
      case Next(q', acts) => Running(q', AtEnd(DoAll(Calls(EntryMark(q.state), log), acts, [ch], 0), [ch]))
      case Exit(q', acts) => Exited(q', AtEnd(DoAll(Calls(EntryMark(q.state), log), acts, [ch], 0), [ch]), n + 1)
  }

  lemma CountedValid(q: Parser)
    requires Valid(q)
    ensures Valid(Counted(q))
  {
  }

  lemma StepValid(q: Parser, log: seq<Event>, ch: octet, max: nat, n: nat)
    requires Valid(q)
    ensures var r := Step(q, log, ch, max, n); r.Failed? || (Valid(r.q) && Rested(r.q))
  {
    hide Valid, Rested, Byte, DoAll, AtEnd;
    CountedValid(q);
    ByteFine(Counted(q), ch, HeldAtEntry(q.state));
    HeldAtEntryOk(q.state);
  }

  function HeldAtEntry(s: State): Held {
    match EntryPart(s)
    case Goes(k) => Holding(k)
    case NoEntry => Nothing
  }

  lemma HeldAtEntryOk(s: State)
    ensures HeldBefore(s, HeldAtEntry(s))
  {
  }

  /** One call for every byte. */
  function Run(q: Parser, log: seq<Event>, data: seq<octet>, max: nat): (r: Result)
    requires Valid(q)
    ensures !r.Failed? ==> Valid(r.q)
  {
    if data == [] then Running(q, log)
    else
      var last := |data| - 1;
      match Run(q, log, data[..last], max)
      case Running(q', log') => StepValid(q', log', data[last], max, last); Step(q', log', data[last], max, last)
      case Exited(_, _, _) => Run(q, log, data[..last], max)
      case Failed(_, _) => Run(q, log, data[..last], max)
  }

  /** A run over two pieces is a run over the first, then over the second. */
  function Then(r: Result, b: seq<octet>, max: nat, n: nat): Result
    requires !r.Failed? ==> Valid(r.q)
  {
    match r
    case Running(q, log) =>
      (match Run(q, log, b, max)
       case Running(q', log') => Running(q', log')
       case Exited(q', log', m) => Exited(q', log', n + m)
       case Failed(errno, m) => Failed(errno, n + m))
    case Exited(_, _, _) => r
    case Failed(_, _) => r
  }

  lemma StepLater(q: Parser, log: seq<Event>, ch: octet, max: nat, n: nat, k: nat)
    requires Valid(q)
    ensures var r := Step(q, log, ch, max, n);
            Step(q, log, ch, max, k + n) == if r.Running? then r
                                            else if r.Exited? then Exited(r.q, r.log, k + r.n)
                                            else Failed(r.errno, k + r.n)
  {
    hide Valid, Byte;
  }

  lemma {:induction false} RunConcat(q: Parser, log: seq<Event>, a: seq<octet>, b: seq<octet>, max: nat)
    requires Valid(q)
    ensures Run(q, log, a + b, max) == Then(Run(q, log, a, max), b, max, |a|)
  {
    hide Valid, Step;
    if b == [] {
      assert a + b == a;
    } else {
      var last := |b| - 1;
      RunConcat(q, log, a, b[..last], max);
      assert (a + b)[..|a + b| - 1] == a + b[..last] && (a + b)[|a + b| - 1] == b[last];
      var r := Run(q, log, a, max);
      if r.Running? {
        var r' := Run(r.q, r.log, b[..last], max);
        if r'.Running? {
          StepLater(r'.q, r'.log, b[last], max, last, |a|);
        }
      }
    }
  }

  // ----- marks that stay set over many bytes

  /**
    What the callbacks would have received had every byte been a call: in addition to what they did receive, the data
    from the mark on.
   */
  function Received(c: Calls, data: seq<octet>, p: nat): seq<Event>
    requires p <= |data| && MarkedBy(c, p)
  {
    if c.mark.At? then With(c.log, c.mark.part, data[c.mark.pos..p]) else c.log
  }

  /** The marks of one call over many bytes, and of a call with just the byte at `p`. */
  ghost predicate Paired(c: Calls, one: Calls, data: seq<octet>, p: nat)
    requires p < |data|
  {
    && MarkedBy(c, p)
    && match one.mark
       case NoMark => (c.mark.At? ==> c.mark.part == BODY && c.mark.pos < p) && one.log == Received(c, data, p)
       case At(k, i) => i == 0 && c.mark.At? && c.mark.part == k && one.log == Received(c, data, p)
  }

  function HeldOf(c: Calls, one: Calls): Held {
    if one.mark.At? then Holding(one.mark.part) else if c.mark.At? then Behind else Nothing
  }

  lemma PairedMarked(c: Calls, one: Calls, data: seq<octet>, p: nat)
    requires p < |data| && Paired(c, one, data, p)
    ensures MarkedBy(c, p) && MarkedBy(one, 0)
  {
  }

  lemma FlushPaired(c: Calls, one: Calls, k: Part, data: seq<octet>, p: nat)
    requires p < |data| && Paired(c, one, data, p) && !HeldBy(HeldOf(c, one), Flush(k)).Wrong?
    ensures MarkedBy(one, 0)
    ensures Paired(Do(c, Flush(k), data, p), Do(one, Flush(k), [data[p]], 0), data, p)
  {
    if one.mark.At? {
      EmitNothing(c.log, k, data[c.mark.pos..p]);
      assert [data[p]][0..0] == [];
    }
  }

  lemma FlushThroughPaired(c: Calls, one: Calls, k: Part, data: seq<octet>, p: nat)
    requires p < |data| && Paired(c, one, data, p) && HeldOf(c, one) == Holding(k)
    ensures MarkedBy(one, 0)
    ensures Paired(Do(c, FlushThrough(k), data, p), Do(one, FlushThrough(k), [data[p]], 0), data, p)
  {
    hide Emit;
    var ch := [data[p]];
    EmitMore(c.log, k, data[c.mark.pos..p], ch);
    assert data[c.mark.pos..p] + ch == data[c.mark.pos..p + 1];
    assert ch[0..1] == ch;
  }

  /** An act does the same in both calls. */
  lemma DoPaired(c: Calls, one: Calls, act: Act, data: seq<octet>, p: nat)
    requires p < |data| && Paired(c, one, data, p) && !HeldBy(HeldOf(c, one), act).Wrong?
    ensures MarkedBy(one, 0)
    ensures var c', one' := Do(c, act, data, p), Do(one, act, [data[p]], 0);
            Paired(c', one', data, p) && HeldOf(c', one') == HeldBy(HeldOf(c, one), act)
  {
    hide Emit;
    match act
    case Mark(k) => assert data[p..p] == [];
    case Flush(k) => FlushPaired(c, one, k, data, p);
    case FlushThrough(k) => FlushThroughPaired(c, one, k, data, p);
    case Notify(e) =>
  }

  lemma {:induction false} WrongStays(acts: seq<Act>)
    ensures HeldAfter(Wrong, acts).Wrong?
    decreases |acts|
  {
    if acts != [] {
      WrongStays(acts[1..]);
    }
  }

  lemma {:induction false} DoAllPaired(c: Calls, one: Calls, acts: seq<Act>, data: seq<octet>, p: nat)
    requires p < |data| && Paired(c, one, data, p) && !HeldAfter(HeldOf(c, one), acts).Wrong?
    ensures var c', one' := DoAll(c, acts, data, p), DoAll(one, acts, [data[p]], 0);
            Paired(c', one', data, p) && HeldOf(c', one') == HeldAfter(HeldOf(c, one), acts)
    decreases |acts|
  {
    hide Paired, HeldOf, HeldBy, Do;
    PairedMarked(c, one, data, p);
    if acts != [] {
      if HeldBy(HeldOf(c, one), acts[0]).Wrong? {
        WrongStays(acts[1..]);
      }
      DoPaired(c, one, acts[0], data, p);
      DoAllPaired(Do(c, acts[0], data, p), Do(one, acts[0], [data[p]], 0), acts[1..], data, p);
    }
  }

  /** After the byte, the one-byte call hands its data out. */
  lemma EndPaired(c: Calls, one: Calls, data: seq<octet>, p: nat)
    requires p < |data| && Paired(c, one, data, p) && !HeldOf(c, one).Behind?
    ensures MarkedBy(c, p + 1) && AtEnd(one, [data[p]]) == Received(c, data, p + 1)
  {
    if one.mark.At? {
      var ch := [data[p]];
      EmitMore(c.log, c.mark.part, data[c.mark.pos..p], ch);
      assert data[c.mark.pos..p] + ch == data[c.mark.pos..p + 1];
      assert ch[0..] == ch;
    }
  }

  // ----- one call agrees with a call for every byte

  /** The mark is that of the state, or of a body. */
  predicate MarkOk(s: State, mark: Marked, p: nat) {
    match EntryPart(s)
    case Goes(k) => mark.At? && mark.part == k && (if p == 0 then mark.pos == 0 else mark.pos < p)
    case NoEntry => mark.NoMark? || (InBody(s) && mark.part == BODY && mark.pos < p)
  }

  /** Byte `p` is next, and so far the call agrees with a call for every byte. */
  ghost predicate Agrees(q: Parser, c: Calls, r: Result, data: seq<octet>, p: nat) {
    && p <= |data| && Valid(q) && MarkOk(q.state, c.mark, p)
    && r == Running(q, Received(c, data, p))
  }

  lemma AgreesValid(q: Parser, c: Calls, r: Result, data: seq<octet>, p: nat)
    requires Agrees(q, c, r, data, p)
    ensures Valid(q) && MarkedBy(c, p) && r.Running? && r.q == q
  {
  }

  lemma StartAgrees(q: Parser, log: seq<Event>, data: seq<octet>, max: nat)
    requires Valid(q)
    ensures Agrees(q, Calls(EntryMark(q.state), log), Run(q, log, data[..0], max), data, 0)
  {
    assert data[0..0] == [];
  }

  /** The one-byte call starts out paired with the call over many bytes. */
  lemma EntryPaired(q: Parser, c: Calls, r: Result, data: seq<octet>, p: nat)
    requires Agrees(q, c, r, data, p) && p < |data|
    ensures var one := Calls(EntryMark(q.state), r.log);
            Paired(c, one, data, p) && HeldBefore(q.state, HeldOf(c, one))
  {
    hide Valid, InUrl;
  }

  lemma MarkOkAfter(s: State, c: Calls, one: Calls, data: seq<octet>, p: nat)
    requires p < |data| && Paired(c, one, data, p) && HeldOk(s, HeldOf(c, one))
    ensures MarkOk(s, c.mark, p + 1) && !HeldOf(c, one).Behind? && !HeldOf(c, one).Wrong?
    ensures HeldOf(c, one).Nothing? ==> c.mark.NoMark?
  {
    hide InUrl;
  }

  /** What the byte at `p` comes to is what a call with just this byte comes to. */
  ghost predicate OutcomeAgrees(o: Outcome, c: Calls, step: Result, data: seq<octet>, p: nat)
    requires p < |data| && MarkedBy(c, p)
  {
    if o.Fail? then step == Failed(o.errno, p)
    else
      var c' := DoAll(c, o.acts, data, p);
      if o.Next? then Agrees(o.q, c', step, data, p + 1)
      else step == Exited(o.q, c'.log, p + 1)
  }

  /** A byte on which the call over many bytes acts as a one-byte call would. */
  lemma ByteAgrees(q: Parser, c: Calls, r: Result, data: seq<octet>, p: nat, max: nat)
    requires Agrees(q, c, r, data, p) && p < |data| && !(ParsingHeader(q.state) && q.nread + 1 > max)
    requires MarkedBy(c, p)
    requires Valid(Counted(q))
    ensures OutcomeAgrees(Byte(Counted(q), data[p]), c, Step(q, r.log, data[p], max, p), data, p)
  {
    hide Valid, Byte, HeldBefore, HeldOk, HeldOf, HeldAfter, Paired, DoAll, ParsingHeader;
    var o := Byte(Counted(q), data[p]);
    if !o.Fail? {
      var one := Calls(EntryMark(q.state), r.log);
      EntryPaired(q, c, r, data, p);
      ByteFine(Counted(q), data[p], HeldOf(c, one));
      WrongIsNotOk(o.q.state);
      DoAllPaired(c, one, o.acts, data, p);
      MarkOkAfter(o.q.state, DoAll(c, o.acts, data, p), DoAll(one, o.acts, [data[p]], 0), data, p);
      EndPaired(DoAll(c, o.acts, data, p), DoAll(one, o.acts, [data[p]], 0), data, p);
    }
  }

  lemma WrongIsNotOk(s: State)
    ensures !HeldOk(s, Wrong)
  {
  }

  /** The bytes were handed in: what is left of the marks is handed out. */
  lemma EndAgrees(q: Parser, c: Calls, r: Result, data: seq<octet>)
    requires Agrees(q, c, r, data, |data|) && data != []
    ensures MarkedBy(c, |data|) && r == Running(q, AtEnd(c, data))
  {
    hide Valid, Emit, InUrl;
    if c.mark.At? {
      assert data[c.mark.pos..|data|] == data[c.mark.pos..];
    }
  }

  // ----- prefixes

  lemma RunOne(q: Parser, log: seq<Event>, data: seq<octet>, p: nat, max: nat)
    requires Valid(q) && p < |data| && Run(q, log, data[..p], max).Running?
    ensures var r := Run(q, log, data[..p], max); Run(q, log, data[..p + 1], max) == Step(r.q, r.log, data[p], max, p)
  {
    hide Valid, Step;
    assert data[..p + 1][..p] == data[..p];
  }

  lemma RunOn(q: Parser, log: seq<Event>, data: seq<octet>, i: nat, j: nat, max: nat)
    requires Valid(q) && i <= j <= |data|
    ensures Run(q, log, data[..j], max) == Then(Run(q, log, data[..i], max), data[i..j], max, i)
  {
    hide Valid, Run, Then;
    RunConcat(q, log, data[..i], data[i..j], max);
    assert data[..i] + data[i..j] == data[..j];
  }

  /** A run that has ended stays so. */
  lemma RunEnded(q: Parser, log: seq<Event>, data: seq<octet>, i: nat, max: nat)
    requires Valid(q) && i <= |data| && !Run(q, log, data[..i], max).Running?
    ensures Run(q, log, data, max) == Run(q, log, data[..i], max)
  {
    hide Valid, Run;
    RunOn(q, log, data, i, |data|, max);
    assert data[..|data|] == data;
  }
}
