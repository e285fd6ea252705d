/**
  The heads of HTTP messages: what the parser reports of a start line and of header fields, and how it finds out
  where the message ends.
 */
module HttpHeads {
  import opened Options
  import opened HttpChars
  import opened HttpMachine
  import opened HttpRun
  import opened HttpStretch
  import opened HttpLaws
  import opened HttpFields
  import opened HttpValues

  // ----- values

  predicate Blank(c: octet) {
    c == ' ' || c == '\t'
  }

  predicate Blanks(s: seq<octet>) {
    forall i :: 0 <= i < |s| ==> Blank(s[i])
  }

  /** A value on one line, without the blanks in front of it. */
  predicate IsValue(value: seq<octet>) {
    value != [] && !Blank(value[0]) && value[0] != CR && value[0] != LF && InValue(value[1..])
  }

  lemma BlankSkipped(q: Parser, log: seq<Event>, c: octet, max: nat, n: nat)
    requires Valid(q) && q.state.HeaderValueDiscardWs? && Blank(c) && q.nread + 1 <= max
    ensures Step(q, log, c, max, n) == Running(q.(nread := q.nread + 1), log)
  {
    hide Valid, Emit, AtUrl, AtVersion, StartLineByte;
  }

  lemma {:induction false} BlanksSkipped(q: Parser, log: seq<Event>, s: seq<octet>, max: nat)
    requires Valid(q) && q.state.HeaderValueDiscardWs? && Blanks(s) && q.nread + |s| <= max
    ensures Run(q, log, s, max) == Running(q.(nread := q.nread + |s|), log)
  {
    hide Valid, Step, Blank;
    if s != [] {
      var last := |s| - 1;
      BlanksSkipped(q, log, s[..last], max);
      ValidRecounted(q, q.nread + last);
      BlankSkipped(q.(nread := q.nread + last), log, s[last], max, last);
    }
  }

  /** The parser after the first character of a value. */
  function Valued(q: Parser, c: octet): Parser {
    q.(nread := q.nread + 1, state := HeaderValue, index := 0, header := ValueStart(q.header, Lower(c)),
       flags := q.flags.(upgrade := q.flags.upgrade || q.header.Upgrade?))
  }

  lemma ValueStarts(q: Parser, log: seq<Event>, c: octet, max: nat)
    requires Valid(q) && q.state.HeaderValueDiscardWs? && !q.header.ContentLength? && q.nread + 1 <= max
    requires !Blank(c) && c != CR && c != LF
    ensures Run(q, log, [c], max) == Running(Valued(q, c), Emit(log, Data(VALUE, [c])))
  {
    hide Valid, Emit, DoAll, AtEnd, Lower, ValueStart, AtUrl, AtVersion, StartLineByte;
    OneByte(q, log, c, max);
    Marks(log, VALUE, c);
  }

  lemma ValueLf(q: Parser, log: seq<Event>, max: nat)
    requires Valid(q) && q.state.HeaderAlmostDone? && q.nread + 1 <= max
    ensures Run(q, log, [LF], max) == Running(q.(nread := q.nread + 1, state := HeaderValueLws), log)
  {
    hide Valid, Emit, AtUrl, AtVersion, StartLineByte;
    OneByte(q, log, LF, max);
  }

  /** The end of a line. */
  lemma LineEnds(q: Parser, log: seq<Event>, value: seq<octet>, max: nat)
    requires Valid(q) && q.state.HeaderValue? && q.nread + 2 <= max
    ensures Run(q, Emit(log, Data(VALUE, value)), [CR, LF], max)
         == Running(q.(nread := q.nread + 2, state := HeaderValueLws), Emit(log, Data(VALUE, value)))
  {
    hide Valid, Emit, Run, Step;
    var log' := Emit(log, Data(VALUE, value));
    FirstByte(q, log', CR, [LF], max);
    assert [CR] + [LF] == [CR, LF];
    ValueEnds(q, log, value, max, 0);
    StepValid(q, log', CR, max, 0);
    ValueLf(q.(nread := q.nread + 1, state := HeaderAlmostDone), log', max);
  }

  /** The rest of a line. */
  lemma TailRead(q: Parser, log: seq<Event>, value: seq<octet>, max: nat)
    requires value != [] && Valid(q) && q.state.HeaderValue? && PlainBytes(q, value[1..]).Ok? && q.nread + |value| + 1 <= max
    ensures Run(q, Emit(log, Data(VALUE, value[..1])), value[1..] + [CR, LF], max)
         == Running(PlainBytes(q, value[1..]).q.(nread := q.nread + |value| + 1, state := HeaderValueLws),
                    Emit(log, Data(VALUE, value)))
  {
    hide Valid, Run, Emit, PlainBytes, Step;
    var first, rest := value[..1], value[1..];
    var log1 := Emit(log, Data(VALUE, first));
    assert value == first + rest;
    PlainRun(q, log1, rest, max);
    PlainBytesKeep(q, rest);
    WithWith(log, VALUE, first, rest);
    RunConcat(q, log1, rest, [CR, LF], max);
    var q2 := Run(q, log1, rest, max).q;
    LineEnds(q2, log, value, max);
  }

  /** A line was read, and these flags will be recorded at its end. */
  predicate Records(q: Parser, r: Result, said: Said, log: seq<Event>, n: nat) {
    && r.Running? && r.log == log && r.q.state.HeaderValueLws? && FinishedFlags(r.q) == said.flags
    && r.q == q.(state := r.q.state, header := r.q.header, index := r.q.index, flags := r.q.flags, nread := q.nread + n,
                 contentLength := said.length)
  }

  lemma ValueRead(q: Parser, log: seq<Event>, value: seq<octet>, flags: Flags, max: nat)
    requires Valid(q) && q.state.HeaderValueDiscardWs? && !q.header.ContentLength? && IsValue(value)
    requires q.nread + |value| + 2 <= max
    requires ReadAs(Valued(q, value[0]), PlainBytes(Valued(q, value[0]), value[1..]), flags)
    ensures Records(q, Run(q, log, value + [CR, LF], max), Said(flags, q.contentLength), Emit(log, Data(VALUE, value)),
                    |value| + 2)
  {
    hide Valid, Run, Emit, PlainBytes, FinishedFlags, ValueStart, Lower, Blank, InValue, Step;
    var q1, rest := Valued(q, value[0]), value[1..];
    assert value[..1] == [value[0]] && [value[0]] + (rest + [CR, LF]) == value + [CR, LF];
    ValueStarts(q, log, value[0], max);
    OneByte(q, log, value[0], max);
    StepValid(q, log, value[0], max, 0);
    FirstByte(q, log, value[0], rest + [CR, LF], max);
    TailRead(q1, log, value, max);
    FinishedAlike(PlainBytes(q1, rest).q, Run(q, log, value + [CR, LF], max).q);
  }

  lemma LengthRead(q: Parser, log: seq<Event>, value: seq<octet>, max: nat)
    requires Valid(q) && q.state.HeaderValueDiscardWs? && q.header.ContentLength?
    requires LengthOk(Said(q.flags, q.contentLength), value) && q.nread + |value| + 2 <= max
    ensures forall i :: 0 <= i < |value| ==> Unhex(value[i]) >= 0
    ensures Records(q, Run(q, log, value + [CR, LF], max),
                    Said(q.flags.(contentLength := true), Number(0, value, 10)), Emit(log, Data(VALUE, value)),
                    |value| + 2)
  {
    hide Valid, Run, Emit, PlainBytes, Step, Number, Fits;
    DigitsAreHex(value);
    var d, rest := value[0], value[1..];
    assert value == [d] + rest && value[..1] == [d] && [d] + (rest + [CR, LF]) == value + [CR, LF];
    NumberSplit(d, rest, 10);
    FitsSplit(d, rest, 10, LENGTH_LIMIT);
    LengthStart(q, log, d, max, 0);
    StepValid(q, log, d, max, 0);
    FirstByte(q, log, d, rest + [CR, LF], max);
    var q1 := Step(q, log, d, max, 0).q;
    LengthDigits(q1, rest);
    TailRead(q1, log, value, max);
  }

  lemma FinishedAlike(q: Parser, q': Parser)
    requires q.header == q'.header && q.flags == q'.flags
    ensures FinishedFlags(q) == FinishedFlags(q')
  {
  }

  predicate LengthOk(said: Said, value: seq<octet>) {
    value != [] && Digits(value) && (DigitsAreHex(value); Fits(0, value, 10, LENGTH_LIMIT)) && !said.flags.contentLength
  }

  /** What a head says of the message: its flags, and its length. */
  datatype Said = Said(flags: Flags, length: nat)

  function ListHeader(f: Family): HeaderState {
    if f.ConnectionOptions? then Connection else TransferEncoding
  }

  lemma ListStarts(f: Family, q: Parser, c: octet)
    requires q.header == ListHeader(f) && c != CR
    ensures var q1 := Valued(q, c);
            InWord(f, q1, [c]) && q1.flags == q.flags && (c == COMMA ==> q1.header == Other(f))
  {
    hide Lower, Begins, SameLetter, Token;
    FirstWordHeader(f, c);
    FirstLetters(c);
    CommaIsNoWord(f);
  }

  lemma CommaIsNoWord(f: Family)
    ensures WordAt(f, COMMA).None? && ItemOf(f, [COMMA]).Unknown?
  {
  }

  lemma {:induction false} ItemsIn(value: seq<octet>)
    requires InValue(value)
    ensures AllItems(Items(value))
  {
    hide InItem;
    if value != [] {
      ItemsIn(value[1..]);
      var items, more := Items(value), Items(value[1..]);
      if value[0] == COMMA {
        assert forall i :: 1 <= i < |items| ==> items[i] == more[i - 1];
      } else {
        assert forall i :: 1 <= i < |items| ==> items[i] == more[i];
      }
    }
  }

  /** A list of options or codings: its items are read as a whole. */
  lemma ListValue(f: Family, q: Parser, value: seq<octet>)
    requires q.header == ListHeader(f) && IsValue(value)
    ensures var q1 := Valued(q, value[0]);
            ReadAs(q1, PlainBytes(q1, value[1..]), ValueFlags(f, Items(value), q.flags))
  {
    hide InValue, AllItems, InWord, ItemOf, FinishedFlags, PlainBytes, ItemFlags, ListFlags, Listed, Items, Blank;
    var c, rest := value[0], value[1..];
    var q1, items := Valued(q, c), Items(rest);
    ListStarts(f, q, c);
    ItemsIn(rest);
    ItemsListed(rest);
    ItemsFrom(value);
    AllItemsParts(items);
    if c == COMMA {
      SkipRead(f, q1, items);
    } else {
      WordRead(f, q1, [c], items[0]);
      var more := items[1..];
      RestRead(f, PlainBytes(q1, items[0]).q, [c] + items[0], more);
      var tail := if more == [] then [] else [COMMA] + Listed(more);
      ReadOn(q1, items[0], tail, ItemFlags(f, [c] + items[0], more, q.flags));
      ListedApart(items);
    }
  }

  lemma ItemsFrom(value: seq<octet>)
    requires value != []
    ensures var items, more := Items(value), Items(value[1..]);
            if value[0] == COMMA then items[0] == [] && |items| > 1 && items[1..] == more && items[2..] == more[1..]
            else items[0] == [value[0]] + more[0] && items[1..] == more[1..]
  {
    var items, more := Items(value), Items(value[1..]);
    if value[0] == COMMA {
      assert items == [[]] + more;
    } else {
      assert items == [[value[0]] + more[0]] + more[1..];
    }
  }

  lemma AllItemsParts(items: seq<seq<octet>>)
    requires items != [] && AllItems(items)
    ensures AllInItem(items[0]) && AllItems(items[1..])
  {
    hide AllInItem;
  }

  lemma ListedApart(items: seq<seq<octet>>)
    requires items != []
    ensures Listed(items) == items[0] + if |items| == 1 then [] else [COMMA] + Listed(items[1..])
  {
    if |items| > 1 {
      assert Listed(items) == items[0] + ([COMMA] + Listed(items[1..]));
    }
  }

  // ----- fields

  /** A field: its name, the blanks behind the colon, and its value. */
  datatype Field = Field(name: seq<octet>, blanks: seq<octet>, value: seq<octet>)

  const COLON: octet := ':'

  function Line(field: Field): seq<octet> {
    field.name + [COLON] + field.blanks + field.value + [CR, LF]
  }

  /** What a field adds. A name that only begins with "transfer-encoding" counts as one, too. */
  function FieldFlags(flags: Flags, name: seq<octet>, value: seq<octet>): Flags
    requires value != []
  {
    var coded := flags.(transferEncoding := flags.transferEncoding || NamesCodings(name));
    if Same(name, "connection") || Same(name, "proxy-connection") then ValueFlags(ConnectionOptions, Items(value), flags)
    else if Same(name, "transfer-encoding") then ValueFlags(TransferCodings, Items(value), coded)
    else if Same(name, "upgrade") then flags.(upgrade := true)
    else coded
  }

  predicate FieldOk(said: Said, field: Field) {
    && IsName(field.name) && Blanks(field.blanks) && field.value != []
    && if Same(field.name, "content-length") then LengthOk(said, field.value) else IsValue(field.value)
  }

  function Adds(said: Said, field: Field): Said
    requires FieldOk(said, field)
  {
    if Same(field.name, "content-length") then
      DigitsAreHex(field.value);
      Said(said.flags.(contentLength := true), Number(0, field.value, 10))
    else Said(FieldFlags(said.flags, field.name, field.value), said.length)
  }

  lemma NameHeaderIs(name: seq<octet>)
    requires name != []
    ensures var h := NameHeader(name);
            && (h.Connection? <==> Same(name, "connection") || Same(name, "proxy-connection"))
            && (h.ContentLength? <==> Same(name, "content-length"))
            && (h.TransferEncoding? <==> Same(name, "transfer-encoding"))
            && (h.Upgrade? <==> Same(name, "upgrade"))
    ensures NameHeader(name).Connection? || NameHeader(name).ContentLength? || NameHeader(name).Upgrade? ==> !NamesCodings(name)
    ensures NameHeader(name).TransferEncoding? ==> NamesCodings(name)
    ensures FieldHeader(NameHeader(name))
  {
    hide Begins;
    NotLonger(name);
    Different(name);
    if |name| == 17 {
      assert name[..17] == name;
    }
  }

  lemma GeneralValue(q: Parser, value: seq<octet>)
    requires IsValue(value) && FieldHeader(q.header)
    requires !q.header.Connection? && !q.header.TransferEncoding? && !q.header.ContentLength?
    ensures var q1 := Valued(q, value[0]);
            ReadAs(q1, PlainBytes(q1, value[1..]), q.flags.(upgrade := q.flags.upgrade || q.header.Upgrade?))
  {
    hide InValue, PlainBytes, Blank;
    IgnoredStay(Valued(q, value[0]), value[1..]);
  }

  /** The value of a field that is not a length, whatever its name. */
  lemma NamedValue(q: Parser, name: seq<octet>, value: seq<octet>)
    requires IsName(name) && IsValue(value) && !Same(name, "content-length")
    ensures var named := Named(q, name);
            var q1 := Valued(named, value[0]);
            ReadAs(q1, PlainBytes(q1, value[1..]), FieldFlags(q.flags, name, value))
  {
    hide NameHeader, NamesCodings, Same, IsValue, FieldHeader, PlainBytes, ValueFlags, Items, ReadAs, NameRead;
    NameHeaderIs(name);
    ValueIsSome(value);
    var named := Named(q, name);
    if named.header.Connection? {
      ListValue(ConnectionOptions, named, value);
    } else if named.header.TransferEncoding? {
      ListValue(TransferCodings, named, value);
    } else {
      GeneralValue(named, value);
    }
  }

  lemma ValueIsSome(value: seq<octet>)
    requires IsValue(value)
    ensures value != []
  {
  }

  function FieldLog(log: seq<Event>, field: Field): seq<Event> {
    Emit(Emit(log, Data(FIELD, field.name)), Data(VALUE, field.value))
  }

  /** A field: its name and value are handed out, and what it adds is what it says. */
  lemma FieldLine(q: Parser, log: seq<Event>, field: Field, max: nat)
    requires Valid(q) && q.state.HeaderFieldStart? && FieldOk(Said(q.flags, q.contentLength), field)
    requires q.nread + |Line(field)| <= max
    ensures var said := Adds(Said(q.flags, q.contentLength), field);
            Records(q, Run(q, log, Line(field), max), said, FieldLog(log, field), |Line(field)|)
  {
    hide Valid, Run, Emit, PlainBytes, IsName, IsValue, NameHeader, NameRead, LengthOk, Digits, Fits, Number,
      FieldFlags, Same, FieldHeader, FinishedFlags, ReadAs, NamesCodings, Blanks;
    var name, blanks, value := field.name, field.blanks, field.value;
    NameIsSome(name);
    NameHeaderIs(name);
    var named, log1 := Named(q, name), Emit(log, Data(FIELD, name));
    FieldName(q, log, name, max);
    RunConcat(q, log, name + [COLON], blanks, max);
    BlanksSkipped(named, log1, blanks, max);
    RunConcat(q, log, name + [COLON] + blanks, value + [CR, LF], max);
    assert name + [COLON] + blanks + (value + [CR, LF]) == Line(field);
    var q1 := named.(nread := named.nread + |blanks|);
    if Same(name, "content-length") {
      LengthRead(q1, log1, value, max);
    } else {
      NamedValue(q, name, value);
      CountedAlike(named, value, q1.nread);
      ValueRead(q1, log1, value, FieldFlags(q.flags, name, value), max);
    }
  }

  lemma NameIsSome(name: seq<octet>)
    requires IsName(name)
    ensures name != []
  {
  }

  lemma CountedAlike(q: Parser, value: seq<octet>, n: nat)
    requires value != []
    ensures var q', c, rest := q.(nread := n), value[0], value[1..];
            forall flags :: ReadAs(Valued(q, c), PlainBytes(Valued(q, c), rest), flags)
                            ==> ReadAs(Valued(q', c), PlainBytes(Valued(q', c), rest), flags)
  {
    hide PlainBytes, ValueStart, Lower;
    PlainBytesCount(Valued(q, value[0]), value[1..], n + 1);
  }

  // ----- many fields

  /** Behind the end of a line: what its field said is recorded. */
  function Settled(q: Parser): Parser {
    q.(flags := FinishedFlags(q), state := HeaderFieldStart)
  }

  lemma SettledStep(q: Parser, log: seq<Event>, c: octet, max: nat)
    requires Valid(q) && q.state.HeaderValueLws? && !Blank(c)
    ensures Valid(Settled(q)) && Step(q, log, c, max, 0) == Step(Settled(q), log, c, max, 0)
  {
    hide FinishedFlags, Valid, Byte, DoAll, AtEnd, Settled;
    SettledValid(q);
    CountedValid(q);
    CountedValid(Settled(q));
    SettledCounted(q);
    LwsByte(Counted(q), c);
    StartByte(Settled(Counted(q)), c);
  }

  lemma LwsByte(q: Parser, c: octet)
    requires Valid(q) && q.state.HeaderValueLws? && !Blank(c)
    ensures Byte(q, c) == AtHeaderFieldStart(Settled(q), c)
  {
    hide Valid, FinishedFlags, AtHeaderFieldStart, AtUrl, AtVersion, StartLineByte;
  }

  lemma StartByte(q: Parser, c: octet)
    requires Valid(q) && q.state.HeaderFieldStart?
    ensures Byte(q, c) == AtHeaderFieldStart(q, c)
  {
    hide Valid, AtHeaderFieldStart, AtUrl, AtVersion, StartLineByte;
  }

  lemma SettledCounted(q: Parser)
    requires q.state.HeaderValueLws?
    ensures Counted(Settled(q)) == Settled(Counted(q)) && Settled(q).nread == q.nread && Settled(Counted(q)).state.HeaderFieldStart?
    ensures EntryMark(Settled(q).state) == EntryMark(q.state) && ParsingHeader(Settled(q).state) && ParsingHeader(q.state)
  {
  }

  lemma SettledValid(q: Parser)
    requires Valid(q) && q.state.HeaderValueLws?
    ensures Valid(Settled(q))
  {
  }

  /** A line that does not begin with a blank does not continue the field. */
  lemma SettledRun(q: Parser, log: seq<Event>, data: seq<octet>, max: nat)
    requires Valid(q) && q.state.HeaderValueLws? && data != [] && !Blank(data[0])
    ensures Valid(Settled(q)) && Run(q, log, data, max) == Run(Settled(q), log, data, max)
  {
    hide Valid, Step, Run, FinishedFlags, Blank;
    SettledStep(q, log, data[0], max);
    assert [data[0]] + data[1..] == data;
    FirstByte(q, log, data[0], data[1..], max);
    FirstByte(Settled(q), log, data[0], data[1..], max);
  }

  predicate FieldsOk(said: Said, fields: seq<Field>)
    decreases |fields|, 0
  {
    fields == [] || (var last := |fields| - 1;
                     FieldsOk(said, fields[..last]) && FieldOk(AddsAll(said, fields[..last]), fields[last]))
  }

  function AddsAll(said: Said, fields: seq<Field>): Said
    requires FieldsOk(said, fields)
    decreases |fields|, 1
  {
    if fields == [] then said
    else
      var last := |fields| - 1;
      Adds(AddsAll(said, fields[..last]), fields[last])
  }

  function Lines(fields: seq<Field>): seq<octet> {
    if fields == [] then [] else Lines(fields[..|fields| - 1]) + Line(fields[|fields| - 1])
  }

  function FieldsLog(log: seq<Event>, fields: seq<Field>): seq<Event> {
    if fields == [] then log else FieldLog(FieldsLog(log, fields[..|fields| - 1]), fields[|fields| - 1])
  }

  /** The fields of a head: all are handed out, in order, and what they say adds up. */
  lemma {:induction false} FieldsRead(q: Parser, log: seq<Event>, fields: seq<Field>, max: nat)
    requires Valid(q) && q.state.HeaderFieldStart? && fields != [] && FieldsOk(Said(q.flags, q.contentLength), fields)
    requires q.nread + |Lines(fields)| <= max
    ensures Records(q, Run(q, log, Lines(fields), max), AddsAll(Said(q.flags, q.contentLength), fields),
                    FieldsLog(log, fields), |Lines(fields)|)
  {
    hide Valid, Run, Emit, FieldOk, Adds, Line, FieldLog, FinishedFlags;
    var said, last := Said(q.flags, q.contentLength), |fields| - 1;
    var before, field := fields[..last], fields[last];
    if before == [] {
      assert Lines(before) == [] && [] + Line(field) == Line(field) == Lines(fields);
      FieldLine(q, log, field, max);
    } else {
      FieldsRead(q, log, before, max);
      RunConcat(q, log, Lines(before), Line(field), max);
      var r := Run(q, log, Lines(before), max);
      LineStarts(AddsAll(said, before), field);
      SettledRun(r.q, r.log, Line(field), max);
      FieldLine(Settled(r.q), r.log, field, max);
    }
  }

  lemma LineStarts(said: Said, field: Field)
    requires FieldOk(said, field)
    ensures Line(field) != [] && !Blank(Line(field)[0])
  {
    hide Token, LengthOk, IsValue;
    assert Line(field)[0] == field.name[0];
    BlanksAreNoTokens();
  }

  lemma BlanksAreNoTokens()
    ensures Token(' ') == '\0' && Token('\t') == '\0'
  {
  }

  // ----- the end of a head

  /** How the body of a message is found, as in section 3.3.3 of RFC 7230. */
  datatype Framing = NoBody | InChunks | OfLength | UntilClosed | NotAllowed | OtherProtocol

  function BodyAs(q: Parser): Framing {
    var f := q.flags;
    var sized := q.contentLength != ULLONG_MAX;
    if q.upgrade && (q.verb.CONNECT? || (!f.chunked && (!sized || q.contentLength == 0))) then OtherProtocol
    else if f.transferEncoding && !f.chunked then if q.kind.REQUEST? then NotAllowed else UntilClosed
    else if f.chunked then InChunks
    else if sized then if q.contentLength == 0 then NoBody else OfLength
    else if q.kind.REQUEST? || BodylessStatus(q.status) then NoBody
    else UntilClosed
  }

  /** 1xx, 204 and 304 have no body. */
  predicate BodylessStatus(status: nat) {
    100 <= status <= 199 || status == 204 || status == 304
  }

  /** Whether the connection lasts, as in section 6.3: by default from HTTP/1.1 on. */
  predicate Lasts(q: Parser) {
    && (if q.major >= 1 && q.minor >= 1 then !q.flags.close else q.flags.keepAlive)
    && (q.kind.REQUEST? || BodylessStatus(q.status) || q.flags.chunked
        || (!q.flags.transferEncoding && q.contentLength != ULLONG_MAX))
  }

  /** The message is over: the next one can follow on the same connection, or not. */
  function Over(q: Parser): Parser {
    q.(state := if !Lasts(q) then Dead else if q.kind.REQUEST? then StartReq else StartRes)
  }

  lemma MessageOver(q: Parser)
    ensures NewMessage(q) == Over(q)
  {
    Hundreds(q.status);
  }

  lemma Hundreds(status: nat)
    ensures status / 100 == 1 <==> 100 <= status <= 199
  {
  }

  /** Whether another protocol follows: both fields ask for it and the status allows it, or a tunnel was asked for. */
  predicate Switches(q: Parser) {
    if q.flags.upgrade && q.flags.connectionUpgrade then q.kind.REQUEST? || q.status == 101 else q.verb.CONNECT?
  }

  /** What follows a head of `n` bytes. */
  function AfterHead(q: Parser, log: seq<Event>, n: nat): Result
    requires n > 0
  {
    var head := q.(nread := 0, state := HeadersDone, upgrade := Switches(q));
    var log1 := Emit(log, HeadersComplete(head));
    var over, nothing := Over(head), Emit(log1, MessageComplete);
    if q.flags.transferEncoding && q.flags.contentLength then Failed(UNEXPECTED_CONTENT_LENGTH, n - 1)
    else
      match BodyAs(head)
      case NoBody => Running(over, nothing)
      case OtherProtocol => Exited(over, nothing, n)
      case InChunks => Running(head.(state := ChunkSizeStart), log1)
      case OfLength => Running(head.(state := BodyIdentity), log1)
      case UntilClosed => Running(head.(state := BodyIdentityEof), log1)
      case NotAllowed => Failed(INVALID_TRANSFER_ENCODING, n - 1)
  }

  lemma HeadCr(q: Parser, log: seq<Event>, max: nat)
    requires Valid(q) && q.state.HeaderFieldStart? && q.nread + 1 <= max
    ensures Run(q, log, [CR], max) == Running(q.(nread := q.nread + 1, state := HeadersAlmostDone), log)
  {
    hide Valid, Emit, AtUrl, AtVersion, StartLineByte;
    OneByte(q, log, CR, max);
  }

  lemma NotifiedTwice(log: seq<Event>, e: Event, e': Event, ch: octet)
    ensures AtEnd(DoAll(Calls(NoMark, log), [Notify(e), Notify(e')], [ch], 0), [ch]) == Emit(Emit(log, e), e')
  {
    hide Emit;
    var acts := [Notify(e), Notify(e')];
    var once := Calls(NoMark, Emit(log, e));
    assert acts[1..] == [Notify(e')];
    assert Do(Calls(NoMark, log), acts[0], [ch], 0) == once;
    assert DoAll(Calls(NoMark, log), acts, [ch], 0) == DoAll(once, acts[1..], [ch], 0);
    Notified(Emit(log, e), e', ch);
  }

  /** What the line feed at the end of a head comes to. */
  function HeadOutcome(head: Parser): Outcome {
    var done, acts := Notify(HeadersComplete(head)), [Notify(HeadersComplete(head)), Notify(MessageComplete)];
    match BodyAs(head)
    case NoBody => Next(Over(head), acts)
    case OtherProtocol => Exit(Over(head), acts)
    case InChunks => Next(head.(state := ChunkSizeStart), [done])
    case OfLength => Next(head.(state := BodyIdentity), [done])
    case UntilClosed => Next(head.(state := BodyIdentityEof), [done])
    case NotAllowed => Fail(INVALID_TRANSFER_ENCODING)
  }

  lemma HeadDone(q: Parser)
    ensures var head := q.(nread := 0);
            After([Notify(HeadersComplete(head))], AtHeadersDone(q, LF)) == HeadOutcome(head)
  {
    hide NewMessage, Over;
    var head := q.(nread := 0);
    assert [Notify(HeadersComplete(head))] + [Notify(MessageComplete)]
        == [Notify(HeadersComplete(head)), Notify(MessageComplete)];
    assert [Notify(HeadersComplete(head))] + [] == [Notify(HeadersComplete(head))];
    Hundreds(q.status);
    MessageOver(head);
  }

  lemma HeadLfByte(q: Parser)
    requires Valid(q) && q.state.HeadersAlmostDone? && !q.flags.trailing
    ensures Byte(q, LF) == if q.flags.transferEncoding && q.flags.contentLength then Fail(UNEXPECTED_CONTENT_LENGTH)
                           else HeadOutcome(q.(nread := 0, state := HeadersDone, upgrade := Switches(q)))
  {
    hide Valid, HeadOutcome, AtHeadersDone, After, AtUrl, AtVersion, StartLineByte;
    HeadDone(q.(state := HeadersDone, upgrade := Switches(q)));
  }

  lemma HeadLf(q: Parser, log: seq<Event>, max: nat)
    requires Valid(q) && q.state.HeadersAlmostDone? && !q.flags.trailing && q.nread + 1 <= max
    ensures Run(q, log, [LF], max) == AfterHead(q, log, 1)
  {
    hide Valid, Emit, Byte, DoAll, AtEnd, BodyAs, Switches, Over;
    CountedValid(q);
    HeadLfByte(Counted(q));
    OneByte(q, log, LF, max);
    var head := q.(nread := 0, state := HeadersDone, upgrade := Switches(q));
    CountedSwitches(q);
    Notified(log, HeadersComplete(head), LF);
    NotifiedTwice(log, HeadersComplete(head), MessageComplete, LF);
  }

  lemma CountedSwitches(q: Parser)
    ensures Switches(Counted(q)) == Switches(q)
  {
  }

  /** The empty line ends the head, and what its fields said decides how the body is found. */
  lemma HeadEnds(q: Parser, log: seq<Event>, max: nat)
    requires Valid(q) && q.state.HeaderFieldStart? && !q.flags.trailing && q.nread + 2 <= max
    ensures Run(q, log, [CR, LF], max) == AfterHead(q, log, 2)
  {
    hide Valid, Emit, Run, BodyAs, Over;
    assert [CR] + [LF] == [CR, LF];
    HeadCr(q, log, max);
    RunConcat(q, log, [CR], [LF], max);
    HeadLf(q.(nread := q.nread + 1, state := HeadersAlmostDone), log, max);
  }

  lemma TrailerLf(q: Parser, log: seq<Event>, max: nat)
    requires Valid(q) && q.state.HeadersAlmostDone? && q.flags.trailing && q.nread + 1 <= max
    ensures var over, log' := Over(q.(nread := q.nread + 1)), Emit(Emit(log, ChunkComplete), MessageComplete);
            Run(q, log, [LF], max) == if q.upgrade then Exited(over, log', 1) else Running(over, log')
  {
    hide Valid, Emit, Byte, DoAll, AtEnd, NewMessage, Over;
    OneByte(q, log, LF, max);
    CountedValid(q);
    TrailerLfByte(Counted(q));
    NotifiedTwice(log, ChunkComplete, MessageComplete, LF);
    MessageOver(Counted(q));
  }

  lemma TrailerLfByte(q: Parser)
    requires Valid(q) && q.state.HeadersAlmostDone? && q.flags.trailing
    ensures var acts := [Notify(ChunkComplete), Notify(MessageComplete)];
            Byte(q, LF) == if q.upgrade then Exit(NewMessage(q), acts) else Next(NewMessage(q), acts)
  {
    hide Valid, NewMessage, AtUrl, AtVersion, StartLineByte;
    assert [Notify(ChunkComplete)] + [Notify(MessageComplete)] == [Notify(ChunkComplete), Notify(MessageComplete)];
    DoneAlike(q);
  }

  lemma DoneAlike(q: Parser)
    ensures NewMessage(q.(state := MessageDone)) == NewMessage(q)
  {
  }

  /** The empty line behind the last chunk and its trailer ends the message. */
  lemma TrailerEnds(q: Parser, log: seq<Event>, max: nat)
    requires Valid(q) && q.state.HeaderFieldStart? && q.flags.trailing && q.nread + 2 <= max
    ensures var over, log' := Over(q.(nread := q.nread + 2)), Emit(Emit(log, ChunkComplete), MessageComplete);
            Run(q, log, [CR, LF], max) == if q.upgrade then Exited(over, log', 2) else Running(over, log')
  {
    hide Valid, Emit, Run, Lasts;
    assert [CR] + [LF] == [CR, LF];
    HeadCr(q, log, max);
    RunConcat(q, log, [CR], [LF], max);
    TrailerLf(q.(nread := q.nread + 1, state := HeadersAlmostDone), log, max);
    LastsAlike(q.(nread := q.nread + 2), HeadersAlmostDone);
  }

  lemma LastsAlike(q: Parser, s: State)
    ensures Lasts(q.(state := s)) == Lasts(q)
  {
  }

  // ----- start lines

  lemma Followed(q: Parser, log: seq<Event>, a: seq<octet>, q1: Parser, log1: seq<Event>, b: seq<octet>, max: nat)
    requires Valid(q) && Run(q, log, a, max) == Running(q1, log1)
    ensures Valid(q1) && Run(q, log, a + b, max) == Then(Running(q1, log1), b, max, |a|)
  {
    hide Valid, Run;
    RunConcat(q, log, a, b, max);
  }

  /** A byte that only changes fields. */
  lemma Quietly(q: Parser, log: seq<Event>, c: octet, q': Parser, max: nat)
    requires Valid(q) && q.nread + 1 <= max && EntryPart(q.state).NoEntry?
    requires Valid(Counted(q)) && Byte(Counted(q), c) == Next(q', [])
    ensures Run(q, log, [c], max) == Running(q', log)
  {
    hide Valid, Emit, Byte;
    OneByte(q, log, c, max);
  }

  /** The fixed characters of a status line. */
  function FixedNext(s: State, c: octet): State {
    match s
    case ResH => if c == 'T' then ResHT else Dead
    case ResHT => if c == 'T' then ResHTT else Dead
    case ResHTT => if c == 'P' then ResHTTP else Dead
    case ResHTTP => if c == '/' then ResHttpMajor else Dead
    case ResHttpDot => if c == '.' then ResHttpMinor else Dead
    case ResHttpEnd => if c == ' ' then ResFirstStatusCode else Dead
    case ResLineAlmostDone => if c == LF then HeaderFieldStart else Dead
    case _ => Dead
  }

  lemma FixedByte(q: Parser, log: seq<Event>, c: octet, max: nat)
    requires Valid(q) && q.nread + 1 <= max && !FixedNext(q.state, c).Dead?
    ensures Run(q, log, [c], max) == Running(q.(nread := q.nread + 1, state := FixedNext(q.state, c)), log)
  {
    hide Valid, Run, AtUrl, AtRequestVersion, RequestLineByte, HeaderOrBodyByte;
    CountedValid(q);
    Quietly(q, log, c, q.(nread := q.nread + 1, state := FixedNext(q.state, c)), max);
  }

  lemma ResponseStarts(q: Parser, log: seq<Event>, max: nat)
    requires Valid(q) && q.state.StartRes? && q.nread + 1 <= max
    ensures Run(q, log, ['H'], max)
         == Running(q.(nread := q.nread + 1, flags := NO_FLAGS, contentLength := ULLONG_MAX, state := ResH),
                    Emit(log, MessageBegin))
  {
    hide Valid, Emit, DoAll, AtEnd, AtUrl, AtVersion;
    OneByte(q, log, 'H', max);
    Notified(log, MessageBegin, 'H');
  }

  lemma MajorDigit(q: Parser, log: seq<Event>, d: octet, max: nat)
    requires Valid(q) && q.nread + 1 <= max && IsNum(d) && (q.state.ResHttpMajor? || q.state.ReqHttpMajor?)
    ensures Run(q, log, [d], max)
         == Running(q.(nread := q.nread + 1, major := Unhex(d), state := if q.state.ResHttpMajor? then ResHttpDot else ReqHttpDot),
                    log)
  {
    hide Valid, Run, AtUrl, StartLineByte, HeaderOrBodyByte;
    CountedValid(q);
    Quietly(q, log, d, q.(nread := q.nread + 1, major := Unhex(d),
                          state := if q.state.ResHttpMajor? then ResHttpDot else ReqHttpDot), max);
  }

  lemma MinorDigit(q: Parser, log: seq<Event>, d: octet, max: nat)
    requires Valid(q) && q.nread + 1 <= max && IsNum(d) && (q.state.ResHttpMinor? || q.state.ReqHttpMinor?)
    ensures Run(q, log, [d], max)
         == Running(q.(nread := q.nread + 1, minor := Unhex(d), state := if q.state.ResHttpMinor? then ResHttpEnd else ReqHttpEnd),
                    log)
  {
    hide Valid, Run, AtUrl, StartLineByte, HeaderOrBodyByte;
    CountedValid(q);
    Quietly(q, log, d, q.(nread := q.nread + 1, minor := Unhex(d),
                          state := if q.state.ResHttpMinor? then ResHttpEnd else ReqHttpEnd), max);
  }

  // ----- status codes

  lemma FirstStatusDigit(q: Parser, log: seq<Event>, d: octet, max: nat)
    requires Valid(q) && q.state.ResFirstStatusCode? && IsNum(d) && q.nread + 1 <= max
    ensures Run(q, log, [d], max) == Running(q.(nread := q.nread + 1, status := Unhex(d), state := ResStatusCode), log)
  {
    hide Valid, Run;
    CountedValid(q);
    Quietly(q, log, d, q.(nread := q.nread + 1, status := Unhex(d), state := ResStatusCode), max);
  }

  lemma StatusDigit(q: Parser, log: seq<Event>, d: octet, max: nat, n: nat)
    requires Valid(q) && q.state.ResStatusCode? && IsNum(d) && q.nread + 1 <= max
    ensures var status := q.status * 10 + Unhex(d);
            Step(q, log, d, max, n) == if status > 999 then Failed(INVALID_STATUS, n)
                                       else Running(q.(nread := q.nread + 1, status := status), log)
  {
    hide Valid, Emit, AtUrl, AtVersion;
  }

  lemma {:induction false} StatusDigits(q: Parser, log: seq<Event>, ds: seq<octet>, max: nat)
    requires Valid(q) && q.state.ResStatusCode? && Digits(ds) && q.nread + |ds| <= max && q.status <= 999
    ensures forall i :: 0 <= i < |ds| ==> Unhex(ds[i]) >= 0
    ensures var r, status := Run(q, log, ds, max), Number(q.status, ds, 10);
            if status > 999 then r.Failed? && r.errno == INVALID_STATUS
            else r == Running(q.(nread := q.nread + |ds|, status := status), log)
  {
    hide Valid, Step;
    DigitsAreHex(ds);
    if ds != [] {
      var last := |ds| - 1;
      StatusDigits(q, log, ds[..last], max);
      NumberGrows(q.status, ds[..last] + [ds[last]], 10);
      assert ds[..last] + [ds[last]] == ds;
      var r := Run(q, log, ds[..last], max);
      if r.Running? {
        StatusDigit(r.q, log, ds[last], max, last);
      }
    }
  }

  /** The status is exactly the number written; it is refused exactly if it has more than three digits to it. */
  lemma StatusExact(q: Parser, log: seq<Event>, ds: seq<octet>, max: nat)
    requires Valid(q) && q.state.ResFirstStatusCode? && ds != [] && Digits(ds) && q.nread + |ds| <= max
    ensures forall i :: 0 <= i < |ds| ==> Unhex(ds[i]) >= 0
    ensures var r, status := Run(q, log, ds, max), Number(0, ds, 10);
            if status > 999 then r.Failed? && r.errno == INVALID_STATUS
            else r == Running(q.(nread := q.nread + |ds|, status := status, state := ResStatusCode), log)
  {
    hide Valid, Run, Number;
    DigitsAreHex(ds);
    var first, rest := [ds[0]], ds[1..];
    assert ds == first + rest;
    NumberSplit(ds[0], rest, 10);
    FirstStatusDigit(q, log, ds[0], max);
    Followed(q, log, first, Run(q, log, first, max).q, log, rest, max);
    StatusDigits(Run(q, log, first, max).q, log, rest, max);
  }

  // ----- status lines

  lemma ResponseProtocol(q: Parser, log: seq<Event>, max: nat)
    requires Valid(q) && q.state.StartRes? && q.nread + 5 <= max
    ensures Run(q, log, PROTOCOL, max)
         == Running(q.(nread := q.nread + 5, flags := NO_FLAGS, contentLength := ULLONG_MAX, state := ResHttpMajor),
                    Emit(log, MessageBegin))
  {
    hide Valid, Run, Emit;
    var log1 := Emit(log, MessageBegin);
    ResponseStarts(q, log, max);
    var q1 := Run(q, log, ['H'], max).q;
    Followed(q, log, ['H'], q1, log1, ['T'], max);
    FixedByte(q1, log1, 'T', max);
    var q2 := q1.(nread := q1.nread + 1, state := ResHT);
    assert ['H'] + ['T'] == ['H', 'T'];
    Followed(q, log, ['H', 'T'], q2, log1, ['T'], max);
    FixedByte(q2, log1, 'T', max);
    var q3 := q2.(nread := q2.nread + 1, state := ResHTT);
    assert ['H', 'T'] + ['T'] == ['H', 'T', 'T'];
    Followed(q, log, ['H', 'T', 'T'], q3, log1, ['P'], max);
    FixedByte(q3, log1, 'P', max);
    var q4 := q3.(nread := q3.nread + 1, state := ResHTTP);
    assert ['H', 'T', 'T'] + ['P'] == ['H', 'T', 'T', 'P'];
    Followed(q, log, ['H', 'T', 'T', 'P'], q4, log1, ['/'], max);
    FixedByte(q4, log1, '/', max);
    assert ['H', 'T', 'T', 'P'] + ['/'] == PROTOCOL;
  }

  const PROTOCOL: seq<octet> := ['H', 'T', 'T', 'P', '/']

  lemma ResponseVersion(q: Parser, log: seq<Event>, major: octet, minor: octet, max: nat)
    requires Valid(q) && q.state.ResHttpMajor? && IsNum(major) && IsNum(minor) && q.nread + 4 <= max
    ensures Run(q, log, [major, '.', minor, ' '], max)
         == Running(q.(nread := q.nread + 4, major := Unhex(major), minor := Unhex(minor), state := ResFirstStatusCode), log)
  {
    hide Valid, Run, IsNum;
    MajorDigit(q, log, major, max);
    var q1 := q.(nread := q.nread + 1, major := Unhex(major), state := ResHttpDot);
    Followed(q, log, [major], q1, log, ['.'], max);
    FixedByte(q1, log, '.', max);
    var q2 := q1.(nread := q1.nread + 1, state := ResHttpMinor);
    assert [major] + ['.'] == [major, '.'];
    Followed(q, log, [major, '.'], q2, log, [minor], max);
    MinorDigit(q2, log, minor, max);
    var q3 := q2.(nread := q2.nread + 1, minor := Unhex(minor), state := ResHttpEnd);
    assert [major, '.'] + [minor] == [major, '.', minor];
    Followed(q, log, [major, '.', minor], q3, log, [' '], max);
    FixedByte(q3, log, ' ', max);
    assert [major, '.', minor] + [' '] == [major, '.', minor, ' '];
  }

  // ----- reason phrases

  predicate OnLine(s: seq<octet>) {
    forall i :: 0 <= i < |s| ==> s[i] != CR && s[i] != LF
  }

  lemma MarkedAndFlushed(log: seq<Event>, part: Part, ch: octet)
    ensures AtEnd(DoAll(Calls(NoMark, log), [Mark(part), Flush(part)], [ch], 0), [ch]) == Emit(log, Data(part, []))
  {
    hide Emit;
    var acts := [Mark(part), Flush(part)];
    var c := Calls(NoMark, log);
    var c1, c2 := Calls(At(part, 0), log), Calls(NoMark, Emit(log, Data(part, [])));
    assert acts[1..] == [Flush(part)] && [ch][0..0] == [];
    assert Do(c, acts[0], [ch], 0) == c1 && Do(c1, Flush(part), [ch], 0) == c2;
    assert DoAll(c1, [Flush(part)], [ch], 0) == c2 by {
      assert [Flush(part)][1..] == [];
    }
    assert DoAll(c, acts, [ch], 0) == DoAll(c1, acts[1..], [ch], 0);
  }

  /** The end of a status line without a reason. */
  lemma NoReason(q: Parser, log: seq<Event>, max: nat)
    requires Valid(q) && (q.state.ResStatusCode? || q.state.ResStatusStart?) && q.nread + 1 <= max
    ensures Run(q, log, [CR], max)
         == Running(q.(nread := q.nread + 1, state := ResLineAlmostDone, index := 0), Emit(log, Data(STATUS, [])))
  {
    hide Valid, Emit, DoAll, AtEnd, AtUrl, AtVersion;
    OneByte(q, log, CR, max);
    assert [Mark(STATUS)] + [Flush(STATUS)] == [Mark(STATUS), Flush(STATUS)];
    MarkedAndFlushed(log, STATUS, CR);
  }

  lemma ReasonFollows(q: Parser, log: seq<Event>, max: nat)
    requires Valid(q) && q.state.ResStatusCode? && q.nread + 1 <= max
    ensures Run(q, log, [' '], max) == Running(q.(nread := q.nread + 1, state := ResStatusStart), log)
  {
    hide Valid, Run, AtUrl, AtVersion, HeaderOrBodyByte;
    CountedValid(q);
    Quietly(q, log, ' ', q.(nread := q.nread + 1, state := ResStatusStart), max);
  }

  lemma ReasonStarts(q: Parser, log: seq<Event>, c: octet, max: nat)
    requires Valid(q) && q.state.ResStatusStart? && q.nread + 1 <= max && c != CR && c != LF
    ensures Run(q, log, [c], max)
         == Running(q.(nread := q.nread + 1, state := ResStatus, index := 0), Emit(log, Data(STATUS, [c])))
  {
    hide Valid, Emit, DoAll, AtEnd, AtUrl, AtVersion;
    OneByte(q, log, c, max);
    assert [Mark(STATUS)] + [] == [Mark(STATUS)];
    Marks(log, STATUS, c);
  }

  lemma ReasonByte(q: Parser, log: seq<Event>, c: octet, max: nat, n: nat)
    requires Valid(q) && q.state.ResStatus? && q.nread + 1 <= max && c != CR && c != LF
    ensures Step(q, log, c, max, n) == Running(q.(nread := q.nread + 1), Emit(log, Data(STATUS, [c])))
  {
    hide Valid, Emit, AtUrl, AtVersion;
    assert [c][0..] == [c];
  }

  lemma {:induction false} ReasonGoesOn(q: Parser, log: seq<Event>, s: seq<octet>, max: nat)
    requires Valid(q) && q.state.ResStatus? && OnLine(s) && q.nread + |s| <= max
    ensures Run(q, log, s, max) == Running(q.(nread := q.nread + |s|), With(log, STATUS, s))
  {
    hide Valid, Step, Emit;
    if s != [] {
      var last := |s| - 1;
      ReasonGoesOn(q, log, s[..last], max);
      ReasonByte(q.(nread := q.nread + last), With(log, STATUS, s[..last]), s[last], max, last);
      EmitMore(log, STATUS, s[..last], [s[last]]);
      assert s[..last] + [s[last]] == s;
    }
  }

  lemma ReasonEnds(q: Parser, log: seq<Event>, reason: seq<octet>, max: nat)
    requires Valid(q) && q.state.ResStatus? && q.nread + 1 <= max
    ensures Run(q, Emit(log, Data(STATUS, reason)), [CR], max)
         == Running(q.(nread := q.nread + 1, state := ResLineAlmostDone), Emit(log, Data(STATUS, reason)))
  {
    hide Valid, Emit, DoAll, AtEnd, AtUrl, AtVersion;
    OneByte(q, Emit(log, Data(STATUS, reason)), CR, max);
    Flushes(log, STATUS, reason, CR);
  }

  /** A status line: the digits of the version, the code, and perhaps a reason. */
  datatype StatusLine = StatusLine(major: octet, minor: octet, code: seq<octet>, reason: Option<seq<octet>>)

  predicate StatusLineOk(line: StatusLine) {
    && IsNum(line.major) && IsNum(line.minor) && line.code != [] && Digits(line.code)
    && (line.reason.Some? ==> OnLine(line.reason.value))
  }

  function Phrase(line: StatusLine): seq<octet> {
    if line.reason.Some? then line.reason.value else []
  }

  function ReasonPart(line: StatusLine): seq<octet> {
    if line.reason.Some? then [BLANK] + line.reason.value else []
  }

  const BLANK: octet := ' '

  function StatusBytes(line: StatusLine): seq<octet> {
    PROTOCOL + [line.major, '.', line.minor, ' '] + line.code + ReasonPart(line) + [CR, LF]
  }

  lemma PhraseRead(q: Parser, log: seq<Event>, phrase: seq<octet>, max: nat)
    requires Valid(q) && q.state.ResStatusStart? && OnLine(phrase) && q.nread + |phrase| + 1 <= max
    ensures Run(q, log, phrase + [CR], max)
         == Running(q.(nread := q.nread + |phrase| + 1, state := ResLineAlmostDone, index := 0),
                    Emit(log, Data(STATUS, phrase)))
  {
    hide Valid, Run, Emit;
    if phrase == [] {
      assert [] + [CR] == [CR];
      NoReason(q, log, max);
    } else {
      var first, rest := [phrase[0]], phrase[1..];
      var log1 := Emit(log, Data(STATUS, first));
      assert phrase == first + rest;
      ReasonStarts(q, log, phrase[0], max);
      var q1 := q.(nread := q.nread + 1, state := ResStatus, index := 0);
      Followed(q, log, first, q1, log1, rest, max);
      ReasonGoesOn(q1, log1, rest, max);
      WithWith(log, STATUS, first, rest);
      var q2 := q1.(nread := q1.nread + |rest|);
      Followed(q, log, phrase, q2, Emit(log, Data(STATUS, phrase)), [CR], max);
      ReasonEnds(q2, log, phrase, max);
    }
  }

  /** The end of a status line, with or without a reason. */
  lemma ReasonRead(q: Parser, log: seq<Event>, line: StatusLine, max: nat)
    requires Valid(q) && q.state.ResStatusCode? && StatusLineOk(line) && q.nread + |ReasonPart(line)| + 2 <= max
    ensures Run(q, log, ReasonPart(line) + [CR, LF], max)
         == Running(q.(nread := q.nread + |ReasonPart(line)| + 2, state := HeaderFieldStart, index := 0),
                    Emit(log, Data(STATUS, Phrase(line))))
  {
    hide Valid, Run, Emit;
    var q3 := q.(nread := q.nread + |ReasonPart(line)| + 1, state := ResLineAlmostDone, index := 0);
    var log' := Emit(log, Data(STATUS, Phrase(line)));
    assert Run(q, log, ReasonPart(line) + [CR], max) == Running(q3, log') by {
      if line.reason.Some? {
        ReasonFollows(q, log, max);
        var q1 := q.(nread := q.nread + 1, state := ResStatusStart);
        Followed(q, log, [BLANK], q1, log, line.reason.value + [CR], max);
        PhraseRead(q1, log, line.reason.value, max);
        assert [BLANK] + (line.reason.value + [CR]) == ReasonPart(line) + [CR];
      } else {
        NoReason(q, log, max);
        assert [] + [CR] == [CR];
      }
    }
    Followed(q, log, ReasonPart(line) + [CR], q3, log', [LF], max);
    FixedByte(q3, log', LF, max);
    assert ReasonPart(line) + [CR] + [LF] == ReasonPart(line) + [CR, LF];
  }

  /** The beginning of a status line, up to the code. */
  lemma CodeFollows(q: Parser, log: seq<Event>, major: octet, minor: octet, max: nat)
    requires Valid(q) && q.state.StartRes? && IsNum(major) && IsNum(minor) && q.nread + 9 <= max
    ensures Run(q, log, PROTOCOL + [major, '.', minor, ' '], max)
         == Running(q.(nread := q.nread + 9, flags := NO_FLAGS, contentLength := ULLONG_MAX, major := Unhex(major),
                       minor := Unhex(minor), state := ResFirstStatusCode), Emit(log, MessageBegin))
  {
    hide Valid, Run, Emit, IsNum;
    ResponseProtocol(q, log, max);
    var q1, log1 := Run(q, log, PROTOCOL, max).q, Emit(log, MessageBegin);
    Followed(q, log, PROTOCOL, q1, log1, [major, '.', minor, ' '], max);
    ResponseVersion(q1, log1, major, minor, max);
  }

  /** A status line: its version and status are the numbers written, and a status above 999 is refused. */
  lemma StatusLineRead(q: Parser, log: seq<Event>, line: StatusLine, max: nat)
    requires Valid(q) && q.state.StartRes? && StatusLineOk(line) && q.nread + |StatusBytes(line)| <= max
    ensures forall i :: 0 <= i < |line.code| ==> Unhex(line.code[i]) >= 0
    ensures Unhex(line.major) >= 0 && Unhex(line.minor) >= 0
    ensures var r, status := Run(q, log, StatusBytes(line), max), Number(0, line.code, 10);
            if status > 999 then r.Failed? && r.errno == INVALID_STATUS
            else r == Running(q.(nread := q.nread + |StatusBytes(line)|, flags := NO_FLAGS, contentLength := ULLONG_MAX,
                                 major := Unhex(line.major), minor := Unhex(line.minor), status := status, index := 0,
                                 state := HeaderFieldStart),
                              Emit(Emit(log, MessageBegin), Data(STATUS, Phrase(line))))
  {
    hide Valid, Run, Emit, Number, Digits, IsNum, ReasonPart;
    DigitsAreHex(line.code);
    DigitsAreHex([line.major, line.minor]);
    CodeFollows(q, log, line.major, line.minor, max);
    var start, end := PROTOCOL + [line.major, '.', line.minor, ' '], ReasonPart(line) + [CR, LF];
    var q1, log1 := Run(q, log, start, max).q, Emit(log, MessageBegin);
    assert StatusBytes(line) == start + line.code + end;
    Followed(q, log, start, q1, log1, line.code, max);
    StatusExact(q1, log1, line.code, max);
    RunConcat(q, log, start + line.code, end, max);
    var r := Run(q, log, start + line.code, max);
    if r.Running? {
      ReasonRead(r.q, log1, line, max);
    }
  }

  // ----- heads

  lemma {:induction false} ListFlagsKeep(f: Family, items: seq<seq<octet>>, flags: Flags)
    ensures ListFlags(f, items, flags).trailing == flags.trailing
    decreases |items|, 1
  {
    hide ItemOf, Opens;
    if items != [] {
      var item := Stripped(items[0]);
      if item != [] && Opens(item[0]) {
        ItemFlagsKeep(f, item, items[1..], flags);
      }
    }
  }

  lemma {:induction false} ItemFlagsKeep(f: Family, item: seq<octet>, rest: seq<seq<octet>>, flags: Flags)
    requires item != []
    ensures ItemFlags(f, item, rest, flags).trailing == flags.trailing
    decreases |rest| + 1, 0
  {
    hide ItemOf, ListFlags, Added;
    var without := if rest == [] then [] else rest[1..];
    ListFlagsKeep(f, without, flags);
    ListFlagsKeep(f, rest, flags);
    if ItemOf(f, item).Is? {
      AddedKeeps(flags, ItemOf(f, item).word);
      ListFlagsKeep(f, rest, Added(flags, ItemOf(f, item).word));
    }
  }

  lemma AddedKeeps(flags: Flags, w: Word)
    ensures Added(flags, w).trailing == flags.trailing
  {
  }

  lemma AddsKeep(said: Said, field: Field)
    requires FieldOk(said, field)
    ensures Adds(said, field).flags.trailing == said.flags.trailing
  {
    hide FieldFlags, Same, IsName, IsValue, LengthOk, Blanks, Number, Digits;
    FieldFlagsKeep(said.flags, field.name, field.value);
  }

  lemma FieldFlagsKeep(flags: Flags, name: seq<octet>, value: seq<octet>)
    requires value != []
    ensures FieldFlags(flags, name, value).trailing == flags.trailing
  {
    hide ValueFlags, Items, Same, NamesCodings;
    ValueFlagsKeep(ConnectionOptions, Items(value), flags);
    ValueFlagsKeep(TransferCodings, Items(value),
                   flags.(transferEncoding := flags.transferEncoding || NamesCodings(name)));
  }

  lemma ValueFlagsKeep(f: Family, items: seq<seq<octet>>, flags: Flags)
    requires items != []
    ensures ValueFlags(f, items, flags).trailing == flags.trailing
  {
    hide ItemFlags, ListFlags;
    if items[0] != [] {
      ItemFlagsKeep(f, items[0], items[1..], flags);
    } else if |items| > 1 {
      ListFlagsKeep(f, items[2..], flags);
    }
  }

  lemma {:induction false} AddsAllKeep(said: Said, fields: seq<Field>)
    requires FieldsOk(said, fields)
    ensures AddsAll(said, fields).flags.trailing == said.flags.trailing
  {
    hide FieldOk, Adds;
    if fields != [] {
      var last := |fields| - 1;
      AddsAllKeep(said, fields[..last]);
      AddsKeep(AddsAll(said, fields[..last]), fields[last]);
    }
  }

  /** Same start line and same fields said: heads that are reported alike. */
  predicate HeadIs(h: Parser, q: Parser, said: Said) {
    h == q.(state := h.state, header := h.header, index := h.index, nread := h.nread, flags := said.flags,
            contentLength := said.length)
  }

  /** Fields and the empty line behind them: the head is reported with what the fields said, and decides what follows. */
  lemma FieldsEnd(q: Parser, log: seq<Event>, fields: seq<Field>, max: nat) returns (head: Parser)
    requires Valid(q) && q.state.HeaderFieldStart? && !q.flags.trailing
    requires FieldsOk(Said(q.flags, q.contentLength), fields) && q.nread + |Lines(fields)| + 2 <= max
    ensures HeadIs(head, q, AddsAll(Said(q.flags, q.contentLength), fields))
    ensures Run(q, log, Lines(fields) + [CR, LF], max) == AfterHead(head, FieldsLog(log, fields), |Lines(fields)| + 2)
  {
    hide Valid, Run, Emit, FieldsOk, AddsAll, BodyAs, Over, Switches, FieldOk, FinishedFlags;
    var said := Said(q.flags, q.contentLength);
    AddsAllKeep(said, fields);
    if fields == [] {
      assert Lines(fields) == [] && [] + [CR, LF] == [CR, LF];
      HeadEnds(q, log, max);
      NoFields(said);
      return q;
    }
    FieldsRead(q, log, fields, max);
    var r := Run(q, log, Lines(fields), max);
    RunConcat(q, log, Lines(fields), [CR, LF], max);
    SettledRun(r.q, r.log, [CR, LF], max);
    head := Settled(r.q);
    HeadEnds(head, r.log, max);
  }

  lemma NoFields(said: Said)
    ensures FieldsOk(said, []) && AddsAll(said, []) == said
  {
  }

  /**
    The head of a response: everything in it is handed out in order, its version and status are the numbers written,
    and its fields say what they add up to.
   */
  lemma ResponseHead(q: Parser, log: seq<Event>, line: StatusLine, fields: seq<Field>, max: nat) returns (head: Parser)
    requires Valid(q) && q.state.StartRes? && StatusLineOk(line) && FieldsOk(Said(NO_FLAGS, ULLONG_MAX), fields)
    requires q.nread + |StatusBytes(line)| + |Lines(fields)| + 2 <= max
    ensures forall i :: 0 <= i < |line.code| ==> Unhex(line.code[i]) >= 0
    ensures Unhex(line.major) >= 0 && Unhex(line.minor) >= 0
    ensures var bytes, status := StatusBytes(line) + Lines(fields) + [CR, LF], Number(0, line.code, 10);
            var r := Run(q, log, bytes, max);
            if status > 999 then r.Failed? && r.errno == INVALID_STATUS
            else
              && head.status == status && head.major == Unhex(line.major) && head.minor == Unhex(line.minor)
              && Said(head.flags, head.contentLength) == AddsAll(Said(NO_FLAGS, ULLONG_MAX), fields)
              && head.kind == q.kind && head.verb == q.verb
              && r == AfterHead(head, FieldsLog(Emit(Emit(log, MessageBegin), Data(STATUS, Phrase(line))), fields), |bytes|)
  {
    hide Valid, Run, Emit, FieldsOk, AddsAll, BodyAs, Over, Switches, Number, StatusBytes, Lines, FieldsLog, StatusLineOk;
    var start, end := StatusBytes(line), Lines(fields) + [CR, LF];
    StatusLineRead(q, log, line, max);
    RunConcat(q, log, start, end, max);
    assert start + end == start + Lines(fields) + [CR, LF];
    head := q;
    var r := Run(q, log, start, max);
    if r.Running? {
      head := FieldsEnd(r.q, r.log, fields, max);
    }
  }
}
