/**
  What the HTTP parser makes of header fields: which names it knows, and which words it finds in the values of
  Connection and Transfer-Encoding.
 */
module HttpFields {
  import opened HttpChars
  import opened HttpMachine
  import opened HttpRun
  import opened HttpStretch
  import opened HttpLaws

  // ----- words, in capitals or not

  predicate SameLetter(c: octet, l: char) {
    c == l || ('a' <= l <= 'z' && c as int + 32 == l as int)
  }

  /** Some bytes are the beginning of a word, or all of it. */
  predicate Begins(s: seq<octet>, word: string) {
    |s| <= |word| && forall i :: 0 <= i < |s| ==> SameLetter(s[i], word[i])
  }

  predicate Same(s: seq<octet>, word: string) {
    |s| == |word| && Begins(s, word)
  }

  lemma BeginsMore(s: seq<octet>, c: octet, word: string)
    ensures Begins(s + [c], word) <==> Begins(s, word) && |s| < |word| && SameLetter(c, word[|s|])
  {
    var t := s + [c];
    if Begins(t, word) {
      assert SameLetter(t[|s|], word[|s|]);
      forall i | 0 <= i < |s|
        ensures SameLetter(s[i], word[i])
      {
        assert SameLetter(t[i], word[i]);
      }
    }
  }

  predicate WordLetter(l: char) {
    'a' <= l <= 'z' || l == '-'
  }

  lemma TokenLetter(c: octet, l: char)
    requires WordLetter(l)
    ensures Token(c) == l <==> SameLetter(c, l)
  {
  }

  lemma LowerLetter(c: octet, l: char)
    requires WordLetter(l) && c != CR
    ensures Lower(c) == l <==> SameLetter(c, l)
  {
  }

  // ----- names

  predicate IsName(name: seq<octet>) {
    name != [] && forall i :: 0 <= i < |name| ==> Token(name[i]) != '\0'
  }

  /** The parser after some of a name. */
  function NameRead(q: Parser, name: seq<octet>): Parser
    requires name != []
  {
    if |name| == 1 then q.(index := 0, state := HeaderField, header := FieldStart(Token(name[0])))
    else FieldByte(NameRead(q, name[..|name| - 1]), name[|name| - 1])
  }

  /** What a name, or the beginning of one, is taken for. */
  function NameHeader(name: seq<octet>): HeaderState {
    var k := |name|;
    if Begins(name, "connection") then
      if k <= 1 then C else if k == 2 then CO else if k == 3 then CON else if k < 10 then MatchingConnection else Connection
    else if Begins(name, "content-length") then if k < 14 then MatchingContentLength else ContentLength
    else if Begins(name, "proxy-connection") then if k < 16 then MatchingProxyConnection else Connection
    else if Begins(name, "transfer-encoding") then if k < 17 then MatchingTransferEncoding else TransferEncoding
    else if Begins(name, "upgrade") then if k < 7 then MatchingUpgrade else Upgrade
    else General
  }

  /** The words begin differently. */
  lemma Different(s: seq<octet>)
    requires s != []
    ensures Begins(s, "connection") || Begins(s, "content-length") ==> SameLetter(s[0], 'c')
    ensures Begins(s, "proxy-connection") ==> SameLetter(s[0], 'p')
    ensures Begins(s, "transfer-encoding") ==> SameLetter(s[0], 't')
    ensures Begins(s, "upgrade") ==> SameLetter(s[0], 'u')
    ensures |s| > 3 && Begins(s, "connection") ==> SameLetter(s[3], 'n')
    ensures |s| > 3 && Begins(s, "content-length") ==> SameLetter(s[3], 't')
    ensures |s| <= 3 ==> (Begins(s, "connection") <==> Begins(s, "content-length"))
  {
    var a, b := "connection", "content-length";
    assert a[0] == b[0] && a[1] == b[1] && a[2] == b[2];
  }

  lemma WordLetters()
    ensures forall i :: 0 <= i < 10 ==> WordLetter("connection"[i])
    ensures forall i :: 0 <= i < 14 ==> WordLetter("content-length"[i])
    ensures forall i :: 0 <= i < 16 ==> WordLetter("proxy-connection"[i])
    ensures forall i :: 0 <= i < 17 ==> WordLetter("transfer-encoding"[i])
    ensures forall i :: 0 <= i < 7 ==> WordLetter("upgrade"[i])
  {
  }

  predicate Comparing(h: HeaderState) {
    || h.C? || h.CO? || h.CON? || h.MatchingConnection? || h.MatchingContentLength? || h.MatchingProxyConnection?
    || h.MatchingTransferEncoding? || h.MatchingUpgrade?
  }

  predicate Tracks(q: Parser, name: seq<octet>) {
    q.header == NameHeader(name) && (Comparing(q.header) ==> q.index == |name| - 1)
  }

  /** A word that is compared with what is read. */
  lemma Compared(s: seq<octet>, c: octet, word: string)
    requires Begins(s, word) && |s| < |word| && WordLetter(word[|s|])
    ensures Begins(s + [c], word) <==> Token(c) == word[|s|]
  {
    hide Begins, Token;
    BeginsMore(s, c, word);
    TokenLetter(c, word[|s|]);
  }

  lemma NotOthers(s: seq<octet>, c: octet)
    requires s != []
    ensures !Begins(s, "connection") || |s| == 10 ==> !Begins(s + [c], "connection")
    ensures !Begins(s, "content-length") || |s| == 14 ==> !Begins(s + [c], "content-length")
    ensures !Begins(s, "proxy-connection") || |s| == 16 ==> !Begins(s + [c], "proxy-connection")
    ensures !Begins(s, "transfer-encoding") || |s| == 17 ==> !Begins(s + [c], "transfer-encoding")
    ensures !Begins(s, "upgrade") || |s| == 7 ==> !Begins(s + [c], "upgrade")
  {
    hide Begins;
    BeginsMore(s, c, "connection");
    BeginsMore(s, c, "content-length");
    BeginsMore(s, c, "proxy-connection");
    BeginsMore(s, c, "transfer-encoding");
    BeginsMore(s, c, "upgrade");
  }

  lemma FirstName(q: Parser, c: octet)
    ensures Tracks(NameRead(q, [c]), [c])
  {
    hide Token, Begins;
    Different([c]);
    Begun(c, "connection");
    Begun(c, "content-length");
    Begun(c, "proxy-connection");
    Begun(c, "transfer-encoding");
    Begun(c, "upgrade");
  }

  lemma Begun(c: octet, word: string)
    requires word != [] && WordLetter(word[0])
    ensures Begins([c], word) <==> Token(c) == word[0]
  {
    hide Token;
    TokenLetter(c, word[0]);
  }

  /** The first letters, which two words share. */
  lemma EarlyStep(q: Parser, s: seq<octet>, c: octet)
    requires s != [] && Tracks(q, s) && (q.header.C? || q.header.CO? || q.header.CON?)
    ensures Tracks(FieldByte(q, c), s + [c])
  {
    hide Token, Begins;
    NotOthers(s, c);
    Different(s);
    Different(s + [c]);
    WordLetters();
    Compared(s, c, "connection");
    Compared(s, c, "content-length");
    assert "connection"[1] == 'o' && "connection"[2] == 'n' && "connection"[3] == 'n' && "content-length"[3] == 't';
  }

  lemma MatchingStep(q: Parser, s: seq<octet>, c: octet)
    requires s != [] && Tracks(q, s) && Comparing(q.header) && !q.header.C? && !q.header.CO? && !q.header.CON?
    ensures Tracks(FieldByte(q, c), s + [c])
  {
    hide Token, Begins;
    NotOthers(s, c);
    Different(s);
    Different(s + [c]);
    WordLetters();
    match q.header
    case MatchingConnection => Compared(s, c, "connection");
    case MatchingContentLength => Compared(s, c, "content-length");
    case MatchingProxyConnection => Compared(s, c, "proxy-connection");
    case MatchingTransferEncoding => Compared(s, c, "transfer-encoding");
    case MatchingUpgrade => Compared(s, c, "upgrade");
  }

  lemma DoneStep(q: Parser, s: seq<octet>, c: octet)
    requires s != [] && Tracks(q, s) && !Comparing(q.header) && Token(c) != '\0'
    ensures Tracks(FieldByte(q, c), s + [c])
  {
    hide Begins;
    NotOthers(s, c);
    NotLonger(s);
    Different(s);
  }

  lemma NotLonger(s: seq<octet>)
    ensures Begins(s, "connection") ==> |s| <= 10
    ensures Begins(s, "content-length") ==> |s| <= 14
    ensures Begins(s, "proxy-connection") ==> |s| <= 16
    ensures Begins(s, "transfer-encoding") ==> |s| <= 17
    ensures Begins(s, "upgrade") ==> |s| <= 7
  {
  }

  lemma {:induction false} NameTracked(q: Parser, name: seq<octet>)
    requires IsName(name)
    ensures Tracks(NameRead(q, name), name)
  {
    hide Tracks, Token, FieldByte;
    if |name| == 1 {
      assert name == [name[0]];
      FirstName(q, name[0]);
    } else {
      var last := |name| - 1;
      var s, c := name[..last], name[last];
      NameTracked(q, s);
      assert s + [c] == name;
      var r := NameRead(q, s);
      if !Comparing(r.header) {
        DoneStep(r, s, c);
      } else if r.header.C? || r.header.CO? || r.header.CON? {
        EarlyStep(r, s, c);
      } else {
        MatchingStep(r, s, c);
      }
    }
  }

  /** The name is "transfer-encoding", or begins with it. */
  predicate NamesCodings(name: seq<octet>) {
    |name| >= 17 && Begins(name[..17], "transfer-encoding")
  }

  lemma CodingsStep(q: Parser, s: seq<octet>, c: octet)
    requires s != [] && Tracks(q, s) && Tracks(FieldByte(q, c), s + [c])
    ensures var q' := FieldByte(q, c);
            q' == q.(header := q'.header, index := q'.index,
                     flags := q.flags.(transferEncoding := q.flags.transferEncoding || Same(s + [c], "transfer-encoding")))
  {
    hide Token, Begins;
    var t := s + [c];
    NotLonger(s);
    NotLonger(t);
    NotOthers(s, c);
    Different(s);
  }

  lemma {:induction false} NameChanges(q: Parser, name: seq<octet>)
    requires IsName(name)
    ensures var r := NameRead(q, name);
            r == q.(state := HeaderField, header := NameHeader(name), index := r.index,
                    flags := q.flags.(transferEncoding := q.flags.transferEncoding || NamesCodings(name)))
  {
    hide Token, FieldByte, NameHeader, Begins;
    NameTracked(q, name);
    if |name| > 1 {
      var last := |name| - 1;
      var s, c := name[..last], name[last];
      assert s + [c] == name;
      NameChanges(q, s);
      NameTracked(q, s);
      CodingsStep(NameRead(q, s), s, c);
      CodingsNamed(s, c);
    }
  }

  lemma CodingsNamed(s: seq<octet>, c: octet)
    ensures NamesCodings(s + [c]) <==> NamesCodings(s) || Same(s + [c], "transfer-encoding")
  {
    hide Begins;
    var t := s + [c];
    if |t| == 17 {
      assert t[..17] == t;
    } else if |t| > 17 {
      assert t[..17] == s[..17];
    }
  }

  lemma {:induction false} NameIsPlain(q: Parser, name: seq<octet>)
    requires IsName(name)
    ensures PlainBytes(NameRead(q, name[..1]), name[1..]) == Ok(NameRead(q, name))
  {
    hide Token, FieldByte;
    NameChanges(q, name);
    if |name| == 1 {
      assert name[..1] == name;
    } else {
      var last := |name| - 1;
      NameIsPlain(q, name[..last]);
      assert name[..last][..1] == name[..1] && name[1..][..last - 1] == name[..last][1..];
      NameChanges(q, name[..last]);
    }
  }

  // ----- calls with one byte

  lemma Marks(log: seq<Event>, part: Part, ch: octet)
    ensures AtEnd(DoAll(Calls(NoMark, log), [Mark(part)], [ch], 0), [ch]) == Emit(log, Data(part, [ch]))
  {
    hide Emit;
    assert [ch][0..] == [ch];
    assert [Mark(part)][1..] == [];
  }

  lemma Flushes(log: seq<Event>, part: Part, bytes: seq<octet>, ch: octet)
    ensures var log' := Emit(log, Data(part, bytes));
            AtEnd(DoAll(Calls(At(part, 0), log'), [Flush(part)], [ch], 0), [ch]) == log'
  {
    hide Emit;
    EmitEmit(log, part, bytes, []);
    assert bytes + [] == bytes && [ch][0..0] == [];
    assert [Flush(part)][1..] == [];
  }

  // ----- the name of a field

  lemma NameStarts(q: Parser, log: seq<Event>, c: octet, max: nat)
    requires Valid(q) && q.state.HeaderFieldStart? && Token(c) != '\0' && q.nread + 1 <= max
    ensures Run(q, log, [c], max) == Running(NameRead(q, [c]).(nread := q.nread + 1), Emit(log, Data(FIELD, [c])))
  {
    hide Valid, Emit, DoAll, AtEnd, Token, FieldStart, AtUrl, AtVersion, StartLineByte;
    OneByte(q, log, c, max);
    LineEndsAreNoTokens();
    Marks(log, FIELD, c);
  }

  lemma LineEndsAreNoTokens()
    ensures Token(CR) == '\0' && Token(LF) == '\0' && Token(':') == '\0'
  {
  }

  lemma NameEnds(q: Parser, log: seq<Event>, name: seq<octet>, max: nat)
    requires Valid(q) && q.state.HeaderField? && q.nread + 1 <= max
    ensures Run(q, Emit(log, Data(FIELD, name)), [':'], max)
         == Running(q.(nread := q.nread + 1, state := HeaderValueDiscardWs), Emit(log, Data(FIELD, name)))
  {
    hide Valid, Emit, DoAll, AtEnd, Token, FieldByte, AtUrl, AtVersion, StartLineByte;
    OneByte(q, Emit(log, Data(FIELD, name)), ':', max);
    LineEndsAreNoTokens();
    Flushes(log, FIELD, name, ':');
  }

  /** The parser after the name of a field and the colon. */
  function Named(q: Parser, name: seq<octet>): Parser
    requires name != []
  {
    q.(nread := q.nread + |name| + 1, state := HeaderValueDiscardWs, header := NameHeader(name),
       index := NameRead(q, name).index,
       flags := q.flags.(transferEncoding := q.flags.transferEncoding || NamesCodings(name)))
  }

  /** The name is handed out as it is, and taken for what it is in small letters. */
  lemma FieldName(q: Parser, log: seq<Event>, name: seq<octet>, max: nat)
    requires Valid(q) && q.state.HeaderFieldStart? && IsName(name) && q.nread + |name| + 1 <= max
    ensures Run(q, log, name + [':'], max) == Running(Named(q, name), Emit(log, Data(FIELD, name)))
  {
    hide Valid, Run, Emit, Token, NameRead, NameHeader, Begins, FieldByte;
    var q1, log1 := NameRead(q, name[..1]).(nread := q.nread + 1), Emit(log, Data(FIELD, name[..1]));
    NameStarts(q, log, name[0], max);
    assert name[..1] == [name[0]] && name[..1] + name[1..] == name;
    RunConcat(q, log, name[..1], name[1..], max);
    NameIsPlain(q, name);
    NameChanges(q, name[..1]);
    NameChanges(q, name);
    PlainBytesCount(NameRead(q, name[..1]), name[1..], q.nread + 1);
    PlainRun(q1, log1, name[1..], max);
    PlainBytesKeep(q1, name[1..]);
    WithWith(log, FIELD, name[..1], name[1..]);
    RunConcat(q, log, name, [':'], max);
    NameEnds(Run(q, log, name, max).q, log, name, max);
  }
}
