/**
  The heads of HTTP requests: every method is recognized, request targets are accepted exactly if they have one of the
  forms of a target, and the version is the one written.
 */
module HttpRequests {
  import opened Options
  import opened HttpChars
  import opened HttpMachine
  import opened HttpRun
  import opened HttpStretch
  import opened HttpLaws
  import opened HttpFields
  import opened HttpValues
  import opened HttpHeads

  // ----- methods

  /** The method that is taken for the one being read, when `i` of its letters were read. */
  function GuessFor(m: Method, i: nat): Method {
    match m
    case PUT => if i < 2 then POST else m
    case PATCH => if i < 2 then POST else m
    case PROPFIND => if i < 2 then POST else m
    case PURGE => if i < 2 then POST else if i < 3 then PUT else m
    case PROPPATCH => if i < 2 then POST else if i < 5 then PROPFIND else m
    case CHECKOUT => if i < 2 then CONNECT else m
    case COPY => if i < 3 then CONNECT else m
    case MOVE => if i < 2 then MKCOL else m
    case MERGE => if i < 2 then MKCOL else m
    case MSEARCH => if i < 2 then MKCOL else m
    case MKACTIVITY => if i < 3 then MKCOL else m
    case MKCALENDAR => if i < 4 then MKCOL else m
    case SEARCH => if i < 2 then SUBSCRIBE else m
    case SOURCE => if i < 2 then SUBSCRIBE else m
    case REBIND => if i < 3 then REPORT else m
    case LINK => if i < 2 then LOCK else m
    case UNSUBSCRIBE => if i < 3 then UNLOCK else m
    case UNBIND => if i < 3 then UNLOCK else m
    case UNLINK => if i < 4 then UNLOCK else m
    case _ => m
  }

  /** Another letter of the method leads to the guess for it. */
  predicate Guessing(m: Method, i: nat)
    requires i < |Name(m)|
  {
    var g := GuessFor(m, i);
    if i < |Name(g)| && Name(g)[i] == Name(m)[i] then GuessFor(m, i + 1) == g
    else NextGuess(g, i, Written(m)[i]) == Guessed(GuessFor(m, i + 1))
  }

  lemma PostNames(m: Method, i: nat)
    requires m in {PUT, PATCH, PURGE} && 0 < i < |Name(m)|
    ensures Guessing(m, i)
  {
  }

  lemma FindNames(m: Method, i: nat)
    requires m in {PROPFIND, PROPPATCH} && 0 < i < |Name(m)|
    ensures Guessing(m, i)
  {
  }

  lemma MoveNames(m: Method, i: nat)
    requires m in {MOVE, MERGE, MSEARCH} && 0 < i < |Name(m)|
    ensures Guessing(m, i)
  {
  }

  lemma MakeNames(m: Method, i: nat)
    requires m in {MKACTIVITY, MKCALENDAR} && 0 < i < |Name(m)|
    ensures Guessing(m, i)
  {
  }

  lemma UnlockNames(m: Method, i: nat)
    requires m in {UNSUBSCRIBE, UNBIND, UNLINK} && 0 < i < |Name(m)|
    ensures Guessing(m, i)
  {
  }

  lemma LinkNames(m: Method, i: nat)
    requires m in {LINK, REBIND} && 0 < i < |Name(m)|
    ensures Guessing(m, i)
  {
  }

  lemma OtherNames(m: Method, i: nat)
    requires m in {CHECKOUT, COPY} && 0 < i < |Name(m)|
    ensures Guessing(m, i)
  {
  }

  lemma SearchNames(m: Method, i: nat)
    requires m in {SEARCH, SOURCE} && 0 < i < |Name(m)|
    ensures Guessing(m, i)
  {
  }

  predicate FirstFits(m: Method) {
    FirstGuess(Written(m)[0]) == Guessed(GuessFor(m, 1))
  }

  lemma FirstLetter(m: Method)
    ensures FirstFits(m)
  {
    hide Name, FirstGuess;
    if m in {DELETE, GET, HEAD, POST, PUT, CONNECT, OPTIONS, TRACE, COPY, LOCK, MKCOL, MOVE} {
      EarlyLetter(m);
    } else if m in {PROPFIND, PROPPATCH, SEARCH, UNLOCK, BIND, REBIND, UNBIND, ACL, REPORT, MKACTIVITY, CHECKOUT, MERGE} {
      LaterLetter(m);
    } else {
      LastLetter(m);
    }
  }

  lemma EarlyLetter(m: Method)
    requires m in {DELETE, GET, HEAD, POST, PUT, CONNECT, OPTIONS, TRACE, COPY, LOCK, MKCOL, MOVE}
    ensures FirstFits(m)
  {
  }

  lemma LaterLetter(m: Method)
    requires m in {PROPFIND, PROPPATCH, SEARCH, UNLOCK, BIND, REBIND, UNBIND, ACL, REPORT, MKACTIVITY, CHECKOUT, MERGE}
    ensures FirstFits(m)
  {
  }

  lemma LastLetter(m: Method)
    requires m in {MSEARCH, NOTIFY, SUBSCRIBE, UNSUBSCRIBE, PATCH, PURGE, MKCALENDAR, LINK, UNLINK, SOURCE}
    ensures FirstFits(m)
  {
  }

  lemma WholeName(m: Method)
    ensures GuessFor(m, |Name(m)|) == m
  {
  }

  lemma NamesGuessed(m: Method, i: nat)
    requires 0 < i < |Name(m)|
    ensures Guessing(m, i)
  {
    hide Name, NextGuess;
    if m in {PUT, PATCH, PURGE} {
      PostNames(m, i);
    } else if m in {PROPFIND, PROPPATCH} {
      FindNames(m, i);
    } else if m in {MOVE, MERGE, MSEARCH} {
      MoveNames(m, i);
    } else if m in {MKACTIVITY, MKCALENDAR} {
      MakeNames(m, i);
    } else if m in {UNSUBSCRIBE, UNBIND, UNLINK} {
      UnlockNames(m, i);
    } else if m in {LINK, REBIND} {
      LinkNames(m, i);
    } else if m in {CHECKOUT, COPY} {
      OtherNames(m, i);
    } else if m in {SEARCH, SOURCE} {
      SearchNames(m, i);
    }
  }

  /** The name of a method, as bytes. */
  function Written(m: Method): (s: seq<octet>)
    ensures s == Name(m)
  {
    Letters(m);
    Name(m)
  }

  lemma MethodStarts(q: Parser, log: seq<Event>, m: Method, max: nat)
    requires Valid(q) && q.state.StartReq? && q.nread + 1 <= max
    ensures Run(q, log, Written(m)[..1], max)
         == Running(q.(nread := q.nread + 1, flags := NO_FLAGS, contentLength := ULLONG_MAX, verb := GuessFor(m, 1),
                       index := 1, state := ReqMethod), Emit(log, MessageBegin))
  {
    hide Valid, Emit, DoAll, AtEnd, AtUrl, AtVersion, Name, FirstGuess, GuessFor;
    var c := Written(m)[0];
    assert Written(m)[..1] == [c];
    FirstLetter(m);
    NoLineEnds(c);
    OneByte(q, log, c, max);
    Notified(log, MessageBegin, c);
  }

  lemma NoLineEnds(c: octet)
    ensures FirstGuess(c).Guessed? ==> c != CR && c != LF
  {
  }

  lemma MethodStep(q: Parser, log: seq<Event>, m: Method, i: nat, max: nat)
    requires 0 < i < |Name(m)| && q.nread + 1 <= max
    requires Valid(q) && q.state.ReqMethod? && q.index == i && q.verb == GuessFor(m, i)
    ensures Step(q, log, Written(m)[i], max, i)
         == Running(q.(nread := q.nread + 1, index := i + 1, verb := GuessFor(m, i + 1)), log)
  {
    hide Valid, Emit, AtUrl, AtVersion, Name, NextGuess, GuessFor;
    NamesGuessed(m, i);
    NotBlank(m, i);
    MethodIndex(q);
  }

  lemma NotBlank(m: Method, i: nat)
    requires i < |Name(m)|
    ensures Name(m)[i] != ' ' && Name(m)[i] != '\0'
  {
    hide Name;
    Letters(m);
  }

  lemma {:induction false} MethodLetters(q: Parser, log: seq<Event>, m: Method, i: nat, max: nat)
    requires 0 < i <= |Name(m)| && Valid(q) && q.state.StartReq? && q.nread + i <= max
    ensures Run(q, log, Written(m)[..i], max)
         == Running(q.(nread := q.nread + i, flags := NO_FLAGS, contentLength := ULLONG_MAX, verb := GuessFor(m, i),
                       index := i, state := ReqMethod), Emit(log, MessageBegin))
    decreases i
  {
    hide Valid, Emit, Run, Step, Name, GuessFor;
    if i == 1 {
      MethodStarts(q, log, m, max);
    } else {
      MethodLetters(q, log, m, i - 1, max);
      var s := Written(m);
      RunOne(q, log, s, i - 1, max);
      MethodStep(Run(q, log, s[..i - 1], max).q, Emit(log, MessageBegin), m, i - 1, max);
    }
  }

  /** Every method is recognized by its name and the space behind it. */
  lemma MethodRead(q: Parser, log: seq<Event>, m: Method, max: nat)
    requires Valid(q) && q.state.StartReq? && q.nread + |Name(m)| + 1 <= max
    ensures Run(q, log, Written(m) + [BLANK], max)
         == Running(q.(nread := q.nread + |Name(m)| + 1, flags := NO_FLAGS, contentLength := ULLONG_MAX, verb := m,
                       index := |Name(m)| + 1, state := ReqSpacesBeforeUrl), Emit(log, MessageBegin))
  {
    hide Valid, Emit, Run, Name, GuessFor;
    var n := |Name(m)|;
    MethodLetters(q, log, m, n, max);
    WholeName(m);
    assert Written(m)[..n] == Written(m);
    var q1 := Run(q, log, Written(m), max).q;
    Followed(q, log, Written(m), q1, Emit(log, MessageBegin), [BLANK], max);
    MethodEnds(q1, Emit(log, MessageBegin), max);
  }

  lemma MethodEnds(q: Parser, log: seq<Event>, max: nat)
    requires Valid(q) && q.state.ReqMethod? && q.index == |Name(q.verb)| && q.nread + 1 <= max
    ensures Run(q, log, [BLANK], max)
         == Running(q.(nread := q.nread + 1, index := q.index + 1, state := ReqSpacesBeforeUrl), log)
  {
    hide Valid, Run, AtUrl, AtVersion, Name, NextGuess;
    CountedValid(q);
    Quietly(q, log, BLANK, q.(nread := q.nread + 1, index := q.index + 1, state := ReqSpacesBeforeUrl), max);
  }

  // ----- targets

  predicate Visible(c: octet) {
    33 <= c as int <= 126
  }

  predicate AllVisible(s: seq<octet>) {
    forall i :: 0 <= i < |s| ==> Visible(s[i])
  }

  /** The characters before the first slash or question mark. */
  function HostLength(s: seq<octet>): (k: nat)
    ensures k <= |s|
  {
    if s == [] || s[0] == '/' || s[0] == '?' then 0 else 1 + HostLength(s[1..])
  }

  predicate HostChar(c: octet) {
    IsUserinfoChar(c) || c == '[' || c == ']' || c == '@'
  }

  predicate HostOk(s: seq<octet>) {
    && (forall i :: 0 <= i < |s| ==> HostChar(s[i]))
    && forall i :: 1 <= i < |s| ==> s[i - 1] == '@' ==> s[i] != '@'
  }

  /** A host without "@@", and visible characters behind it. */
  predicate AuthorityOk(s: seq<octet>) {
    HostOk(s[..HostLength(s)]) && AllVisible(s[HostLength(s)..])
  }

  function SchemeLength(s: seq<octet>): (k: nat)
    ensures k <= |s|
  {
    if s == [] || !IsAlpha(s[0]) then 0 else 1 + SchemeLength(s[1..])
  }

  const SCHEME_END: seq<octet> := [':', '/', '/']

  predicate AbsoluteOk(s: seq<octet>) {
    var k := SchemeLength(s);
    k + 3 < |s| && s[k..k + 3] == SCHEME_END && AuthorityOk(s[k + 3..])
  }

  /** A path or an asterisk, an absolute URL, or, for CONNECT, an authority. */
  predicate TargetOk(m: Method, s: seq<octet>)
    requires s != []
  {
    if m.CONNECT? then AuthorityOk(s)
    else if s[0] == '/' || s[0] == '*' then AllVisible(s)
    else SchemeLength(s) > 0 && AbsoluteOk(s)
  }

  /** The state after some of a target. */
  function Reads(s: State, url: seq<octet>): State
    decreases |url|
  {
    if url == [] then s else Reads(ParseUrlChar(s, url[0]), url[1..])
  }

  predicate Complete(s: State) {
    InUrl(s) && !s.ReqSchema? && !s.ReqSchemaSlash? && !s.ReqSchemaSlashSlash? && !s.ReqServerStart?
  }

  lemma {:induction false} ReadsMore(s: State, a: seq<octet>, c: octet)
    ensures Reads(s, a + [c]) == ParseUrlChar(Reads(s, a), c)
    decreases |a|
  {
    hide ParseUrlChar;
    var t := a + [c];
    if a == [] {
      assert t[1..] == [];
    } else {
      assert t[1..] == a[1..] + [c];
      ReadsMore(ParseUrlChar(s, a[0]), a[1..], c);
    }
  }

  lemma {:induction false} DeadReads(url: seq<octet>)
    ensures Reads(Dead, url) == Dead
  {
    if url != [] {
      DeadReads(url[1..]);
    }
  }

  predicate InPath(s: State) {
    s.ReqPath? || s.ReqQueryStringStart? || s.ReqQueryString? || s.ReqFragmentStart? || s.ReqFragment?
  }

  lemma PathStep(s: State, c: octet)
    requires InPath(s)
    ensures if Visible(c) then InPath(ParseUrlChar(s, c)) else ParseUrlChar(s, c).Dead?
  {
  }

  lemma {:induction false} PathReads(s: State, url: seq<octet>)
    requires InPath(s)
    ensures Complete(Reads(s, url)) <==> AllVisible(url)
    decreases |url|
  {
    hide ParseUrlChar, Visible;
    if url != [] {
      PathStep(s, url[0]);
      DeadReads(url[1..]);
      if Visible(url[0]) {
        PathReads(ParseUrlChar(s, url[0]), url[1..]);
        assert [url[0]] + url[1..] == url;
      }
    }
  }

  predicate InHost(s: State) {
    s.ReqServerStart? || s.ReqServer? || s.ReqServerWithAt?
  }

  lemma HostStep(s: State, c: octet)
    requires InHost(s)
    ensures var t := ParseUrlChar(s, c);
            if c == '/' || c == '?' then InPath(t) && Visible(c)
            else if HostChar(c) && !(s.ReqServerWithAt? && c == '@') then
              t == if c == '@' then ReqServerWithAt else ReqServer
            else t.Dead?
  {
    hide IsAlpha, IsNum;
    if c in " \r\n\t" || c as int == 12 {
      NoHostChar(c);
    }
  }

  lemma NoHostChar(c: octet)
    requires c in " \r\n\t" || c as int == 12
    ensures !HostChar(c)
  {
  }

  /** The host goes on behind the character `c`. */
  lemma HostMore(c: octet, url: seq<octet>)
    requires c != '/' && c != '?'
    ensures AuthorityOk([c] + url) <==> HostChar(c) && (c == '@' && url != [] ==> url[0] != '@') && AuthorityOk(url)
  {
    hide HostChar, Visible;
    var all, k := [c] + url, HostLength(url);
    assert all[1..] == url;
    assert HostLength(all) == k + 1 && all[k + 1..] == url[k..];
    var host, rest := all[..k + 1], url[..k];
    assert host == [c] + rest;
    HostOkMore(c, rest);
    if k == 0 && url != [] {
      assert url[0] == '/' || url[0] == '?';
    }
  }

  lemma HostOkMore(c: octet, rest: seq<octet>)
    ensures HostOk([c] + rest) <==> HostChar(c) && (c == '@' && rest != [] ==> rest[0] != '@') && HostOk(rest)
  {
    hide HostChar;
    var host := [c] + rest;
    assert forall i :: 0 <= i < |rest| ==> host[i + 1] == rest[i];
    if HostOk(host) {
      assert HostChar(host[0]);
      forall i | 0 <= i < |rest|
        ensures HostChar(rest[i]) && (i > 0 && rest[i - 1] == '@' ==> rest[i] != '@')
      {
        assert HostChar(host[i + 1]) && (host[i] == '@' ==> host[i + 1] != '@');
      }
      if rest != [] {
        assert host[0] == '@' ==> host[1] != '@';
      }
    }
    if HostChar(c) && (c == '@' && rest != [] ==> rest[0] != '@') && HostOk(rest) {
      forall i | 1 <= i < |host|
        ensures host[i - 1] == '@' ==> host[i] != '@'
      {
        if i > 1 {
          assert rest[i - 2] == host[i - 1] && rest[i - 1] == host[i];
        }
      }
    }
  }

  lemma {:induction false} HostReads(s: State, url: seq<octet>)
    requires InHost(s)
    ensures Complete(Reads(s, url))
       <==> AuthorityOk(url) && (s.ReqServerStart? ==> url != []) && (s.ReqServerWithAt? && url != [] ==> url[0] != '@')
    decreases |url|
  {
    hide ParseUrlChar, Visible, HostChar, AuthorityOk, AllVisible;
    if url == [] {
      EmptyAuthority();
    } else {
      var c, rest := url[0], url[1..];
      assert [c] + rest == url;
      HostStep(s, c);
      DeadReads(rest);
      var t := ParseUrlChar(s, c);
      if c == '/' || c == '?' {
        PathReads(t, rest);
        NoHost(url);
      } else {
        HostMore(c, rest);
        if InHost(t) {
          HostReads(t, rest);
        }
      }
    }
  }

  lemma EmptyAuthority()
    ensures AuthorityOk([])
  {
  }

  lemma NoHost(url: seq<octet>)
    requires url != [] && (url[0] == '/' || url[0] == '?')
    ensures AuthorityOk(url) <==> AllVisible(url[1..])
  {
    assert url[0..] == [url[0]] + url[1..];
    assert url[..0] == [];
  }

  lemma SchemeStep(c: octet)
    ensures ParseUrlChar(ReqSchema, c) == if IsAlpha(c) then ReqSchema else if c == ':' then ReqSchemaSlash else Dead
    ensures ParseUrlChar(ReqSchemaSlash, c) == if c == '/' then ReqSchemaSlashSlash else Dead
    ensures ParseUrlChar(ReqSchemaSlashSlash, c) == if c == '/' then ReqServerStart else Dead
  {
  }

  lemma SlashesRead(s: State, url: seq<octet>)
    ensures Complete(Reads(ReqSchemaSlashSlash, url)) <==> |url| > 1 && url[0] == '/' && AuthorityOk(url[1..])
    ensures Complete(Reads(ReqSchemaSlash, url)) <==> |url| > 2 && url[0] == '/' && url[1] == '/' && AuthorityOk(url[2..])
  {
    hide ParseUrlChar, AuthorityOk;
    if url != [] {
      SchemeStep(url[0]);
      DeadReads(url[1..]);
      HostReads(ReqServerStart, url[1..]);
      if |url| > 1 {
        assert url[1..][1..] == url[2..];
        SchemeStep(url[1]);
        DeadReads(url[2..]);
        HostReads(ReqServerStart, url[2..]);
      }
    }
  }

  lemma SchemeMore(url: seq<octet>)
    requires url != [] && IsAlpha(url[0])
    ensures AbsoluteOk(url) <==> AbsoluteOk(url[1..])
    ensures SchemeLength(url) > 0
  {
    hide AuthorityOk, IsAlpha;
    var rest := url[1..];
    var k := SchemeLength(rest);
    if k + 3 < |rest| {
      assert url[k + 1..k + 4] == rest[k..k + 3] && url[k + 4..] == rest[k + 3..];
    }
  }

  lemma {:induction false} SchemeReads(url: seq<octet>)
    ensures Complete(Reads(ReqSchema, url)) <==> AbsoluteOk(url)
  {
    hide ParseUrlChar, AuthorityOk, IsAlpha;
    if url != [] {
      var rest := url[1..];
      SchemeStep(url[0]);
      DeadReads(rest);
      if IsAlpha(url[0]) {
        SchemeReads(rest);
        SchemeMore(url);
      } else {
        SlashesRead(ReqSchemaSlash, rest);
        if |rest| > 2 {
          assert url[0..3] == [url[0], rest[0], rest[1]] && url[3..] == rest[2..];
        }
      }
    }
  }

  function TargetStart(m: Method): State {
    if m.CONNECT? then ReqServerStart else ReqSpacesBeforeUrl
  }

  lemma StartStep(c: octet)
    ensures ParseUrlChar(ReqSpacesBeforeUrl, c)
         == if c == '/' || c == '*' then ReqPath else if IsAlpha(c) then ReqSchema else Dead
    ensures c == '/' || c == '*' ==> Visible(c) && !IsAlpha(c)
  {
  }

  /** A target is accepted exactly if it has one of the forms. */
  lemma TargetReads(m: Method, url: seq<octet>)
    requires url != []
    ensures Complete(Reads(TargetStart(m), url)) <==> TargetOk(m, url)
  {
    hide ParseUrlChar, AuthorityOk, AbsoluteOk, IsAlpha, Visible;
    if m.CONNECT? {
      HostReads(ReqServerStart, url);
    } else {
      var c, rest := url[0], url[1..];
      StartStep(c);
      DeadReads(rest);
      if c == '/' || c == '*' {
        PathReads(ReqPath, rest);
        assert [c] + rest == url;
      } else if IsAlpha(c) {
        SchemeReads(rest);
        SchemeMore(url);
      }
    }
  }

  /** Bytes of a request line that end neither the target nor the line. */
  predicate OnTarget(s: seq<octet>) {
    forall i :: 0 <= i < |s| ==> s[i] != ' ' && s[i] != CR && s[i] != LF
  }

  /** The run has failed for a bad target. */
  predicate Refused(r: Result) {
    r.Failed? && r.errno == INVALID_URL
  }

  lemma TargetStarts(q: Parser, log: seq<Event>, c: octet, max: nat)
    requires Valid(q) && q.state.ReqSpacesBeforeUrl? && c != ' ' && q.nread + 1 <= max
    ensures var s := ParseUrlChar(TargetStart(q.verb), c);
            if s.Dead? then Refused(Run(q, log, [c], max))
            else Run(q, log, [c], max) == Running(q.(nread := q.nread + 1, state := s), Emit(log, Data(URL, [c])))
  {
    hide Valid, Emit, DoAll, AtEnd, ParseUrlChar, AtVersion;
    OneByte(q, log, c, max);
    assert [Mark(URL)] + [] == [Mark(URL)];
    Marks(log, URL, c);
  }

  lemma TargetByte(q: Parser, log: seq<Event>, c: octet, max: nat, n: nat)
    requires Valid(q) && InUrl(q.state) && c != ' ' && c != CR && c != LF && q.nread + 1 <= max
    ensures var s := ParseUrlChar(q.state, c);
            if s.Dead? then Step(q, log, c, max, n) == Failed(INVALID_URL, n)
            else Step(q, log, c, max, n) == Running(q.(nread := q.nread + 1, state := s), Emit(log, Data(URL, [c])))
  {
    hide Valid, Emit, ParseUrlChar;
    assert [c][0..] == [c];
  }

  lemma {:induction false} TargetBytes(q: Parser, log: seq<Event>, url: seq<octet>, max: nat)
    requires Valid(q) && InUrl(q.state) && OnTarget(url) && q.nread + |url| <= max
    ensures var s, r := Reads(q.state, url), Run(q, log, url, max);
            if s.Dead? then Refused(r)
            else InUrl(s) && r == Running(q.(nread := q.nread + |url|, state := s), With(log, URL, url))
  {
    hide Valid, Step, Emit, ParseUrlChar;
    if url != [] {
      var last := |url| - 1;
      var s := Reads(q.state, url[..last]);
      assert url[..last] + [url[last]] == url;
      ReadsMore(q.state, url[..last], url[last]);
      TargetBytes(q, log, url[..last], max);
      DeadReads([url[last]]);
      if !s.Dead? {
        UrlStates(s, url[last]);
        TargetByte(q.(nread := q.nread + last, state := s), With(log, URL, url[..last]), url[last], max, last);
        EmitMore(log, URL, url[..last], [url[last]]);
      } else {
        assert Reads(Dead, [url[last]]) == ParseUrlChar(Dead, url[last]);
      }
    }
  }

  lemma TargetEnds(q: Parser, log: seq<Event>, url: seq<octet>, max: nat)
    requires Valid(q) && InUrl(q.state) && q.nread + 1 <= max
    ensures var log', r := Emit(log, Data(URL, url)), Run(q, Emit(log, Data(URL, url)), [BLANK], max);
            if Complete(q.state) then r == Running(q.(nread := q.nread + 1, state := ReqHttpStart), log') else Refused(r)
  {
    hide Valid, Emit, DoAll, AtEnd;
    OneByte(q, Emit(log, Data(URL, url)), BLANK, max);
    BlankIsDead(q.state);
    Flushes(log, URL, url, BLANK);
  }

  lemma BlankIsDead(s: State)
    ensures ParseUrlChar(s, BLANK).Dead?
  {
  }

  /** The target of a request is handed out as it is, if it has one of the forms, and refused otherwise. */
  lemma TargetRead(q: Parser, log: seq<Event>, url: seq<octet>, max: nat)
    requires Valid(q) && q.state.ReqSpacesBeforeUrl? && url != [] && OnTarget(url) && q.nread + |url| + 1 <= max
    ensures var r := Run(q, log, url + [BLANK], max);
            if TargetOk(q.verb, url) then
              r == Running(q.(nread := q.nread + |url| + 1, state := ReqHttpStart), Emit(log, Data(URL, url)))
            else Refused(r)
  {
    hide Valid, Run, Emit, ParseUrlChar, TargetOk;
    TargetReads(q.verb, url);
    var first, rest := [url[0]], url[1..];
    var s, log1 := ParseUrlChar(TargetStart(q.verb), url[0]), Emit(log, Data(URL, first));
    assert url == first + rest;
    TargetStarts(q, log, url[0], max);
    RunConcat(q, log, first, rest, max);
    RunConcat(q, log, url, [BLANK], max);
    DeadReads(rest);
    if !s.Dead? {
      UrlStates(TargetStart(q.verb), url[0]);
      var q1 := q.(nread := q.nread + 1, state := s);
      TargetBytes(q1, log1, rest, max);
      WithWith(log, URL, first, rest);
      if !Reads(s, rest).Dead? {
        TargetEnds(Run(q1, log1, rest, max).q, log, url, max);
      }
    }
  }

  // ----- versions

  /** The fixed characters of the end of a request line. */
  function FixedInRequest(s: State, c: octet): State {
    match s
    case ReqHttpStart => if c == 'H' then ReqHttpH else Dead
    case ReqHttpH => if c == 'T' then ReqHttpHT else Dead
    case ReqHttpHT => if c == 'T' then ReqHttpHTT else Dead
    case ReqHttpHTT => if c == 'P' then ReqHttpHTTP else Dead
    case ReqHttpHTTP => if c == '/' then ReqHttpMajor else Dead
    case ReqHttpDot => if c == '.' then ReqHttpMinor else Dead
    case ReqHttpEnd => if c == CR then ReqLineAlmostDone else Dead
    case ReqLineAlmostDone => if c == LF then HeaderFieldStart else Dead
    case _ => Dead
  }

  lemma RequestByte(q: Parser, log: seq<Event>, c: octet, max: nat)
    requires Valid(q) && q.nread + 1 <= max && !FixedInRequest(q.state, c).Dead?
    ensures Run(q, log, [c], max) == Running(q.(nread := q.nread + 1, state := FixedInRequest(q.state, c)), log)
  {
    hide Valid, Run, AtUrl, HeaderOrBodyByte;
    CountedValid(q);
    Quietly(q, log, c, q.(nread := q.nread + 1, state := FixedInRequest(q.state, c)), max);
  }

  /** One more fixed character of a request line. */
  lemma RequestMore(q: Parser, log: seq<Event>, s: seq<octet>, q1: Parser, log1: seq<Event>, c: octet, max: nat)
    requires Valid(q) && Run(q, log, s, max) == Running(q1, log1) && q1.nread + 1 <= max
    requires !FixedInRequest(q1.state, c).Dead?
    ensures Valid(q1)
    ensures Run(q, log, s + [c], max) == Running(q1.(nread := q1.nread + 1, state := FixedInRequest(q1.state, c)), log1)
  {
    hide Valid, Run;
    Followed(q, log, s, q1, log1, [c], max);
    RequestByte(q1, log1, c, max);
  }

  lemma ProtocolStarts(q: Parser, log: seq<Event>, max: nat)
    requires Valid(q) && q.state.ReqHttpStart? && q.nread + 2 <= max
    ensures Run(q, log, ['H', 'T'], max) == Running(q.(nread := q.nread + 2, state := ReqHttpHT), log)
  {
    hide Valid, Run;
    RequestByte(q, log, 'H', max);
    RequestMore(q, log, ['H'], q.(nread := q.nread + 1, state := ReqHttpH), log, 'T', max);
    assert ['H'] + ['T'] == ['H', 'T'];
  }

  lemma ProtocolEnds(q: Parser, log: seq<Event>, max: nat)
    requires Valid(q) && q.state.ReqHttpHT? && q.nread + 3 <= max
    ensures Run(q, log, ['T', 'P', '/'], max) == Running(q.(nread := q.nread + 3, state := ReqHttpMajor), log)
  {
    hide Valid, Run;
    RequestByte(q, log, 'T', max);
    RequestMore(q, log, ['T'], q.(nread := q.nread + 1, state := ReqHttpHTT), log, 'P', max);
    assert ['T'] + ['P'] == ['T', 'P'];
    RequestMore(q, log, ['T', 'P'], q.(nread := q.nread + 2, state := ReqHttpHTTP), log, '/', max);
    assert ['T', 'P'] + ['/'] == ['T', 'P', '/'];
  }

  lemma RequestProtocol(q: Parser, log: seq<Event>, max: nat)
    requires Valid(q) && q.state.ReqHttpStart? && q.nread + 5 <= max
    ensures Run(q, log, PROTOCOL, max) == Running(q.(nread := q.nread + 5, state := ReqHttpMajor), log)
  {
    hide Valid, Run;
    ProtocolStarts(q, log, max);
    var q1 := q.(nread := q.nread + 2, state := ReqHttpHT);
    Followed(q, log, ['H', 'T'], q1, log, ['T', 'P', '/'], max);
    ProtocolEnds(q1, log, max);
    assert ['H', 'T'] + ['T', 'P', '/'] == PROTOCOL;
  }

  lemma MajorRead(q: Parser, log: seq<Event>, major: octet, max: nat)
    requires Valid(q) && q.state.ReqHttpMajor? && IsNum(major) && q.nread + 2 <= max
    ensures Run(q, log, [major, '.'], max)
         == Running(q.(nread := q.nread + 2, major := Unhex(major), state := ReqHttpMinor), log)
  {
    hide Valid, Run, IsNum, Unhex;
    MajorDigit(q, log, major, max);
    NumIsHex(major);
    RequestMore(q, log, [major], q.(nread := q.nread + 1, major := Unhex(major), state := ReqHttpDot), log, '.', max);
    assert [major] + ['.'] == [major, '.'];
  }

  lemma NumIsHex(d: octet)
    requires IsNum(d)
    ensures Unhex(d) >= 0
  {
  }

  lemma MinorRead(q: Parser, log: seq<Event>, minor: octet, max: nat)
    requires Valid(q) && q.state.ReqHttpMinor? && IsNum(minor) && q.nread + 3 <= max
    ensures Run(q, log, [minor, CR, LF], max)
         == Running(q.(nread := q.nread + 3, minor := Unhex(minor), state := HeaderFieldStart), log)
  {
    hide Valid, Run, IsNum, Unhex;
    MinorDigit(q, log, minor, max);
    NumIsHex(minor);
    var q1 := q.(nread := q.nread + 1, minor := Unhex(minor), state := ReqHttpEnd);
    RequestMore(q, log, [minor], q1, log, CR, max);
    assert [minor] + [CR] == [minor, CR];
    RequestMore(q, log, [minor, CR], q1.(nread := q1.nread + 1, state := ReqLineAlmostDone), log, LF, max);
    assert [minor, CR] + [LF] == [minor, CR, LF];
  }

  lemma RequestVersion(q: Parser, log: seq<Event>, major: octet, minor: octet, max: nat)
    requires Valid(q) && q.state.ReqHttpMajor? && IsNum(major) && IsNum(minor) && q.nread + 5 <= max
    ensures Run(q, log, [major, '.', minor, CR, LF], max)
         == Running(q.(nread := q.nread + 5, major := Unhex(major), minor := Unhex(minor), state := HeaderFieldStart), log)
  {
    hide Valid, Run, IsNum, Unhex;
    NumIsHex(major);
    MajorRead(q, log, major, max);
    var q1 := q.(nread := q.nread + 2, major := Unhex(major), state := ReqHttpMinor);
    Followed(q, log, [major, '.'], q1, log, [minor, CR, LF], max);
    MinorRead(q1, log, minor, max);
    assert [major, '.'] + [minor, CR, LF] == [major, '.', minor, CR, LF];
  }

  // ----- heads

  /** A request line: its method, its target, and the digits of the version. */
  datatype RequestLine = RequestLine(verb: Method, target: seq<octet>, major: octet, minor: octet)

  predicate RequestLineOk(line: RequestLine) {
    line.target != [] && OnTarget(line.target) && IsNum(line.major) && IsNum(line.minor)
  }

  function RequestBytes(line: RequestLine): seq<octet> {
    Written(line.verb) + [BLANK] + (line.target + [BLANK]) + PROTOCOL + [line.major, '.', line.minor, CR, LF]
  }

  /** A request line: its method is the one named, its version the one written, and its target is checked. */
  lemma RequestLineRead(q: Parser, log: seq<Event>, line: RequestLine, max: nat)
    requires Valid(q) && q.state.StartReq? && RequestLineOk(line) && q.nread + |RequestBytes(line)| <= max
    ensures Unhex(line.major) >= 0 && Unhex(line.minor) >= 0
    ensures var r := Run(q, log, RequestBytes(line), max);
            if TargetOk(line.verb, line.target) then
              r == Running(q.(nread := q.nread + |RequestBytes(line)|, flags := NO_FLAGS, contentLength := ULLONG_MAX,
                              verb := line.verb, major := Unhex(line.major), minor := Unhex(line.minor),
                              index := |Name(line.verb)| + 1, state := HeaderFieldStart),
                           Emit(Emit(log, MessageBegin), Data(URL, line.target)))
            else Refused(r)
  {
    hide Valid, Run, Emit, TargetOk, Name, OnTarget, IsNum;
    DigitsAreHex([line.major, line.minor]);
    var a, b := Written(line.verb) + [BLANK], line.target + [BLANK];
    var log1, log2 := Emit(log, MessageBegin), Emit(Emit(log, MessageBegin), Data(URL, line.target));
    MethodRead(q, log, line.verb, max);
    var q1 := Run(q, log, a, max).q;
    Followed(q, log, a, q1, log1, b, max);
    TargetRead(q1, log1, line.target, max);
    var end := [line.major, '.', line.minor, CR, LF];
    RunConcat(q, log, a + b, PROTOCOL, max);
    RunConcat(q, log, a + b + PROTOCOL, end, max);
    if TargetOk(line.verb, line.target) {
      var q2 := Run(q1, log1, b, max).q;
      RequestProtocol(q2, log2, max);
      RequestVersion(q2.(nread := q2.nread + 5, state := ReqHttpMajor), log2, line.major, line.minor, max);
    }
  }

  /**
    The head of a request: everything in it is handed out in order, the method is the one named, and the fields say
    what they add up to.
   */
  lemma RequestHead(q: Parser, log: seq<Event>, line: RequestLine, fields: seq<Field>, max: nat) returns (head: Parser)
    requires Valid(q) && q.state.StartReq? && RequestLineOk(line) && FieldsOk(Said(NO_FLAGS, ULLONG_MAX), fields)
    requires q.nread + |RequestBytes(line)| + |Lines(fields)| + 2 <= max
    ensures Unhex(line.major) >= 0 && Unhex(line.minor) >= 0
    ensures var bytes := RequestBytes(line) + Lines(fields) + [CR, LF];
            var r := Run(q, log, bytes, max);
            if !TargetOk(line.verb, line.target) then Refused(r)
            else
              && head.verb == line.verb && head.major == Unhex(line.major) && head.minor == Unhex(line.minor)
              && Said(head.flags, head.contentLength) == AddsAll(Said(NO_FLAGS, ULLONG_MAX), fields)
              && head.kind == q.kind && head.status == q.status
              && r == AfterHead(head, FieldsLog(Emit(Emit(log, MessageBegin), Data(URL, line.target)), fields), |bytes|)
  {
    hide Valid, Run, Emit, FieldsOk, AddsAll, BodyAs, Over, Switches, RequestBytes, Lines, FieldsLog, RequestLineOk, Name,
      TargetOk;
    var start, end := RequestBytes(line), Lines(fields) + [CR, LF];
    RequestLineRead(q, log, line, max);
    RunConcat(q, log, start, end, max);
    assert start + end == start + Lines(fields) + [CR, LF];
    head := q;
    var r := Run(q, log, start, max);
    if r.Running? {
      head := FieldsEnd(r.q, r.log, fields, max);
    }
  }
}
