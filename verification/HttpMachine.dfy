/**
  The HTTP message parser, one byte at a time: its states, its fields, and what each byte does to them.
  Callbacks return 0 and lenient mode is off, so no message skips its body on request.
 */
module HttpMachine {
  import opened HttpChars

  const ULLONG_MAX: nat := 0xffff_ffff_ffff_ffff

  datatype State =
    | Dead
    | StartReqOrRes
    | ResOrRespH
    | StartRes
    | ResH | ResHT | ResHTT | ResHTTP
    | ResHttpMajor | ResHttpDot | ResHttpMinor | ResHttpEnd
    | ResFirstStatusCode | ResStatusCode | ResStatusStart | ResStatus | ResLineAlmostDone
    | StartReq
    | ReqMethod
    | ReqSpacesBeforeUrl
    | ReqSchema | ReqSchemaSlash | ReqSchemaSlashSlash
    | ReqServerStart | ReqServer | ReqServerWithAt
    | ReqPath | ReqQueryStringStart | ReqQueryString | ReqFragmentStart | ReqFragment
    | ReqHttpStart | ReqHttpH | ReqHttpHT | ReqHttpHTT | ReqHttpHTTP | ReqHttpI | ReqHttpIC
    | ReqHttpMajor | ReqHttpDot | ReqHttpMinor | ReqHttpEnd | ReqLineAlmostDone
    | HeaderFieldStart | HeaderField
    | HeaderValueDiscardWs | HeaderValueDiscardWsAlmostDone | HeaderValueDiscardLws
    | HeaderValueStart | HeaderValue | HeaderValueLws
    | HeaderAlmostDone
    | ChunkSizeStart | ChunkSize | ChunkParameters | ChunkSizeAlmostDone
    | HeadersAlmostDone | HeadersDone
    // the states of a body
    | ChunkData | ChunkDataAlmostDone | ChunkDataDone
    | BodyIdentity | BodyIdentityEof
    | MessageDone

  predicate ParsingHeader(s: State) {
    !(s.ChunkData? || s.ChunkDataAlmostDone? || s.ChunkDataDone? || s.BodyIdentity? || s.BodyIdentityEof? || s.MessageDone?)
  }

  /** What is known of the header being read. */
  datatype HeaderState =
    | General
    | C | CO | CON
    | MatchingConnection | MatchingProxyConnection | MatchingContentLength | MatchingTransferEncoding | MatchingUpgrade
    | Connection | ContentLength | ContentLengthNum | ContentLengthWs | TransferEncoding | Upgrade
    | MatchingTransferEncodingTokenStart | MatchingTransferEncodingChunked | MatchingTransferEncodingToken
    | MatchingConnectionTokenStart | MatchingConnectionKeepAlive | MatchingConnectionClose
    | MatchingConnectionUpgrade | MatchingConnectionToken
    | TransferEncodingChunked | ConnectionKeepAlive | ConnectionClose | ConnectionUpgrade

  datatype Method =
    | DELETE | GET | HEAD | POST | PUT | CONNECT | OPTIONS | TRACE | COPY | LOCK | MKCOL | MOVE | PROPFIND | PROPPATCH
    | SEARCH | UNLOCK | BIND | REBIND | UNBIND | ACL | REPORT | MKACTIVITY | CHECKOUT | MERGE | MSEARCH | NOTIFY
    | SUBSCRIBE | UNSUBSCRIBE | PATCH | PURGE | MKCALENDAR | LINK | UNLINK | SOURCE

  function Name(m: Method): (n: string)
    ensures |n| > 2
  {
    match m
    case DELETE => "DELETE" case GET => "GET" case HEAD => "HEAD" case POST => "POST" case PUT => "PUT"
    case CONNECT => "CONNECT" case OPTIONS => "OPTIONS" case TRACE => "TRACE" case COPY => "COPY" case LOCK => "LOCK"
    case MKCOL => "MKCOL" case MOVE => "MOVE"
    case _ => LaterName(m)
  }

  function LaterName(m: Method): (n: string)
    ensures |n| > 2
  {
    match m
    case PROPFIND => "PROPFIND" case PROPPATCH => "PROPPATCH"
    case SEARCH => "SEARCH" case UNLOCK => "UNLOCK" case BIND => "BIND" case REBIND => "REBIND"
    case UNBIND => "UNBIND" case ACL => "ACL" case REPORT => "REPORT" case MKACTIVITY => "MKACTIVITY"
    case CHECKOUT => "CHECKOUT" case MERGE => "MERGE"
    case _ => LastName(m)
  }

  function LastName(m: Method): (n: string)
    ensures |n| > 2
  {
    match m
    case MSEARCH => "M-SEARCH" case NOTIFY => "NOTIFY"
    case SUBSCRIBE => "SUBSCRIBE" case UNSUBSCRIBE => "UNSUBSCRIBE" case PATCH => "PATCH" case PURGE => "PURGE"
    case MKCALENDAR => "MKCALENDAR" case LINK => "LINK" case UNLINK => "UNLINK" case _ => "SOURCE"
  }

  datatype Errno =
    | INVALID_EOF_STATE | HEADER_OVERFLOW | CLOSED_CONNECTION | INVALID_VERSION | INVALID_STATUS | INVALID_METHOD
    | INVALID_URL | LF_EXPECTED | INVALID_HEADER_TOKEN | INVALID_CONTENT_LENGTH | UNEXPECTED_CONTENT_LENGTH
    | INVALID_CHUNK_SIZE | INVALID_TRANSFER_ENCODING | INVALID_CONSTANT | STRICT

  datatype Flags = Flags(chunked: bool, keepAlive: bool, close: bool, connectionUpgrade: bool, trailing: bool,
                         upgrade: bool, contentLength: bool, transferEncoding: bool)

  const NO_FLAGS := Flags(false, false, false, false, false, false, false, false)

  datatype Kind = REQUEST | RESPONSE | BOTH

  datatype Parser = Parser(kind: Kind, state: State, header: HeaderState, index: nat, flags: Flags, nread: nat,
                           contentLength: nat, major: nat, minor: nat, status: nat, verb: Method, upgrade: bool)

  function Init(kind: Kind): Parser {
    Parser(kind, if kind.REQUEST? then StartReq else if kind.RESPONSE? then StartRes else StartReqOrRes,
           General, 0, NO_FLAGS, 0, 0, 0, 0, 0, DELETE, false)
  }

  /** The data that callbacks are given. */
  datatype Part = URL | STATUS | FIELD | VALUE | BODY

  datatype Event =
    | Data(part: Part, bytes: seq<octet>)
    | MessageBegin
    | HeadersComplete(head: Parser)
    | ChunkHeader(size: nat)
    | ChunkComplete
    | MessageComplete

  /**
    What a byte causes besides the new fields: a mark is set at the byte, the data since the mark are handed out
    (without the byte, or through it), or another callback is called.
   */
  datatype Act = Mark(part: Part) | Flush(part: Part) | FlushThrough(part: Part) | Notify(event: Event)

  /** The byte was consumed, was wrong, or ended a message after which another protocol follows. */
  datatype Outcome =
    | Next(q: Parser, acts: seq<Act>)
    | Exit(q: Parser, acts: seq<Act>)
    | Fail(errno: Errno)

  function Go(q: Parser, s: State): Outcome {
    Next(q.(state := s), [])
  }

  /** The byte is executed again in another state, after some acts. */
  function After(acts: seq<Act>, o: Outcome): Outcome {
    match o
    case Next(q, more) => Next(q, acts + more)
    case Exit(q, more) => Exit(q, acts + more)
    case Fail(_) => o
  }

  // ----- the end of a message

  predicate NeedsEof(q: Parser) {
    if q.kind.REQUEST? then false
    else if q.status / 100 == 1 || q.status == 204 || q.status == 304 then false
    else if q.flags.transferEncoding && !q.flags.chunked then true
    else !(q.flags.chunked || q.contentLength != ULLONG_MAX)
  }

  predicate ShouldKeepAlive(q: Parser) {
    (if q.major > 0 && q.minor > 0 then !q.flags.close else q.flags.keepAlive) && !NeedsEof(q)
  }

  function NewMessage(q: Parser): (r: Parser)
    ensures r == q.(state := r.state) && (r.state.Dead? || r.state.StartReq? || r.state.StartRes?)
    ensures r.state.Dead? <==> !ShouldKeepAlive(q)
  {
    q.(state := if !ShouldKeepAlive(q) then Dead else if q.kind.REQUEST? then StartReq else StartRes)
  }

  function AtMessageDone(q: Parser): Outcome {
    var o := [Notify(MessageComplete)];
    if q.upgrade then Exit(NewMessage(q), o) else Next(NewMessage(q), o)
  }

  // ----- request targets

  function ParseUrlChar(s: State, ch: octet): State {
    if ch in " \r\n\t" || ch as int == 12 then Dead else
    match s
    case ReqSpacesBeforeUrl => if ch == '/' || ch == '*' then ReqPath else if IsAlpha(ch) then ReqSchema else Dead
    case ReqSchema => if IsAlpha(ch) then s else if ch == ':' then ReqSchemaSlash else Dead
    case ReqSchemaSlash => if ch == '/' then ReqSchemaSlashSlash else Dead
    case ReqSchemaSlashSlash => if ch == '/' then ReqServerStart else Dead
    case ReqServerWithAt => if ch == '@' then Dead else ServerChar(ch)
    case ReqServerStart => ServerChar(ch)
    case ReqServer => ServerChar(ch)
    case ReqPath => if IsUrlChar(ch) then s else QueryChar(ch, ReqQueryStringStart)
    case ReqQueryStringStart => if IsUrlChar(ch) then ReqQueryString else QueryChar(ch, ReqQueryString)
    case ReqQueryString => if IsUrlChar(ch) then s else QueryChar(ch, ReqQueryString)
    case ReqFragmentStart =>
      if IsUrlChar(ch) then ReqFragment else if ch == '?' then ReqFragment else if ch == '#' then s else Dead
    case ReqFragment => if IsUrlChar(ch) || ch == '?' || ch == '#' then s else Dead
    case _ => Dead
  }

  function ServerChar(ch: octet): State {
    if ch == '/' then ReqPath
    else if ch == '?' then ReqQueryStringStart
    else if ch == '@' then ReqServerWithAt
    else if IsUserinfoChar(ch) || ch == '[' || ch == ']' then ReqServer
    else Dead
  }

  function QueryChar(ch: octet, query: State): State {
    if ch == '?' then query else if ch == '#' then ReqFragmentStart else Dead
  }

  predicate InUrl(s: State) {
    || s.ReqSchema? || s.ReqSchemaSlash? || s.ReqSchemaSlashSlash? || s.ReqServerStart? || s.ReqServer?
    || s.ReqServerWithAt? || s.ReqPath? || s.ReqQueryStringStart? || s.ReqQueryString? || s.ReqFragmentStart?
    || s.ReqFragment?
  }

  function UrlByte(q: Parser, ch: octet): Outcome {
    var s := ParseUrlChar(q.state, ch);
    if s.Dead? then Fail(INVALID_URL) else Go(q, s)
  }

  function AtUrl(q: Parser, ch: octet): Outcome {
    if q.state.ReqSchema? || q.state.ReqSchemaSlash? || q.state.ReqSchemaSlashSlash? || q.state.ReqServerStart? then
      UrlByte(q, ch)
    else if ch == ' ' then
      Next(q.(state := ReqHttpStart), [Flush(URL)])
    else if ch == CR || ch == LF then
      Next(q.(major := 0, minor := 9, state := if ch == CR then ReqLineAlmostDone else HeaderFieldStart), [Flush(URL)])
    else
      UrlByte(q, ch)
  }

  // ----- start lines

  function AtStartReq(q: Parser, ch: octet): Outcome {
    if ch == CR || ch == LF then Go(q, q.state) else
    var clean := q.(flags := NO_FLAGS, contentLength := ULLONG_MAX);
    match FirstGuess(ch)
    case NoGuess => Fail(INVALID_METHOD)
    case Guessed(m) => Next(clean.(verb := m, index := 1, state := ReqMethod), [Notify(MessageBegin)])
  }

  datatype Guess = NoGuess | Guessed(verb: Method)

  function FirstGuess(ch: octet): Guess {
    match ch
    case 'A' => Guessed(ACL) case 'B' => Guessed(BIND) case 'C' => Guessed(CONNECT) case 'D' => Guessed(DELETE)
    case 'G' => Guessed(GET) case 'H' => Guessed(HEAD) case 'L' => Guessed(LOCK) case 'M' => Guessed(MKCOL)
    case 'N' => Guessed(NOTIFY) case 'O' => Guessed(OPTIONS) case 'P' => Guessed(POST) case 'R' => Guessed(REPORT)
    case 'S' => Guessed(SUBSCRIBE) case 'T' => Guessed(TRACE) case 'U' => Guessed(UNLOCK)
    case _ => NoGuess
  }

  /** Another method with the same beginning. */
  function NextGuess(m: Method, index: nat, ch: octet): Guess {
    match (m, index, ch)
    case (POST, 1, 'U') => Guessed(PUT)
    case (POST, 1, 'A') => Guessed(PATCH)
    case (POST, 1, 'R') => Guessed(PROPFIND)
    case (PUT, 2, 'R') => Guessed(PURGE)
    case (CONNECT, 1, 'H') => Guessed(CHECKOUT)
    case (CONNECT, 2, 'P') => Guessed(COPY)
    case (MKCOL, 1, 'O') => Guessed(MOVE)
    case (MKCOL, 1, 'E') => Guessed(MERGE)
    case (MKCOL, 1, '-') => Guessed(MSEARCH)
    case (MKCOL, 2, 'A') => Guessed(MKACTIVITY)
    case (MKCOL, 3, 'A') => Guessed(MKCALENDAR)
    case (SUBSCRIBE, 1, 'E') => Guessed(SEARCH)
    case (SUBSCRIBE, 1, 'O') => Guessed(SOURCE)
    case (REPORT, 2, 'B') => Guessed(REBIND)
    case (PROPFIND, 4, 'P') => Guessed(PROPPATCH)
    case (LOCK, 1, 'I') => Guessed(LINK)
    case (UNLOCK, 2, 'S') => Guessed(UNSUBSCRIBE)
    case (UNLOCK, 2, 'B') => Guessed(UNBIND)
    case (UNLOCK, 3, 'I') => Guessed(UNLINK)
    case _ => NoGuess
  }

  function AtReqMethod(q: Parser, ch: octet): Outcome
    requires q.index <= |Name(q.verb)|
  {
    var name := Name(q.verb);
    if ch == '\0' then Fail(INVALID_METHOD)
    else if ch == ' ' && q.index == |name| then Next(q.(state := ReqSpacesBeforeUrl, index := q.index + 1), [])
    else if q.index < |name| && ch == name[q.index] then Next(q.(index := q.index + 1), [])
    else
      match NextGuess(q.verb, q.index, ch)
      case NoGuess => Fail(INVALID_METHOD)
      case Guessed(m) => Next(q.(verb := m, index := q.index + 1), [])
  }

  function AtReqSpacesBeforeUrl(q: Parser, ch: octet): Outcome {
    if ch == ' ' then Go(q, q.state)
    else After([Mark(URL)], UrlByte(if q.verb == CONNECT then q.(state := ReqServerStart) else q, ch))
  }

  function AtReqHttpStart(q: Parser, ch: octet): Outcome {
    if ch == ' ' then Go(q, q.state)
    else if ch == 'H' then Go(q, ReqHttpH)
    else if ch == 'I' && q.verb == SOURCE then Go(q, ReqHttpI)
    else Fail(INVALID_CONSTANT)
  }

  function AtResOrRespH(q: Parser, ch: octet): Outcome {
    if ch == 'T' then Go(q.(kind := RESPONSE), ResHT)
    else if ch == 'E' then Go(q.(kind := REQUEST, verb := HEAD, index := 2), ReqMethod)
    else Fail(INVALID_CONSTANT)
  }

  function AtStartRes(q: Parser, ch: octet): Outcome {
    if ch == CR || ch == LF then Go(q, q.state)
    else if ch == 'H' then
      Next(q.(flags := NO_FLAGS, contentLength := ULLONG_MAX, state := ResH), [Notify(MessageBegin)])
    else Fail(INVALID_CONSTANT)
  }

  function AtStartReqOrRes(q: Parser, ch: octet): Outcome {
    if ch == CR || ch == LF then Go(q, q.state)
    else if ch == 'H' then
      Next(q.(flags := NO_FLAGS, contentLength := ULLONG_MAX, state := ResOrRespH), [Notify(MessageBegin)])
    else AtStartReq(q.(kind := REQUEST, state := StartReq), ch)
  }

  function Expect(q: Parser, ch: octet, c: octet, s: State, errno: Errno): Outcome {
    if ch == c then Go(q, s) else Fail(errno)
  }

  function AtResStatusCode(q: Parser, ch: octet): Outcome {
    if IsNum(ch) then
      var status := q.status * 10 + Digit(ch);
      if status > 999 then Fail(INVALID_STATUS) else Next(q.(status := status), [])
    else if ch == ' ' then Go(q, ResStatusStart)
    else if ch == CR || ch == LF then AtResStatusStart(q.(state := ResStatusStart), ch)
    else Fail(INVALID_STATUS)
  }

  function AtResStatusStart(q: Parser, ch: octet): Outcome {
    var q' := q.(state := ResStatus, index := 0);
    After([Mark(STATUS)], if ch == CR || ch == LF then AtResStatus(q', ch) else Next(q', []))
  }

  function AtResStatus(q: Parser, ch: octet): Outcome {
    if ch == CR then Next(q.(state := ResLineAlmostDone), [Flush(STATUS)])
    else if ch == LF then Next(q.(state := HeaderFieldStart), [Flush(STATUS)])
    else Next(q, [])
  }

  function AtVersion(q: Parser, ch: octet): Outcome {
    match q.state
    case ResHttpMajor => if IsNum(ch) then Go(q.(major := Digit(ch)), ResHttpDot) else Fail(INVALID_VERSION)
    case ResHttpDot => Expect(q, ch, '.', ResHttpMinor, INVALID_VERSION)
    case ResHttpMinor => if IsNum(ch) then Go(q.(minor := Digit(ch)), ResHttpEnd) else Fail(INVALID_VERSION)
    case ResHttpEnd => Expect(q, ch, ' ', ResFirstStatusCode, INVALID_VERSION)
    case _ => AtRequestVersion(q, ch)
  }

  function AtRequestVersion(q: Parser, ch: octet): Outcome {
    match q.state
    case ReqHttpMajor => if IsNum(ch) then Go(q.(major := Digit(ch)), ReqHttpDot) else Fail(INVALID_VERSION)
    case ReqHttpDot => Expect(q, ch, '.', ReqHttpMinor, INVALID_VERSION)
    case ReqHttpMinor => if IsNum(ch) then Go(q.(minor := Digit(ch)), ReqHttpEnd) else Fail(INVALID_VERSION)
    case _ => if ch == CR then Go(q, ReqLineAlmostDone) else Expect(q, ch, LF, HeaderFieldStart, INVALID_VERSION)
  }

  predicate InVersion(s: State) {
    || s.ResHttpMajor? || s.ResHttpDot? || s.ResHttpMinor? || s.ResHttpEnd?
    || s.ReqHttpMajor? || s.ReqHttpDot? || s.ReqHttpMinor? || s.ReqHttpEnd?
  }

  function AtFirstStatusCode(q: Parser, ch: octet): Outcome {
    if IsNum(ch) then Go(q.(status := Digit(ch)), ResStatusCode)
    else if ch == ' ' then Go(q, q.state)
    else Fail(INVALID_STATUS)
  }

  // ----- header fields

  function AtHeaderFieldStart(q: Parser, ch: octet): Outcome {
    if ch == CR then Go(q, HeadersAlmostDone)
    else if ch == LF then AtHeadersAlmostDone(q.(state := HeadersAlmostDone), ch)
    else
      var c := Token(ch);
      if c == '\0' then Fail(INVALID_HEADER_TOKEN)
      else Next(q.(index := 0, state := HeaderField, header := FieldStart(c)), [Mark(FIELD)])
  }

  function FieldStart(c: octet): HeaderState {
    match c
    case 'c' => C
    case 'p' => MatchingProxyConnection
    case 't' => MatchingTransferEncoding
    case 'u' => MatchingUpgrade
    case _ => General
  }

  /** A further character of a name that is compared with `name`, whose index has been advanced to it. */
  function Match(q: Parser, c: octet, name: string, matched: HeaderState, otherwise: HeaderState): (r: Parser)
    ensures r == q.(header := r.header) && (r.header == matched || r.header == otherwise || r.header == q.header)
  {
    if q.index >= |name| || c != name[q.index] then q.(header := otherwise)
    else if q.index == |name| - 1 then q.(header := matched)
    else q
  }

  /** A token character of a field name. */
  function FieldByte(q: Parser, ch: octet): Parser {
    var c, further := Token(ch), q.(index := q.index + 1);
    match q.header
    case General => q
    case C => further.(header := if c == 'o' then CO else General)
    case CO => further.(header := if c == 'n' then CON else General)
    case CON => further.(header := if c == 'n' then MatchingConnection else if c == 't' then MatchingContentLength else General)
    case MatchingConnection => Match(further, c, "connection", Connection, General)
    case MatchingProxyConnection => Match(further, c, "proxy-connection", Connection, General)
    case MatchingContentLength => Match(further, c, "content-length", ContentLength, General)
    case MatchingTransferEncoding =>
      var q' := Match(further, c, "transfer-encoding", TransferEncoding, General);
      if q'.header.TransferEncoding? then q'.(flags := q'.flags.(transferEncoding := true)) else q'
    case MatchingUpgrade => Match(further, c, "upgrade", Upgrade, General)
    case _ => if ch != ' ' then q.(header := General) else q
  }

  function AtHeaderField(q: Parser, ch: octet): Outcome {
    if Token(ch) != '\0' then Next(FieldByte(q, ch), [])
    else if ch == ':' then Next(q.(state := HeaderValueDiscardWs), [Flush(FIELD)])
    else Fail(INVALID_HEADER_TOKEN)
  }

  // ----- header values

  function AtHeaderValueDiscardWs(q: Parser, ch: octet): Outcome {
    if ch == ' ' || ch == '\t' then Go(q, q.state)
    else if ch == CR then Go(q, HeaderValueDiscardWsAlmostDone)
    else if ch == LF then Go(q, HeaderValueDiscardLws)
    else AtHeaderValueStart(q, ch)
  }

  function AtHeaderValueStart(q: Parser, ch: octet): Outcome {
    var q' := q.(state := HeaderValue, index := 0);
    if q.header.ContentLength? then
      if !IsNum(ch) then Fail(INVALID_CONTENT_LENGTH)
      else if q.flags.contentLength then Fail(UNEXPECTED_CONTENT_LENGTH)
      else Next(q'.(flags := q.flags.(contentLength := true), contentLength := Digit(ch), header := ContentLengthNum),
                [Mark(VALUE)])
    else
      Next(q'.(flags := q.flags.(upgrade := q.flags.upgrade || q.header.Upgrade?), header := ValueStart(q.header, Lower(ch))),
           [Mark(VALUE)])
  }

  /** What a value with this first character, in lower case, may become. */
  function ValueStart(header: HeaderState, c: octet): HeaderState {
    match header
    case TransferEncoding => if c == 'c' then MatchingTransferEncodingChunked else MatchingTransferEncodingToken
    case Connection =>
      if c == 'k' then MatchingConnectionKeepAlive
      else if c == 'c' then MatchingConnectionClose
      else if c == 'u' then MatchingConnectionUpgrade
      else MatchingConnectionToken
    case MatchingTransferEncodingTokenStart => header
    case MatchingConnectionTokenStart => header
    case ContentLengthWs => header
    case _ => General
  }

  datatype Byted = Ok(q: Parser) | Bad(errno: Errno)

  /** A further digit of a content length. */
  function LengthByte(q: Parser, ch: octet): Byted {
    if ch == ' ' then Ok(q.(header := ContentLengthWs))
    else if !IsNum(ch) then Bad(INVALID_CONTENT_LENGTH)
    else if (ULLONG_MAX - 10) / 10 < q.contentLength then Bad(INVALID_CONTENT_LENGTH)
    else Ok(q.(contentLength := q.contentLength * 10 + Digit(ch), header := ContentLengthNum))
  }

  /** A character of a header value other than CR and LF. */
  function ValueByte(q: Parser, ch: octet): Byted {
    var c, further := Lower(ch), q.(index := q.index + 1);
    if !IsHeaderChar(ch) then Bad(INVALID_HEADER_TOKEN) else
    match q.header
    case General => Ok(q)
    case ContentLength => if ch == ' ' then Ok(q) else LengthByte(q, ch)
    case ContentLengthNum => LengthByte(q, ch)
    case ContentLengthWs => if ch == ' ' then Ok(q) else Bad(INVALID_CONTENT_LENGTH)
    case MatchingTransferEncodingTokenStart =>
      Ok(q.(header := if c == 'c' then MatchingTransferEncodingChunked
                      else if Token(c) != '\0' then MatchingTransferEncodingToken
                      else if c == ' ' || c == '\t' then q.header
                      else General))
    case MatchingTransferEncodingChunked =>
      Ok(Match(further, c, "chunked", TransferEncodingChunked, MatchingTransferEncodingToken))
    case MatchingTransferEncodingToken =>
      Ok(if ch == ',' then q.(header := MatchingTransferEncodingTokenStart, index := 0) else q)
    case MatchingConnectionTokenStart =>
      Ok(q.(header := if c == 'k' then MatchingConnectionKeepAlive
                      else if c == 'c' then MatchingConnectionClose
                      else if c == 'u' then MatchingConnectionUpgrade
                      else if Token(c) != '\0' then MatchingConnectionToken
                      else if c == ' ' || c == '\t' then q.header
                      else General))
    case MatchingConnectionKeepAlive => Ok(Match(further, c, "keep-alive", ConnectionKeepAlive, MatchingConnectionToken))
    case MatchingConnectionClose => Ok(Match(further, c, "close", ConnectionClose, MatchingConnectionToken))
    case MatchingConnectionUpgrade => Ok(Match(further, c, "upgrade", ConnectionUpgrade, MatchingConnectionToken))
    case MatchingConnectionToken =>
      Ok(if ch == ',' then q.(header := MatchingConnectionTokenStart, index := 0) else q)
    case TransferEncodingChunked => Ok(if ch != ' ' then q.(header := MatchingTransferEncodingToken) else q)
    case ConnectionKeepAlive => Ok(ConnectionByte(q, ch))
    case ConnectionClose => Ok(ConnectionByte(q, ch))
    case ConnectionUpgrade => Ok(ConnectionByte(q, ch))
    case _ => Ok(q.(header := General))
  }

  /** After a known connection option: a comma confirms it, anything but a space makes it another one. */
  function ConnectionByte(q: Parser, ch: octet): Parser {
    if ch == ',' then q.(flags := ConnectionFlags(q), header := MatchingConnectionTokenStart, index := 0)
    else if ch != ' ' then q.(header := MatchingConnectionToken)
    else q
  }

  function ConnectionFlags(q: Parser): Flags {
    match q.header
    case ConnectionKeepAlive => q.flags.(keepAlive := true)
    case ConnectionClose => q.flags.(close := true)
    case ConnectionUpgrade => q.flags.(connectionUpgrade := true)
    case _ => q.flags
  }

  function AtHeaderValue(q: Parser, ch: octet): Outcome {
    if ch == CR then Next(q.(state := HeaderAlmostDone), [Flush(VALUE)])
    else if ch == LF then Next(q.(state := HeaderValueLws), [Flush(VALUE)])
    else
      match ValueByte(q, ch)
      case Ok(q') => Next(q', [])
      case Bad(errno) => Fail(errno)
  }

  /** A header has ended: what its value said is recorded. */
  function FinishedFlags(q: Parser): Flags {
    if q.header.TransferEncodingChunked? then q.flags.(chunked := true) else ConnectionFlags(q)
  }

  function AtHeaderValueLws(q: Parser, ch: octet): Outcome {
    if ch == ' ' || ch == '\t' then
      AtHeaderValueStart(if q.header.ContentLengthNum? then q.(header := ContentLengthWs) else q, ch)
    else
      AtHeaderFieldStart(q.(flags := FinishedFlags(q), state := HeaderFieldStart), ch)
  }

  function AtHeaderValueDiscardLws(q: Parser, ch: octet): Outcome {
    if ch == ' ' || ch == '\t' then Go(q, HeaderValueDiscardWs)
    else if q.header.ContentLength? then Fail(INVALID_CONTENT_LENGTH)
    else After([Mark(VALUE), Flush(VALUE)], AtHeaderFieldStart(q.(flags := FinishedFlags(q), state := HeaderFieldStart), ch))
  }

  // ----- the end of the headers

  function AtHeadersAlmostDone(q: Parser, ch: octet): Outcome {
    if ch != LF then Fail(STRICT)
    else if q.flags.trailing then After([Notify(ChunkComplete)], AtMessageDone(q.(state := MessageDone)))
    else if q.flags.transferEncoding && q.flags.contentLength then Fail(UNEXPECTED_CONTENT_LENGTH)
    else
      var upgrade := if q.flags.upgrade && q.flags.connectionUpgrade then q.kind.REQUEST? || q.status == 101
                     else q.verb == CONNECT;
      var q' := q.(state := HeadersDone, upgrade := upgrade);
      After([Notify(HeadersComplete(q'.(nread := 0)))], AtHeadersDone(q', ch))
  }

  function AtHeadersDone(q: Parser, ch: octet): Outcome {
    if ch != LF then Fail(STRICT) else
    var q' := q.(nread := 0);
    var hasBody := q.flags.chunked || (q.contentLength > 0 && q.contentLength != ULLONG_MAX);
    if q.upgrade && (q.verb == CONNECT || !hasBody) then Exit(NewMessage(q'), [Notify(MessageComplete)])
    else if q.flags.chunked then Go(q', ChunkSizeStart)
    else if q.flags.transferEncoding then
      if q.kind.REQUEST? then Fail(INVALID_TRANSFER_ENCODING) else Go(q', BodyIdentityEof)
    else if q.contentLength == 0 then Next(NewMessage(q'), [Notify(MessageComplete)])
    else if q.contentLength != ULLONG_MAX then Go(q', BodyIdentity)
    else if !NeedsEof(q) then Next(NewMessage(q'), [Notify(MessageComplete)])
    else Go(q', BodyIdentityEof)
  }

  // ----- bodies

  function AtChunkSizeStart(q: Parser, ch: octet): Outcome {
    if Unhex(ch) == -1 then Fail(INVALID_CHUNK_SIZE) else Go(q.(contentLength := Unhex(ch)), ChunkSize)
  }

  function AtChunkSize(q: Parser, ch: octet): Outcome {
    if ch == CR then Go(q, ChunkSizeAlmostDone)
    else if Unhex(ch) == -1 then
      if ch == ';' || ch == ' ' then Go(q, ChunkParameters) else Fail(INVALID_CHUNK_SIZE)
    else if (ULLONG_MAX - 16) / 16 < q.contentLength then Fail(INVALID_CONTENT_LENGTH)
    else Next(q.(contentLength := q.contentLength * 16 + Unhex(ch)), [])
  }

  function AtChunkSizeAlmostDone(q: Parser, ch: octet): Outcome {
    if ch != LF then Fail(STRICT) else
    Next((if q.contentLength == 0 then q.(flags := q.flags.(trailing := true), state := HeaderFieldStart)
          else q.(state := ChunkData)).(nread := 0), [Notify(ChunkHeader(q.contentLength))])
  }

  function AtChunkData(q: Parser): Outcome
    requires q.contentLength > 0
  {
    var left := q.contentLength - 1;
    Next(q.(contentLength := left, state := if left == 0 then ChunkDataAlmostDone else ChunkData), [Mark(BODY)])
  }

  function AtChunkDataAlmostDone(q: Parser, ch: octet): Outcome {
    if ch != CR then Fail(STRICT) else Next(q.(state := ChunkDataDone), [Flush(BODY)])
  }

  function AtChunkDataDone(q: Parser, ch: octet): Outcome {
    if ch != LF then Fail(STRICT) else Next(q.(nread := 0, state := ChunkSizeStart), [Notify(ChunkComplete)])
  }

  function AtBodyIdentity(q: Parser): Outcome
    requires q.contentLength > 0
  {
    var q' := q.(contentLength := q.contentLength - 1);
    After([Mark(BODY)], if q'.contentLength > 0 then Next(q', [])
                        else After([FlushThrough(BODY)], AtMessageDone(q'.(state := MessageDone))))
  }

  // ----- a byte

  /** A length that was announced is below the value that stands for none. */
  predicate LengthsOk(q: Parser) {
    q.contentLength <= ULLONG_MAX && (q.flags.contentLength ==> q.contentLength < ULLONG_MAX)
  }

  /** What the code takes for granted of its fields between bytes. */
  predicate Valid(q: Parser) {
    && LengthsOk(q)
    && (q.state.ReqMethod? ==> q.index <= |Name(q.verb)|)
    && (q.state.HeaderField? ==> FieldHeader(q.header))
    && (q.state.HeaderValue? ==> !q.header.Connection? && !q.header.TransferEncoding? && !q.header.ContentLength?)
    && (q.state.HeaderValue? && q.header.ContentLengthNum? ==> q.flags.contentLength)
    && (InChunk(q.state) ==> q.flags.chunked)
    && (q.state.ChunkSize? || q.state.ChunkParameters? || q.state.ChunkSizeAlmostDone? ==> q.contentLength < ULLONG_MAX)
    && (q.state.ChunkData? || q.state.BodyIdentity? ==> 0 < q.contentLength < ULLONG_MAX)
    && (q.state.ChunkDataAlmostDone? ==> q.contentLength == 0)
    && !q.state.MessageDone? && !q.state.HeadersDone?
  }

  /** Only the size of a chunk is read with the count at zero. */
  predicate Rested(q: Parser) {
    q.state.ChunkSizeStart? ==> q.nread == 0
  }

  predicate FieldHeader(s: HeaderState) {
    || s.General? || s.C? || s.CO? || s.CON? || s.MatchingConnection? || s.MatchingProxyConnection?
    || s.MatchingContentLength? || s.MatchingTransferEncoding? || s.MatchingUpgrade?
    || s.Connection? || s.ContentLength? || s.TransferEncoding? || s.Upgrade?
  }

  predicate InChunk(s: State) {
    || s.ChunkSizeStart? || s.ChunkSize? || s.ChunkParameters? || s.ChunkSizeAlmostDone? || s.ChunkData?
    || s.ChunkDataAlmostDone? || s.ChunkDataDone?
  }

  /** The states of a start line, apart from request targets and versions. */
  predicate InStartLine(s: State) {
    || s.Dead? || s.StartReqOrRes? || s.ResOrRespH? || s.StartRes? || s.ResH? || s.ResHT? || s.ResHTT? || s.ResHTTP?
    || s.ResFirstStatusCode? || s.ResStatusCode? || s.ResStatusStart? || s.ResStatus? || s.ResLineAlmostDone?
    || s.StartReq? || s.ReqMethod? || s.ReqSpacesBeforeUrl? || s.ReqHttpStart? || s.ReqHttpH? || s.ReqHttpHT?
    || s.ReqHttpHTT? || s.ReqHttpI? || s.ReqHttpIC? || s.ReqHttpHTTP? || s.ReqLineAlmostDone?
  }

  function StartLineByte(q: Parser, ch: octet): Outcome
    requires Valid(q)
  {
    match q.state
    case Dead => if ch == CR || ch == LF then Go(q, Dead) else Fail(CLOSED_CONNECTION)
    case StartReqOrRes => AtStartReqOrRes(q, ch)
    case ResOrRespH => AtResOrRespH(q, ch)
    case StartRes => AtStartRes(q, ch)
    case ResH => Expect(q, ch, 'T', ResHT, STRICT)
    case ResHT => Expect(q, ch, 'T', ResHTT, STRICT)
    case ResHTT => Expect(q, ch, 'P', ResHTTP, STRICT)
    case ResHTTP => Expect(q, ch, '/', ResHttpMajor, STRICT)
    case ResFirstStatusCode => AtFirstStatusCode(q, ch)
    case ResStatusCode => AtResStatusCode(q, ch)
    case ResStatusStart => AtResStatusStart(q, ch)
    case ResStatus => AtResStatus(q, ch)
    case ResLineAlmostDone => Expect(q, ch, LF, HeaderFieldStart, STRICT)
    case _ => RequestLineByte(q, ch)
  }

  function RequestLineByte(q: Parser, ch: octet): Outcome
    requires Valid(q)
  {
    match q.state
    case StartReq => AtStartReq(q, ch)
    case ReqMethod => AtReqMethod(q, ch)
    case ReqSpacesBeforeUrl => AtReqSpacesBeforeUrl(q, ch)
    case ReqHttpStart => AtReqHttpStart(q, ch)
    case ReqHttpH => Expect(q, ch, 'T', ReqHttpHT, STRICT)
    case ReqHttpHT => Expect(q, ch, 'T', ReqHttpHTT, STRICT)
    case ReqHttpHTT => Expect(q, ch, 'P', ReqHttpHTTP, STRICT)
    case ReqHttpI => Expect(q, ch, 'C', ReqHttpIC, STRICT)
    case ReqHttpIC => Expect(q, ch, 'E', ReqHttpHTTP, STRICT)
    case ReqHttpHTTP => Expect(q, ch, '/', ReqHttpMajor, STRICT)
    case _ => Expect(q, ch, LF, HeaderFieldStart, LF_EXPECTED)
  }

  function HeaderOrBodyByte(q: Parser, ch: octet): Outcome
    requires Valid(q)
  {
    match q.state
    case HeaderFieldStart => AtHeaderFieldStart(q, ch)
    case HeaderField => AtHeaderField(q, ch)
    case HeaderValueDiscardWs => AtHeaderValueDiscardWs(q, ch)
    case HeaderValueDiscardWsAlmostDone => Expect(q, ch, LF, HeaderValueDiscardLws, STRICT)
    case HeaderValueDiscardLws => AtHeaderValueDiscardLws(q, ch)
    case HeaderValueStart => AtHeaderValueStart(q, ch)
    case HeaderValue => AtHeaderValue(q, ch)
    case HeaderAlmostDone => Expect(q, ch, LF, HeaderValueLws, LF_EXPECTED)
    case HeaderValueLws => AtHeaderValueLws(q, ch)
    case HeadersAlmostDone => AtHeadersAlmostDone(q, ch)
    case ChunkSizeStart => AtChunkSizeStart(q, ch)
    case ChunkSize => AtChunkSize(q, ch)
    case ChunkParameters => Go(q, if ch == CR then ChunkSizeAlmostDone else q.state)
    case ChunkSizeAlmostDone => AtChunkSizeAlmostDone(q, ch)
    case ChunkData => AtChunkData(q)
    case ChunkDataAlmostDone => AtChunkDataAlmostDone(q, ch)
    case ChunkDataDone => AtChunkDataDone(q, ch)
    case BodyIdentity => AtBodyIdentity(q)
    case BodyIdentityEof => Next(q, [Mark(BODY)])
    case _ => Fail(STRICT)
  }

  /** One byte, after it has been counted. */
  function Byte(q: Parser, ch: octet): Outcome
    requires Valid(q)
  {
    if InUrl(q.state) then AtUrl(q, ch)
    else if InVersion(q.state) then AtVersion(q, ch)
    else if InStartLine(q.state) then StartLineByte(q, ch)
    else HeaderOrBodyByte(q, ch)
  }

  // ----- marks

  /** The mark that is set on entry if a call begins in this state: the data of an earlier call go on. */
  function EntryPart(s: State): Entry {
    if InUrl(s) then Goes(URL)
    else if s.ResStatus? then Goes(STATUS)
    else if s.HeaderField? then Goes(FIELD)
    else if s.HeaderValue? then Goes(VALUE)
    else NoEntry
  }

  datatype Entry = NoEntry | Goes(part: Part)

  predicate InBody(s: State) {
    s.ChunkData? || s.ChunkDataAlmostDone? || s.BodyIdentity? || s.BodyIdentityEof?
  }

  /**
    Which mark is set. A body mark is behind if it was set before this byte: executing the byte on its own
    would begin without it.
   */
  datatype Held = Nothing | Holding(part: Part) | Behind | Wrong

  function HeldBy(h: Held, act: Act): Held {
    match act
    case Mark(k) => if h.Nothing? || h == Holding(k) || (h.Behind? && k == BODY) then Holding(k) else Wrong
    case Flush(k) => if h.Nothing? || h == Holding(k) || (h.Behind? && k == BODY) then Nothing else Wrong
    case FlushThrough(k) => if h == Holding(k) then Nothing else Wrong
    case Notify(_) => if h.Nothing? then Nothing else Wrong
  }

  function HeldAfter(h: Held, acts: seq<Act>): Held
    decreases |acts|
  {
    if acts == [] then h else HeldAfter(HeldBy(h, acts[0]), acts[1..])
  }

  predicate HeldBefore(s: State, h: Held) {
    match EntryPart(s)
    case Goes(k) => h == Holding(k)
    case NoEntry => h.Nothing? || (InBody(s) && h.Behind?)
  }

  predicate HeldOk(s: State, h: Held) {
    match EntryPart(s)
    case Goes(k) => h == Holding(k)
    case NoEntry => h.Nothing? || (InBody(s) && h == Holding(BODY))
  }

  // ----- what every byte keeps

  /** The byte keeps what the code takes for granted, and never mixes two marks or a mark and another callback. */
  predicate Fine(o: Outcome, h: Held) {
    o.Fail? || (Valid(o.q) && Rested(o.q) && HeldOk(o.q.state, HeldAfter(h, o.acts))
                && (o.Exit? ==> HeldAfter(h, o.acts).Nothing?))
  }

  lemma FineAfter(act: Act, o: Outcome, h: Held)
    requires Fine(o, HeldBy(h, act))
    ensures Fine(After([act], o), h)
  {
    if !o.Fail? {
      assert ([act] + o.acts)[1..] == o.acts;
    }
  }

  lemma OneAct(act: Act, h: Held)
    ensures HeldAfter(h, [act]) == HeldBy(h, act)
    ensures HeldAfter(h, []) == h
  {
    assert HeldAfter(HeldBy(h, act), [act][1..]) == HeldBy(h, act);
  }

  /** States that need nothing of the other fields. */
  predicate Plain(s: State) {
    && EntryPart(s).NoEntry? && !InChunk(s) && !InBody(s)
    && !s.ReqMethod? && !s.MessageDone? && !s.HeadersDone?
  }

  lemma NextFine(q: Parser, acts: seq<Act>, h: Held)
    requires LengthsOk(q) && Plain(q.state) && HeldAfter(h, acts).Nothing?
    ensures Valid(q) && Fine(Next(q, acts), h) && Fine(Exit(q, acts), h)
  {
  }

  /** A byte that leads to a plain state, and hands out what the mark holds if there is one. */
  lemma PlainFine(o: Outcome, h: Held)
    requires o.Fail? || (LengthsOk(o.q) && Plain(o.q.state) && HeldAfter(h, o.acts).Nothing?)
    ensures Fine(o, h)
  {
  }

  lemma FailFine(errno: Errno, h: Held)
    ensures Fine(Fail(errno), h)
  {
  }

  lemma GoFine(q: Parser, s: State)
    requires LengthsOk(q) && Plain(s)
    ensures Fine(Go(q, s), Nothing)
  {
    OneAct(Notify(MessageComplete), Nothing);
  }

  lemma ValidLengths(q: Parser)
    requires Valid(q)
    ensures LengthsOk(q)
  {
  }

  lemma UrlStates(s: State, ch: octet)
    ensures ParseUrlChar(s, ch).Dead? || InUrl(ParseUrlChar(s, ch))
  {
    hide IsUrlChar, IsUserinfoChar, IsAlpha;
  }

  lemma UrlByteFine(q: Parser, ch: octet)
    requires LengthsOk(q)
    ensures Fine(UrlByte(q, ch), Holding(URL))
  {
    hide ParseUrlChar;
    UrlStates(q.state, ch);
  }

  lemma UrlFine(q: Parser, ch: octet)
    requires LengthsOk(q)
    ensures Fine(AtUrl(q, ch), Holding(URL))
  {
    hide Fine, UrlByte, HeldAfter;
    if AtUrl(q, ch) == UrlByte(q, ch) {
      UrlByteFine(q, ch);
    } else {
      OneAct(Flush(URL), Holding(URL));
      PlainFine(AtUrl(q, ch), Holding(URL));
    }
  }

  lemma BeforeUrlFine(q: Parser, ch: octet)
    requires LengthsOk(q) && q.state.ReqSpacesBeforeUrl?
    ensures Fine(AtReqSpacesBeforeUrl(q, ch), Nothing)
  {
    hide Fine, UrlByte;
    GoFine(q, q.state);
    OneAct(Mark(URL), Nothing);
    var q' := if q.verb == CONNECT then q.(state := ReqServerStart) else q;
    UrlByteFine(q', ch);
    FineAfter(Mark(URL), UrlByte(q', ch), Nothing);
  }

  lemma MethodBegun(q: Parser)
    requires LengthsOk(q) && q.state.ReqMethod? && 0 < q.index <= 2
    ensures Fine(Next(q, [Notify(MessageBegin)]), Nothing) && Fine(Next(q, []), Nothing)
  {
    OneAct(Notify(MessageBegin), Nothing);
  }

  lemma StartReqFine(q: Parser, ch: octet)
    requires LengthsOk(q) && q.state.StartReq?
    ensures Fine(AtStartReq(q, ch), Nothing)
  {
    hide Fine, FirstGuess;
    FailFine(INVALID_METHOD, Nothing);
    GoFine(q, q.state);
    if FirstGuess(ch).Guessed? {
      MethodBegun(q.(flags := NO_FLAGS, contentLength := ULLONG_MAX, verb := FirstGuess(ch).verb, index := 1, state := ReqMethod));
    }
  }

  lemma StartReqOrResFine(q: Parser, ch: octet)
    requires LengthsOk(q) && q.state.StartReqOrRes?
    ensures Fine(AtStartReqOrRes(q, ch), Nothing)
  {
    hide Fine, AtStartReq;
    OneAct(Notify(MessageBegin), Nothing);
    GoFine(q, q.state);
    NextFine(q.(flags := NO_FLAGS, contentLength := ULLONG_MAX, state := ResOrRespH), [Notify(MessageBegin)], Nothing);
    StartReqFine(q.(kind := REQUEST, state := StartReq), ch);
  }

  lemma StartResFine(q: Parser, ch: octet)
    requires LengthsOk(q) && q.state.StartRes?
    ensures Fine(AtStartRes(q, ch), Nothing)
  {
    hide Fine;
    OneAct(Notify(MessageBegin), Nothing);
    FailFine(INVALID_CONSTANT, Nothing);
    GoFine(q, q.state);
    NextFine(q.(flags := NO_FLAGS, contentLength := ULLONG_MAX, state := ResH), [Notify(MessageBegin)], Nothing);
  }

  lemma ResOrRespHFine(q: Parser, ch: octet)
    requires LengthsOk(q) && q.state.ResOrRespH?
    ensures Fine(AtResOrRespH(q, ch), Nothing)
  {
    hide Fine;
    FailFine(INVALID_CONSTANT, Nothing);
    GoFine(q.(kind := RESPONSE), ResHT);
    MethodBegun(q.(kind := REQUEST, verb := HEAD, index := 2, state := ReqMethod));
  }

  lemma MethodGoesOn(q: Parser)
    requires LengthsOk(q) && q.state.ReqMethod? && q.index <= |Name(q.verb)|
    ensures Fine(Next(q, []), Nothing)
  {
    OneAct(Notify(MessageBegin), Nothing);
  }

  /** The next guess is of a name that is long enough. */
  lemma GuessIsLonger(m: Method, index: nat, ch: octet)
    requires NextGuess(m, index, ch).Guessed?
    ensures index < |Name(NextGuess(m, index, ch).verb)|
  {
    hide Name;
    assert index <= 4;
    LongNames();
  }

  lemma LongNames()
    ensures |Name(MKCALENDAR)| > 4 && |Name(PROPPATCH)| > 4 && |Name(UNLINK)| > 4
  {
  }

  lemma MethodFine(q: Parser, ch: octet)
    requires Valid(q) && q.state.ReqMethod?
    ensures Fine(AtReqMethod(q, ch), Nothing)
  {
    hide Valid, Fine, NextGuess, Name;
    MethodIndex(q);
    FailFine(INVALID_METHOD, Nothing);
    OneAct(Notify(MessageBegin), Nothing);
    NextFine(q.(state := ReqSpacesBeforeUrl, index := q.index + 1), [], Nothing);
    if q.index < |Name(q.verb)| {
      MethodGoesOn(q.(index := q.index + 1));
    }
    if NextGuess(q.verb, q.index, ch).Guessed? {
      GuessIsLonger(q.verb, q.index, ch);
      MethodGoesOn(q.(verb := NextGuess(q.verb, q.index, ch).verb, index := q.index + 1));
    }
  }

  lemma MethodIndex(q: Parser)
    requires Valid(q) && q.state.ReqMethod?
    ensures LengthsOk(q) && q.index <= |Name(q.verb)|
  {
  }

  lemma ReasonFine(q: Parser, ch: octet)
    requires LengthsOk(q) && q.state.ResStatus?
    ensures Fine(AtResStatus(q, ch), Holding(STATUS)) && Fine(Next(q, []), Holding(STATUS))
  {
    hide HeldAfter;
    OneAct(Flush(STATUS), Holding(STATUS));
  }

  lemma ReasonStartFine(q: Parser, ch: octet)
    requires LengthsOk(q)
    ensures Fine(AtResStatusStart(q, ch), Nothing)
  {
    hide Fine, AtResStatus;
    var q' := q.(state := ResStatus, index := 0);
    OneAct(Mark(STATUS), Nothing);
    ReasonFine(q', ch);
    FineAfter(Mark(STATUS), AtResStatus(q', ch), Nothing);
    FineAfter(Mark(STATUS), Next(q', []), Nothing);
  }

  lemma StatusCodeFine(q: Parser, ch: octet)
    requires LengthsOk(q) && q.state.ResStatusCode?
    ensures Fine(AtResStatusCode(q, ch), Nothing)
  {
    hide AtResStatusStart, Fine;
    FailFine(INVALID_STATUS, Nothing);
    OneAct(Mark(STATUS), Nothing);
    if IsNum(ch) {
      NextFine(q.(status := q.status * 10 + Digit(ch)), [], Nothing);
    }
    GoFine(q, ResStatusStart);
    ReasonStartFine(q.(state := ResStatusStart), ch);
  }

  lemma MessageDoneFine(q: Parser)
    requires LengthsOk(q)
    ensures Fine(AtMessageDone(q), Nothing)
  {
    hide Fine;
    OneAct(Notify(MessageComplete), Nothing);
    NextFine(NewMessage(q), [Notify(MessageComplete)], Nothing);
  }

  lemma HeadersAlmostDoneFine(q: Parser, ch: octet)
    requires LengthsOk(q) && q.state.HeadersAlmostDone?
    ensures Fine(AtHeadersAlmostDone(q, ch), Nothing)
  {
    hide Fine, NewMessage, HeldAfter, AtMessageDone, AtHeadersDone;
    MessageDoneFine(q.(state := MessageDone));
    FineAfter(Notify(ChunkComplete), AtMessageDone(q.(state := MessageDone)), Nothing);
    var upgrade := if q.flags.upgrade && q.flags.connectionUpgrade then q.kind.REQUEST? || q.status == 101
                   else q.verb == CONNECT;
    var q' := q.(state := HeadersDone, upgrade := upgrade);
    HeadersDoneFine(q', ch);
    FineAfter(Notify(HeadersComplete(q'.(nread := 0))), AtHeadersDone(q', ch), Nothing);
    FailFine(STRICT, Nothing);
    FailFine(UNEXPECTED_CONTENT_LENGTH, Nothing);
  }

  lemma ChunksBegin(q: Parser)
    requires LengthsOk(q) && q.flags.chunked && q.nread == 0
    ensures Fine(Go(q, ChunkSizeStart), Nothing)
  {
    OneAct(Notify(MessageComplete), Nothing);
  }

  lemma BodyBegins(q: Parser)
    requires LengthsOk(q)
    ensures Fine(Go(q, BodyIdentityEof), Nothing)
    ensures 0 < q.contentLength < ULLONG_MAX ==> Fine(Go(q, BodyIdentity), Nothing)
  {
    OneAct(Notify(MessageComplete), Nothing);
  }

  lemma HeadersDoneFine(q: Parser, ch: octet)
    requires LengthsOk(q)
    ensures Fine(AtHeadersDone(q, ch), Nothing)
  {
    hide Fine, NewMessage, NeedsEof;
    OneAct(Notify(MessageComplete), Nothing);
    var q' := q.(nread := 0);
    BodyBegins(q');
    if q.flags.chunked {
      ChunksBegin(q');
    }
    NextFine(NewMessage(q'), [Notify(MessageComplete)], Nothing);
    FailFine(STRICT, Nothing);
    FailFine(INVALID_TRANSFER_ENCODING, Nothing);
  }

  lemma FieldStartFine(q: Parser, ch: octet)
    requires LengthsOk(q) && q.state.HeaderFieldStart?
    ensures Fine(AtHeaderFieldStart(q, ch), Nothing)
  {
    hide Fine, HeldAfter, AtHeadersAlmostDone, Token, FieldStart;
    FailFine(INVALID_HEADER_TOKEN, Nothing);
    GoFine(q, HeadersAlmostDone);
    HeadersAlmostDoneFine(q.(state := HeadersAlmostDone), ch);
    FieldStarts(Token(ch));
    FieldBegins(q.(index := 0, state := HeaderField, header := FieldStart(Token(ch))));
  }

  lemma FieldStarts(c: octet)
    ensures FieldHeader(FieldStart(c))
  {
  }

  lemma FieldBegins(q: Parser)
    requires LengthsOk(q) && q.state.HeaderField? && FieldHeader(q.header)
    ensures Fine(Next(q, [Mark(FIELD)]), Nothing) && Fine(Next(q, []), Holding(FIELD))
  {
    OneAct(Mark(FIELD), Nothing);
    OneAct(Mark(FIELD), Holding(FIELD));
  }

  lemma FieldByteKeeps(q: Parser, ch: octet)
    requires FieldHeader(q.header)
    ensures var q' := FieldByte(q, ch);
            && q' == q.(header := q'.header, index := q'.index, flags := q'.flags) && FieldHeader(q'.header)
            && q'.flags.contentLength == q.flags.contentLength
  {
    hide Token, Match;
  }

  lemma FieldFine(q: Parser, ch: octet)
    requires Valid(q) && q.state.HeaderField?
    ensures Fine(AtHeaderField(q, ch), Holding(FIELD))
    ensures FieldByte(q, ch).state == q.state && FieldByte(q, ch).nread == q.nread
  {
    hide Fine, Valid, HeldAfter, Token, FieldByte, FieldHeader;
    InField(q);
    OneAct(Flush(FIELD), Holding(FIELD));
    FieldByteKeeps(q, ch);
    FieldBegins(FieldByte(q, ch));
    NextFine(q.(state := HeaderValueDiscardWs), [Flush(FIELD)], Holding(FIELD));
    FailFine(INVALID_HEADER_TOKEN, Holding(FIELD));
  }

  lemma InField(q: Parser)
    requires Valid(q) && q.state.HeaderField?
    ensures LengthsOk(q) && FieldHeader(q.header)
  {
  }

  lemma ValueStartFine(q: Parser, ch: octet)
    requires LengthsOk(q)
    ensures Fine(AtHeaderValueStart(q, ch), Nothing)
  {
    hide Fine, Valid, Lower;
    var o := AtHeaderValueStart(q, ch);
    if o.Next? {
      if q.header.ContentLength? {
        LengthStartKeeps(q, ch);
      } else {
        ValueStartKeeps(q, o.q.header, o.q.flags.upgrade);
      }
      MarkedValueFine(o.q);
    } else {
      FailFine(o.errno, Nothing);
    }
  }

  lemma MarkedValueFine(q: Parser)
    requires Valid(q) && q.state.HeaderValue?
    ensures Fine(Next(q, [Mark(VALUE)]), Nothing)
  {
    OneAct(Mark(VALUE), Nothing);
  }

  lemma LengthStartKeeps(q: Parser, ch: octet)
    requires LengthsOk(q) && q.header.ContentLength? && IsNum(ch)
    ensures Valid(q.(state := HeaderValue, index := 0, flags := q.flags.(contentLength := true),
                     contentLength := Digit(ch), header := ContentLengthNum))
  {
  }

  lemma ValueStartKeeps(q: Parser, header: HeaderState, upgrade: bool)
    requires LengthsOk(q)
    requires !header.Connection? && !header.TransferEncoding? && !header.ContentLength? && !header.ContentLengthNum?
    ensures Valid(q.(state := HeaderValue, index := 0, header := header, flags := q.flags.(upgrade := upgrade)))
  {
  }

  lemma LengthByteKeeps(q: Parser, ch: octet)
    requires Valid(q) && q.state.HeaderValue? && q.flags.contentLength
    ensures LengthByte(q, ch).Ok? ==> Valid(LengthByte(q, ch).q)
    ensures LengthByte(q, ch).Ok? ==> var q' := LengthByte(q, ch).q; q'.state == q.state && q'.nread == q.nread
  {
  }

  lemma ConnectionByteKeeps(q: Parser, ch: octet)
    requires Valid(q) && q.state.HeaderValue?
    ensures var q' := ConnectionByte(q, ch); Valid(q') && q'.state == q.state && q'.nread == q.nread
  {
  }

  /** Only the length can be changed by a byte of a value, and only by a digit of a length. */
  lemma OtherHeaderKeeps(q: Parser, header: HeaderState, index: nat)
    requires Valid(q) && q.state.HeaderValue?
    requires !header.Connection? && !header.TransferEncoding? && !header.ContentLength? && !header.ContentLengthNum?
    ensures Valid(q.(header := header, index := index))
  {
  }

  lemma ValueByteKeeps(q: Parser, ch: octet)
    requires Valid(q) && q.state.HeaderValue?
    ensures ValueByte(q, ch).Ok? ==> var q' := ValueByte(q, ch).q; Valid(q') && q'.state == q.state && q'.nread == q.nread
  {
    hide Token, IsHeaderChar, Lower, Match, LengthByte, ConnectionByte;
    if q.header.ContentLengthNum? {
      LengthByteKeeps(q, ch);
    } else {
      ConnectionByteKeeps(q, ch);
      NeverThose(q);
      if ValueByte(q, ch).Ok? && !q.header.ConnectionKeepAlive? && !q.header.ConnectionClose? && !q.header.ConnectionUpgrade? {
        hide Valid;
        var q' := ValueByte(q, ch).q;
        OtherHeaderKeeps(q, q'.header, q'.index);
      }
    }
  }

  lemma NeverThose(q: Parser)
    requires Valid(q) && q.state.HeaderValue?
    ensures !q.header.Connection? && !q.header.TransferEncoding? && !q.header.ContentLength?
  {
  }

  lemma ValueFine(q: Parser, ch: octet)
    requires Valid(q) && q.state.HeaderValue?
    ensures Fine(AtHeaderValue(q, ch), Holding(VALUE))
  {
    hide HeldAfter, ValueByte;
    OneAct(Flush(VALUE), Holding(VALUE));
    ValueByteKeeps(q, ch);
  }

  /** What is recorded at the end of a header leaves the lengths alone. */
  lemma FinishedLengths(q: Parser)
    requires LengthsOk(q)
    ensures LengthsOk(q.(flags := FinishedFlags(q), state := HeaderFieldStart))
  {
  }

  lemma ValueLwsFine(q: Parser, ch: octet)
    requires LengthsOk(q) && q.state.HeaderValueLws?
    ensures Fine(AtHeaderValueLws(q, ch), Nothing)
  {
    hide Fine, FinishedFlags, LengthsOk, AtHeaderValueStart, AtHeaderFieldStart;
    FinishedLengths(q);
    FieldStartFine(q.(flags := FinishedFlags(q), state := HeaderFieldStart), ch);
    SameLengths(q);
    ValueStartFine(if q.header.ContentLengthNum? then q.(header := ContentLengthWs) else q, ch);
  }

  lemma SameLengths(q: Parser)
    requires LengthsOk(q)
    ensures LengthsOk(q.(header := ContentLengthWs))
  {
  }

  lemma DiscardLwsFine(q: Parser, ch: octet)
    requires LengthsOk(q) && q.state.HeaderValueDiscardLws?
    ensures Fine(AtHeaderValueDiscardLws(q, ch), Nothing)
  {
    hide Fine, FinishedFlags, LengthsOk, AtHeaderFieldStart, HeldAfter;
    var q' := q.(flags := FinishedFlags(q), state := HeaderFieldStart);
    FinishedLengths(q);
    FieldStartFine(q', ch);
    GoFine(q, HeaderValueDiscardWs);
    FailFine(INVALID_CONTENT_LENGTH, Nothing);
    FineAfter(Flush(VALUE), AtHeaderFieldStart(q', ch), Holding(VALUE));
    FineAfter(Mark(VALUE), After([Flush(VALUE)], AtHeaderFieldStart(q', ch)), Nothing);
    AfterAfter(Mark(VALUE), Flush(VALUE), AtHeaderFieldStart(q', ch));
  }

  lemma DiscardWsFine(q: Parser, ch: octet)
    requires LengthsOk(q) && q.state.HeaderValueDiscardWs?
    ensures Fine(AtHeaderValueDiscardWs(q, ch), Nothing)
  {
    hide Fine, LengthsOk, AtHeaderValueStart;
    GoFine(q, q.state);
    GoFine(q, HeaderValueDiscardWsAlmostDone);
    GoFine(q, HeaderValueDiscardLws);
    ValueStartFine(q, ch);
  }

  lemma AfterAfter(a: Act, b: Act, o: Outcome)
    ensures After([a], After([b], o)) == After([a, b], o)
  {
    if !o.Fail? {
      assert [a] + ([b] + o.acts) == [a, b] + o.acts;
    }
  }

  lemma ChunkNext(q: Parser, acts: seq<Act>)
    requires LengthsOk(q) && q.flags.chunked && HeldAfter(Nothing, acts).Nothing?
    requires match q.state
             case ChunkSizeStart => q.nread == 0
             case ChunkSize => q.contentLength < ULLONG_MAX
             case ChunkParameters => q.contentLength < ULLONG_MAX
             case ChunkSizeAlmostDone => q.contentLength < ULLONG_MAX
             case ChunkData => 0 < q.contentLength < ULLONG_MAX
             case _ => false
    ensures Fine(Next(q, acts), Nothing)
  {
  }

  lemma ChunkSizeStartFine(q: Parser, ch: octet)
    requires LengthsOk(q) && q.flags.chunked
    ensures Fine(AtChunkSizeStart(q, ch), Nothing)
  {
    hide Fine;
    OneAct(Notify(ChunkComplete), Nothing);
    FailFine(INVALID_CHUNK_SIZE, Nothing);
    if Unhex(ch) >= 0 {
      ChunkNext(q.(contentLength := Unhex(ch), state := ChunkSize), []);
    }
  }

  lemma ChunkSizeFine(q: Parser, ch: octet)
    requires LengthsOk(q) && q.flags.chunked && q.contentLength < ULLONG_MAX && q.state.ChunkSize?
    ensures Fine(AtChunkSize(q, ch), Nothing)
  {
    hide Fine;
    OneAct(Notify(ChunkComplete), Nothing);
    FailFine(INVALID_CHUNK_SIZE, Nothing);
    FailFine(INVALID_CONTENT_LENGTH, Nothing);
    if Unhex(ch) >= 0 && q.contentLength <= (ULLONG_MAX - 16) / 16 {
      ChunkNext(q.(contentLength := q.contentLength * 16 + Unhex(ch)), []);
    }
    ChunkNext(q.(state := ChunkSizeAlmostDone), []);
    ChunkNext(q.(state := ChunkParameters), []);
  }

  lemma ChunkBeginFine(q: Parser, ch: octet)
    requires LengthsOk(q) && q.flags.chunked && q.contentLength < ULLONG_MAX
    ensures Fine(AtChunkSizeAlmostDone(q, ch), Nothing)
  {
    hide Fine, HeldAfter;
    OneAct(Notify(ChunkHeader(q.contentLength)), Nothing);
    FailFine(STRICT, Nothing);
    var acts := [Notify(ChunkHeader(q.contentLength))];
    if q.contentLength == 0 {
      NextFine(q.(flags := q.flags.(trailing := true), state := HeaderFieldStart, nread := 0), acts, Nothing);
    } else {
      ChunkNext(q.(state := ChunkData, nread := 0), acts);
    }
  }

  lemma ChunkDoneFine(q: Parser, ch: octet)
    requires LengthsOk(q) && q.flags.chunked
    ensures Fine(AtChunkDataDone(q, ch), Nothing)
  {
    hide Fine, HeldAfter;
    OneAct(Notify(ChunkComplete), Nothing);
    FailFine(STRICT, Nothing);
    ChunkNext(q.(nread := 0, state := ChunkSizeStart), [Notify(ChunkComplete)]);
  }

  lemma InChunkSize(q: Parser)
    requires Valid(q)
    ensures LengthsOk(q) && (InChunk(q.state) ==> q.flags.chunked)
    ensures q.state.ChunkSize? || q.state.ChunkParameters? || q.state.ChunkSizeAlmostDone? ==> q.contentLength < ULLONG_MAX
  {
  }

  lemma ChunkDataFine(q: Parser, ch: octet, h: Held)
    requires Valid(q) && HeldBefore(q.state, h)
    ensures q.state.ChunkData? ==> Fine(AtChunkData(q), h)
    ensures q.state.ChunkDataAlmostDone? ==> Fine(AtChunkDataAlmostDone(q, ch), h)
    ensures q.state.BodyIdentityEof? ==> Fine(Next(q, [Mark(BODY)]), h)
  {
    hide HeldAfter;
    OneAct(Mark(BODY), h);
    OneAct(Flush(BODY), h);
  }

  lemma BodyFine(q: Parser, h: Held)
    requires Valid(q) && q.state.BodyIdentity? && HeldBefore(q.state, h)
    ensures Fine(AtBodyIdentity(q), h)
  {
    hide HeldAfter, AtMessageDone;
    var q' := q.(contentLength := q.contentLength - 1);
    if q'.contentLength > 0 {
      OneAct(Mark(BODY), Holding(BODY));
      FineAfter(Mark(BODY), Next(q', []), h);
    } else {
      var o := AtMessageDone(q'.(state := MessageDone));
      MessageDoneFine(q'.(state := MessageDone));
      FineAfter(FlushThrough(BODY), o, Holding(BODY));
      FineAfter(Mark(BODY), After([FlushThrough(BODY)], o), h);
    }
  }

  lemma ExpectFine(q: Parser, ch: octet, c: octet, s: State, errno: Errno)
    requires LengthsOk(q) && Plain(s)
    ensures Fine(Expect(q, ch, c, s, errno), Nothing)
  {
    hide Fine;
    GoFine(q, s);
    FailFine(errno, Nothing);
  }

  lemma RequestVersionFine(q: Parser, ch: octet)
    requires LengthsOk(q)
    ensures Fine(AtRequestVersion(q, ch), Nothing)
  {
    hide Fine, IsNum, Digit;
    OneAct(Flush(URL), Nothing);
    PlainFine(AtRequestVersion(q, ch), Nothing);
  }

  lemma VersionFine(q: Parser, ch: octet)
    requires LengthsOk(q)
    ensures Fine(AtVersion(q, ch), Nothing)
  {
    hide Fine, IsNum, Digit, AtRequestVersion;
    if AtVersion(q, ch) == AtRequestVersion(q, ch) {
      RequestVersionFine(q, ch);
    } else {
      OneAct(Flush(URL), Nothing);
      PlainFine(AtVersion(q, ch), Nothing);
    }
  }

  lemma FirstStatusFine(q: Parser, ch: octet)
    requires LengthsOk(q) && q.state.ResFirstStatusCode?
    ensures Fine(AtFirstStatusCode(q, ch), Nothing)
  {
    hide Fine;
    OneAct(Flush(STATUS), Nothing);
    PlainFine(AtFirstStatusCode(q, ch), Nothing);
  }

  lemma HttpStartFine(q: Parser, ch: octet)
    requires LengthsOk(q) && q.state.ReqHttpStart?
    ensures Fine(AtReqHttpStart(q, ch), Nothing)
  {
    hide Fine;
    OneAct(Flush(URL), Nothing);
    PlainFine(AtReqHttpStart(q, ch), Nothing);
  }

  lemma RequestLineFine(q: Parser, ch: octet)
    requires Valid(q)
    ensures Fine(RequestLineByte(q, ch), Nothing)
  {
    hide Valid, LengthsOk, Fine, AtStartReq, AtReqMethod, AtReqSpacesBeforeUrl, AtReqHttpStart, Expect;
    ValidLengths(q);
    match q.state
    case StartReq => StartReqFine(q, ch);
    case ReqMethod => MethodFine(q, ch);
    case ReqSpacesBeforeUrl => BeforeUrlFine(q, ch);
    case ReqHttpStart => HttpStartFine(q, ch);
    case ReqHttpH => ExpectFine(q, ch, 'T', ReqHttpHT, STRICT);
    case ReqHttpHT => ExpectFine(q, ch, 'T', ReqHttpHTT, STRICT);
    case ReqHttpHTT => ExpectFine(q, ch, 'P', ReqHttpHTTP, STRICT);
    case ReqHttpI => ExpectFine(q, ch, 'C', ReqHttpIC, STRICT);
    case ReqHttpIC => ExpectFine(q, ch, 'E', ReqHttpHTTP, STRICT);
    case ReqHttpHTTP => ExpectFine(q, ch, '/', ReqHttpMajor, STRICT);
    case _ => ExpectFine(q, ch, LF, HeaderFieldStart, LF_EXPECTED);
  }

  lemma StartLineFine(q: Parser, ch: octet)
    requires Valid(q)
    ensures Fine(StartLineByte(q, ch), if q.state.ResStatus? then Holding(STATUS) else Nothing)
  {
    hide Valid, LengthsOk, Fine, AtStartReqOrRes, AtStartRes, AtResOrRespH, RequestLineByte;
    hide AtResStatusCode, AtResStatusStart, AtResStatus, AtFirstStatusCode, Expect, Go;
    ValidLengths(q);
    match q.state
    case Dead => GoFine(q, Dead); FailFine(CLOSED_CONNECTION, Nothing);
    case StartReqOrRes => StartReqOrResFine(q, ch);
    case ResOrRespH => ResOrRespHFine(q, ch);
    case StartRes => StartResFine(q, ch);
    case ResH => ExpectFine(q, ch, 'T', ResHT, STRICT);
    case ResHT => ExpectFine(q, ch, 'T', ResHTT, STRICT);
    case ResHTT => ExpectFine(q, ch, 'P', ResHTTP, STRICT);
    case ResHTTP => ExpectFine(q, ch, '/', ResHttpMajor, STRICT);
    case ResFirstStatusCode => FirstStatusFine(q, ch);
    case ResStatusCode => StatusCodeFine(q, ch);
    case ResStatusStart => ReasonStartFine(q, ch);
    case ResStatus => ReasonFine(q, ch);
    case ResLineAlmostDone => ExpectFine(q, ch, LF, HeaderFieldStart, STRICT);
    case _ => RequestLineFine(q, ch);
  }

  lemma HeaderFine(q: Parser, ch: octet, h: Held)
    requires Valid(q) && !InUrl(q.state) && !InVersion(q.state) && !InStartLine(q.state) && HeldBefore(q.state, h)
    ensures Fine(HeaderOrBodyByte(q, ch), h)
  {
    hide Valid, LengthsOk, Fine, AtHeaderFieldStart, AtHeaderField, AtHeaderValueDiscardWs, AtHeaderValueDiscardLws;
    hide AtHeaderValueStart, AtHeaderValue, AtHeaderValueLws, AtHeadersAlmostDone, AtChunkSizeStart, AtChunkSize;
    hide AtChunkSizeAlmostDone, AtChunkData, AtChunkDataAlmostDone, AtChunkDataDone, AtBodyIdentity, Expect, Go;
    ValidLengths(q);
    InChunkSize(q);
    match q.state
    case HeaderFieldStart => FieldStartFine(q, ch);
    case HeaderField => FieldFine(q, ch);
    case HeaderValueDiscardWs => DiscardWsFine(q, ch);
    case HeaderValueDiscardWsAlmostDone => ExpectFine(q, ch, LF, HeaderValueDiscardLws, STRICT);
    case HeaderValueDiscardLws => DiscardLwsFine(q, ch);
    case HeaderValueStart => ValueStartFine(q, ch);
    case HeaderValue => ValueFine(q, ch);
    case HeaderAlmostDone => ExpectFine(q, ch, LF, HeaderValueLws, LF_EXPECTED);
    case HeaderValueLws => ValueLwsFine(q, ch);
    case HeadersAlmostDone => HeadersAlmostDoneFine(q, ch);
    case ChunkSizeStart => ChunkSizeStartFine(q, ch);
    case ChunkSize => ChunkSizeFine(q, ch);
    case ChunkParameters => ParametersFine(q, ch);
    case ChunkSizeAlmostDone => ChunkBeginFine(q, ch);
    case ChunkData => ChunkDataFine(q, ch, h);
    case ChunkDataAlmostDone => ChunkDataFine(q, ch, h);
    case ChunkDataDone => ChunkDoneFine(q, ch);
    case BodyIdentity => BodyFine(q, h);
    case BodyIdentityEof => ChunkDataFine(q, ch, h);
    case _ => FailFine(STRICT, h);
  }

  lemma ParametersFine(q: Parser, ch: octet)
    requires LengthsOk(q) && q.state.ChunkParameters? && q.flags.chunked && q.contentLength < ULLONG_MAX
    ensures Fine(Go(q, if ch == CR then ChunkSizeAlmostDone else q.state), Nothing)
  {
    hide Fine;
    OneAct(Notify(ChunkComplete), Nothing);
    ChunkNext(q.(state := ChunkSizeAlmostDone), []);
    ChunkNext(q, []);
  }

  /** Which mark is set in a target, a version or another part of a start line. */
  lemma HeldInStartLine(s: State, h: Held)
    requires HeldBefore(s, h)
    ensures InUrl(s) ==> h == Holding(URL)
    ensures !InUrl(s) && InVersion(s) ==> h == Nothing
    ensures !InUrl(s) && InStartLine(s) ==> h == if s.ResStatus? then Holding(STATUS) else Nothing
  {
  }

  /** Every byte keeps what the code takes for granted, in every state. */
  lemma ByteFine(q: Parser, ch: octet, h: Held)
    requires Valid(q) && HeldBefore(q.state, h)
    ensures Fine(Byte(q, ch), h)
  {
    hide Valid, LengthsOk, Fine, AtUrl, AtVersion, StartLineByte, HeaderOrBodyByte;
    hide HeldBefore, InUrl, InVersion, InStartLine;
    ValidLengths(q);
    HeldInStartLine(q.state, h);
    if InUrl(q.state) {
      UrlFine(q, ch);
    } else if InVersion(q.state) {
      VersionFine(q, ch);
    } else if InStartLine(q.state) {
      StartLineFine(q, ch);
    } else {
      HeaderFine(q, ch, h);
    }
  }
}
