/**
  What the HTTP parser finds in the values of Connection and Transfer-Encoding, as lists of items between commas.
  Where it differs from a plain list is said here too.
 */
module HttpValues {
  import opened Options
  import opened HttpChars
  import opened HttpMachine
  import opened HttpRun
  import opened HttpStretch
  import opened HttpFields

  const COMMA: octet := ','

  /** A list of connection options, or of transfer codings, and the words that are looked for in it. */
  datatype Family = ConnectionOptions | TransferCodings
  datatype Word = KeepAlive | Close | Upgraded | Chunked

  function Spelling(w: Word): string {
    match w
    case KeepAlive => "keep-alive"
    case Close => "close"
    case Upgraded => "upgrade"
    case Chunked => "chunked"
  }

  function WordAt(f: Family, c: octet): Option<Word> {
    if f.TransferCodings? then if SameLetter(c, 'c') then Some(Chunked) else None
    else if SameLetter(c, 'k') then Some(KeepAlive)
    else if SameLetter(c, 'c') then Some(Close)
    else if SameLetter(c, 'u') then Some(Upgraded)
    else None
  }

  /** What the item is: a word, perhaps with spaces behind it, only the beginning of one, or something else. */
  datatype Item = Is(word: Word) | Unfinished(word: Word) | Unknown

  function ItemOf(f: Family, item: seq<octet>): Item
    requires item != []
  {
    match WordAt(f, item[0])
    case None => Unknown
    case Some(w) =>
      var n := |Spelling(w)|;
      if |item| < n then if Begins(item, Spelling(w)) then Unfinished(w) else Unknown
      else if Begins(item[..n], Spelling(w)) && Spaces(item[n..]) then Is(w)
      else Unknown
  }

  predicate Spaces(s: seq<octet>) {
    forall i :: 0 <= i < |s| ==> s[i] == ' '
  }

  function Stripped(s: seq<octet>): (r: seq<octet>)
    ensures r != [] ==> r[0] != ' '
  {
    if s != [] && s[0] == ' ' then Stripped(s[1..]) else s
  }

  /** What an item other than the first one may begin with. */
  predicate Opens(c: octet) {
    'a' <= c <= 'z' || 'A' <= c <= 'Z' || '0' <= c <= '9' || c in "!#$%&'*+-.@\\^`|~"
  }

  function Added(flags: Flags, w: Word): Flags {
    match w
    case KeepAlive => flags.(keepAlive := true)
    case Close => flags.(close := true)
    case Upgraded => flags.(connectionUpgrade := true)
    case Chunked => flags.(chunked := true)
  }

  /**
    What a list of items says.  The comma behind an unfinished word, and the one behind "chunked", is taken for a part of
    it, so that the next item is lost; a blank item, or an odd one, loses all that follow.
   */
  function ListFlags(f: Family, items: seq<seq<octet>>, flags: Flags): Flags
    decreases |items|, 1
  {
    if items == [] then flags
    else
      var item := Stripped(items[0]);
      if item == [] || !Opens(item[0]) then flags else ItemFlags(f, item, items[1..], flags)
  }

  function ItemFlags(f: Family, item: seq<octet>, rest: seq<seq<octet>>, flags: Flags): Flags
    requires item != []
    decreases |rest| + 1, 0
  {
    var without := if rest == [] then [] else rest[1..];
    match ItemOf(f, item)
    case Is(w) =>
      if w != Chunked then ListFlags(f, rest, Added(flags, w))
      else if rest == [] then Added(flags, w)
      else ListFlags(f, without, flags)
    case Unfinished(_) => ListFlags(f, without, flags)
    case Unknown => ListFlags(f, rest, flags)
  }

  /** A whole value; its first item begins the value, or is empty and loses the next one. */
  function ValueFlags(f: Family, items: seq<seq<octet>>, flags: Flags): Flags
    requires items != []
  {
    if items[0] != [] then ItemFlags(f, items[0], items[1..], flags)
    else if |items| == 1 then flags
    else ListFlags(f, items[2..], flags)
  }

  // ----- the items of a value

  function Listed(items: seq<seq<octet>>): seq<octet>
    requires items != []
  {
    if |items| == 1 then items[0] else items[0] + [COMMA] + Listed(items[1..])
  }

  /** The items between the commas of a value. */
  function Items(value: seq<octet>): (items: seq<seq<octet>>)
    ensures items != []
  {
    if value == [] then [[]]
    else
      var items := Items(value[1..]);
      if value[0] == ',' then [[]] + items else [[value[0]] + items[0]] + items[1..]
  }

  predicate NoComma(s: seq<octet>) {
    forall i :: 0 <= i < |s| ==> s[i] != ','
  }

  lemma {:induction false} ItemsListed(value: seq<octet>)
    ensures Listed(Items(value)) == value && forall i :: 0 <= i < |Items(value)| ==> NoComma(Items(value)[i])
  {
    if value != [] {
      ItemsListed(value[1..]);
      var rest, items := Items(value[1..]), Items(value);
      assert value == [value[0]] + value[1..];
      if value[0] == ',' {
        assert items[1..] == rest;
      } else if |rest| > 1 {
        assert items[1..] == rest[1..];
        assert [value[0]] + (rest[0] + [COMMA] + Listed(rest[1..])) == ([value[0]] + rest[0]) + [COMMA] + Listed(rest[1..]);
      }
    }
  }

  // ----- an item, byte by byte

  function Matching(w: Word): HeaderState {
    match w
    case KeepAlive => MatchingConnectionKeepAlive
    case Close => MatchingConnectionClose
    case Upgraded => MatchingConnectionUpgrade
    case Chunked => MatchingTransferEncodingChunked
  }

  function Found(w: Word): HeaderState {
    match w
    case KeepAlive => ConnectionKeepAlive
    case Close => ConnectionClose
    case Upgraded => ConnectionUpgrade
    case Chunked => TransferEncodingChunked
  }

  function Start(f: Family): HeaderState {
    if f.ConnectionOptions? then MatchingConnectionTokenStart else MatchingTransferEncodingTokenStart
  }

  function Other(f: Family): HeaderState {
    if f.ConnectionOptions? then MatchingConnectionToken else MatchingTransferEncodingToken
  }

  predicate WordOf(f: Family, w: Word) {
    f.TransferCodings? <==> w == Chunked
  }

  lemma SpellingIs(w: Word)
    ensures |Spelling(w)| >= 5 && forall i :: 0 <= i < |Spelling(w)| ==> WordLetter(Spelling(w)[i])
  {
  }

  /** The header state in the middle of an item that has begun. */
  function WordHeader(f: Family, item: seq<octet>): HeaderState
    requires item != []
  {
    match ItemOf(f, item)
    case Is(w) => Found(w)
    case Unfinished(w) => Matching(w)
    case Unknown => Other(f)
  }

  /** A character of an item. */
  predicate InItem(c: octet) {
    IsHeaderChar(c) && c != CR && c != LF && c != ','
  }

  lemma NextInWord(q: Parser, c: octet, w: Word)
    requires q.header == Matching(w) && IsHeaderChar(c)
    ensures ValueByte(q, c)
         == Ok(Match(q.(index := q.index + 1), Lower(c), Spelling(w), Found(w), Other(FamilyOf(w))))
  {
    hide Lower, Match;
  }

  function FamilyOf(w: Word): Family {
    if w == Chunked then TransferCodings else ConnectionOptions
  }

  /** The words of the family begin with different letters. */
  lemma WordAtFamily(f: Family, c: octet)
    ensures WordAt(f, c).Some? ==> FamilyOf(WordAt(f, c).value) == f && SameLetter(c, Spelling(WordAt(f, c).value)[0])
  {
  }

  /** The word goes on. */
  lemma MatchingStep(f: Family, q: Parser, s: seq<octet>, c: octet, w: Word)
    requires s != [] && InItem(c) && ItemOf(f, s) == Unfinished(w) && q.header == Matching(w) && q.index == |s| - 1
    ensures var b := ValueByte(q, c);
            b.Ok? && b.q == q.(header := WordHeader(f, s + [c]), index := |s|)
  {
    hide Lower, Begins, Spelling, SameLetter, Token, InItem;
    var t := s + [c];
    NotReturn(c);
    NextInWord(q, c, w);
    WordAtFamily(f, s[0]);
    SpellingIs(w);
    BeginsMore(s, c, Spelling(w));
    LowerLetter(c, Spelling(w)[|s|]);
    if |t| == |Spelling(w)| {
      assert t[..|t|] == t && t[|t|..] == [];
    }
  }

  lemma NotReturn(c: octet)
    requires InItem(c)
    ensures c != CR && c != LF && c != ',' && IsHeaderChar(c)
  {
  }

  lemma FoundStep(f: Family, q: Parser, s: seq<octet>, c: octet, w: Word)
    requires s != [] && InItem(c) && ItemOf(f, s) == Is(w) && q.header == Found(w)
    ensures ValueByte(q, c) == Ok(q.(header := WordHeader(f, s + [c])))
  {
    hide Begins, Spelling, SameLetter, Token, IsHeaderChar, Lower;
    var t, n := s + [c], |Spelling(w)|;
    WordAtFamily(f, s[0]);
    assert t[..n] == s[..n] && t[n..] == s[n..] + [c];
    assert Spaces(t[n..]) <==> c == ' ' by {
      assert t[n..][|s| - n] == c;
    }
  }

  lemma StaysUnknown(f: Family, s: seq<octet>, c: octet)
    requires s != [] && ItemOf(f, s).Unknown?
    ensures ItemOf(f, s + [c]).Unknown?
  {
    hide Begins, Spelling, SameLetter;
    var t := s + [c];
    if WordAt(f, s[0]).Some? {
      var w := WordAt(f, s[0]).value;
      var n := |Spelling(w)|;
      if |s| < n {
        BeginsMore(s, c, Spelling(w));
        if |t| == n {
          assert t[..n] == t;
        }
      } else {
        assert t[..n] == s[..n] && t[n..] == s[n..] + [c];
        if Spaces(t[n..]) {
          assert forall i :: 0 <= i < |s| - n ==> s[n..][i] == t[n..][i];
        }
      }
    }
  }

  lemma OtherStays(f: Family, q: Parser, c: octet)
    requires InItem(c) && q.header == Other(f)
    ensures ValueByte(q, c) == Ok(q)
  {
    hide Lower, Token;
  }

  /** In the middle of an item that has begun. */
  predicate InWord(f: Family, q: Parser, s: seq<octet>)
    requires s != []
  {
    q.state.HeaderValue? && q.header == WordHeader(f, s) && (ItemOf(f, s).Unfinished? ==> q.index == |s| - 1)
  }

  lemma WordStep(f: Family, q: Parser, s: seq<octet>, c: octet)
    requires s != [] && InItem(c) && InWord(f, q, s)
    ensures var b := Plain1(q, c);
            b.Ok? && InWord(f, b.q, s + [c]) && b.q == q.(header := b.q.header, index := b.q.index)
  {
    hide ItemOf, Found, Matching, Other, ValueByte, InItem;
    NotReturn(c);
    match ItemOf(f, s)
    case Unfinished(w) => MatchingStep(f, q, s, c, w);
    case Is(w) => FoundStep(f, q, s, c, w); NotUnfinished(f, s, c);
    case Unknown => OtherStays(f, q, c); StaysUnknown(f, s, c);
  }

  lemma NotUnfinished(f: Family, s: seq<octet>, c: octet)
    requires s != [] && ItemOf(f, s).Is?
    ensures !ItemOf(f, s + [c]).Unfinished?
  {
    hide Begins, Spelling, SameLetter;
  }

  predicate AllInItem(s: seq<octet>) {
    forall i :: 0 <= i < |s| ==> InItem(s[i])
  }

  lemma {:induction false} WordRead(f: Family, q: Parser, s: seq<octet>, t: seq<octet>)
    requires s != [] && AllInItem(t) && InWord(f, q, s)
    ensures var b := PlainBytes(q, t);
            b.Ok? && InWord(f, b.q, s + t) && b.q == q.(header := b.q.header, index := b.q.index)
  {
    hide Plain1, InWord, InItem;
    if t == [] {
      assert s + t == s;
    } else {
      var last := |t| - 1;
      WordRead(f, q, s, t[..last]);
      WordStep(f, PlainBytes(q, t[..last]).q, s + t[..last], t[last]);
      assert s + t[..last] + [t[last]] == s + t;
    }
  }

  lemma {:induction false} PlainConcat(q: Parser, a: seq<octet>, b: seq<octet>)
    ensures PlainBytes(q, a + b) == if PlainBytes(q, a).Ok? then PlainBytes(PlainBytes(q, a).q, b) else PlainBytes(q, a)
  {
    hide Plain1;
    if b == [] {
      assert a + b == a;
    } else {
      var last := |b| - 1;
      assert (a + b)[..|a + b| - 1] == a + b[..last] && (a + b)[|a + b| - 1] == b[last];
      PlainConcat(q, a, b[..last]);
    }
  }

  // ----- the beginning of an item

  lemma OpensIs(c: octet)
    requires InItem(c) && c != ' '
    ensures Opens(c) <==> Token(Lower(c)) != '\0'
  {
  }

  lemma LowerBlank(c: octet)
    requires InItem(c)
    ensures (Lower(c) == ' ' <==> c == ' ') && Lower(c) != '\t'
  {
  }

  lemma FirstWordHeader(f: Family, c: octet)
    ensures WordHeader(f, [c]) == if WordAt(f, c).Some? then Matching(WordAt(f, c).value) else Other(f)
  {
    hide Spelling, SameLetter;
    if WordAt(f, c).Some? {
      WordAtFamily(f, c);
      SpellingIs(WordAt(f, c).value);
    }
  }

  lemma FirstLetters(c: octet)
    requires c != CR
    ensures SameLetter(c, 'k') <==> Lower(c) == 'k'
    ensures SameLetter(c, 'c') <==> Lower(c) == 'c'
    ensures SameLetter(c, 'u') <==> Lower(c) == 'u'
  {
    LowerLetter(c, 'k');
    LowerLetter(c, 'c');
    LowerLetter(c, 'u');
  }

  lemma LettersOpen(f: Family, c: octet)
    ensures WordAt(f, c).Some? ==> Opens(c)
  {
  }

  /** The first character of an item that is not the first one. */
  lemma ItemStarts(f: Family, q: Parser, c: octet)
    requires InItem(c) && c != ' ' && q.state.HeaderValue? && q.header == Start(f) && q.index == 0
    ensures Plain1(q, c) == Ok(q.(header := if Opens(c) then WordHeader(f, [c]) else General))
  {
    hide Lower, Token, Opens, WordHeader, IsHeaderChar, SameLetter;
    OpensIs(c);
    LowerBlank(c);
    FirstWordHeader(f, c);
    FirstLetters(c);
    LettersOpen(f, c);
  }

  lemma BlankStays(f: Family, q: Parser)
    requires q.state.HeaderValue? && q.header == Start(f)
    ensures Plain1(q, ' ') == Ok(q)
  {
    assert Lower(' ') == ' ' && Token(' ') == '\0';
  }

  lemma {:induction false} BlanksStay(f: Family, q: Parser, s: seq<octet>)
    requires q.state.HeaderValue? && q.header == Start(f) && Spaces(s)
    ensures PlainBytes(q, s) == Ok(q)
  {
    hide Plain1;
    if s != [] {
      BlanksStay(f, q, s[..|s| - 1]);
      BlankStays(f, q);
    }
  }

  /** Characters of items, and commas. */
  predicate InValue(s: seq<octet>) {
    forall i :: 0 <= i < |s| ==> InItem(s[i]) || s[i] == ','
  }

  lemma InValueBoth(a: seq<octet>, b: seq<octet>)
    requires InValue(a) && InValue(b)
    ensures InValue(a + b)
  {
    hide InItem;
  }

  lemma {:induction false} IgnoredStay(q: Parser, s: seq<octet>)
    requires q.state.HeaderValue? && q.header.General? && InValue(s)
    ensures PlainBytes(q, s) == Ok(q)
  {
    hide Token;
    if s != [] {
      IgnoredStay(q, s[..|s| - 1]);
    }
  }

  lemma {:induction false} OthersStay(f: Family, q: Parser, s: seq<octet>)
    requires q.state.HeaderValue? && q.header == Other(f) && AllInItem(s)
    ensures PlainBytes(q, s) == Ok(q)
  {
    hide InItem, Token, ValueByte;
    if s != [] {
      OthersStay(f, q, s[..|s| - 1]);
      OtherStays(f, q, s[|s| - 1]);
      NotReturn(s[|s| - 1]);
    }
  }

  // ----- commas

  lemma CommaAfterWord(f: Family, q: Parser, s: seq<octet>)
    requires s != [] && InWord(f, q, s)
    ensures var b := Plain1(q, ',');
            && b.Ok? && b.q == q.(header := b.q.header, index := b.q.index, flags := b.q.flags)
            && match ItemOf(f, s)
               case Is(w) =>
                 if w == Chunked then b.q.header == Other(f) && b.q.flags == q.flags
                 else b.q.header == Start(f) && b.q.index == 0 && b.q.flags == Added(q.flags, w)
               case Unfinished(_) => b.q.header == Other(f) && b.q.flags == q.flags
               case Unknown => b.q.header == Start(f) && b.q.index == 0 && b.q.flags == q.flags
  {
    hide Begins, SameLetter, Token, Lower, ValueByte, Spelling, IsHeaderChar;
    WordAtFamily(f, s[0]);
    match ItemOf(f, s)
    case Is(w) => CommaAfterFound(q, w);
    case Unfinished(w) =>
      CommaIsHeaderChar();
      NextInWord(q, ',', w);
      CommaIsNoLetter(w, |s|);
    case Unknown => CommaAfterOther(f, q);
  }

  lemma CommaIsHeaderChar()
    ensures IsHeaderChar(',')
  {
  }

  lemma CommaAfterFound(q: Parser, w: Word)
    requires q.header == Found(w)
    ensures ValueByte(q, ',') == Ok(if w == Chunked then q.(header := Other(TransferCodings))
                                    else q.(header := Start(ConnectionOptions), index := 0, flags := Added(q.flags, w)))
  {
    hide Lower, Token;
  }

  lemma CommaAfterOther(f: Family, q: Parser)
    requires q.header == Other(f)
    ensures ValueByte(q, ',') == Ok(q.(header := Start(f), index := 0))
  {
    hide Lower, Token;
  }

  lemma CommaIsNoLetter(w: Word, i: nat)
    requires i < |Spelling(w)|
    ensures Spelling(w)[i] != Lower(',')
  {
    SpellingIs(w);
  }

  // ----- a value

  /** Characters of a value: those of items, and commas. */
  predicate AllItems(items: seq<seq<octet>>) {
    forall i :: 0 <= i < |items| ==> AllInItem(items[i])
  }

  /** The value was read, and the end of the line will record these flags. */
  predicate ReadAs(q: Parser, b: Byted, flags: Flags) {
    && b.Ok? && b.q == q.(header := b.q.header, index := b.q.index, flags := b.q.flags)
    && FinishedFlags(b.q) == flags
  }

  lemma ReadOn(q: Parser, a: seq<octet>, b: seq<octet>, flags: Flags)
    requires PlainBytes(q, a).Ok?
    requires var q1 := PlainBytes(q, a).q;
             q1 == q.(header := q1.header, index := q1.index, flags := q1.flags) && ReadAs(q1, PlainBytes(q1, b), flags)
    ensures ReadAs(q, PlainBytes(q, a + b), flags)
  {
    hide PlainBytes, FinishedFlags;
    PlainConcat(q, a, b);
  }

  lemma OneMore(q: Parser, c: octet)
    ensures PlainBytes(q, [c]) == Plain1(q, c)
  {
    hide Plain1;
    assert [c][..0] == [];
  }

  /** The spaces in front of an item. */
  function StrippedOff(s: seq<octet>): (r: seq<octet>)
    ensures r + Stripped(s) == s && Spaces(r)
  {
    if s != [] && s[0] == ' ' then [' '] + StrippedOff(s[1..]) else []
  }

  lemma CommaIsPlain(q: Parser)
    requires q.state.HeaderValue?
    ensures Plain1(q, ',') == ValueByte(q, ',')
  {
    hide Token;
  }

  lemma NothingRecorded(f: Family, q: Parser)
    requires q.header == Other(f) || q.header == Start(f) || q.header.General?
    ensures FinishedFlags(q) == q.flags && ListFlags(f, [], q.flags) == q.flags
  {
  }

  lemma CommaAtStart(f: Family, q: Parser)
    requires q.state.HeaderValue? && q.header == Start(f)
    ensures Plain1(q, ',') == Ok(q.(header := General))
  {
    assert Token(Lower(',')) == '\0';
  }

  /** A blank item: what follows it is ignored. */
  lemma BlankRead(f: Family, q: Parser, tail: seq<octet>, rest: seq<seq<octet>>)
    requires AllItems(rest) && tail == (if rest == [] then [] else [COMMA] + Listed(rest))
    requires q.state.HeaderValue? && q.header == Start(f)
    ensures ReadAs(q, PlainBytes(q, tail), q.flags)
  {
    hide Plain1, FinishedFlags, Listed;
    NothingRecorded(f, q);
    if rest != [] {
      CommaAtStart(f, q);
      OneMore(q, ',');
      var q1 := PlainBytes(q, [COMMA]).q;
      ListedItems(rest);
      IgnoredStay(q1, Listed(rest));
      NothingRecorded(f, q1);
      ReadOn(q, [COMMA], Listed(rest), q.flags);
    }
  }

  /** An item that does not begin as one should. */
  lemma OddRead(f: Family, q: Parser, c: octet, more: seq<octet>)
    requires InItem(c) && c != ' ' && !Opens(c) && InValue(more)
    requires q.state.HeaderValue? && q.header == Start(f) && q.index == 0
    ensures ReadAs(q, PlainBytes(q, [c] + more), q.flags)
  {
    hide Plain1, FinishedFlags, Opens, InItem, PlainBytes, InValue;
    ItemStarts(f, q, c);
    OneMore(q, c);
    var q1 := PlainBytes(q, [c]).q;
    IgnoredStay(q1, more);
    NothingRecorded(f, q);
    NothingRecorded(f, q1);
    ReadOn(q, [c], more, q.flags);
  }

  lemma TailInValue(rest: seq<seq<octet>>)
    requires AllItems(rest)
    ensures InValue(if rest == [] then [] else [COMMA] + Listed(rest))
  {
    hide InItem, Listed;
    if rest != [] {
      ListedItems(rest);
      InValueBoth([COMMA], Listed(rest));
    }
  }

  lemma ItemInValue(item: seq<octet>)
    requires AllInItem(item)
    ensures InValue(item)
  {
  }

  lemma ItemBegun(f: Family, q: Parser, item: seq<octet>)
    requires item != [] && AllInItem(item) && item[0] != ' ' && Opens(item[0])
    requires q.state.HeaderValue? && q.header == Start(f) && q.index == 0
    ensures var b := PlainBytes(q, item);
            b.Ok? && InWord(f, b.q, item) && b.q == q.(header := b.q.header, index := b.q.index)
  {
    hide Plain1, Opens, InItem, ItemOf;
    ItemStarts(f, q, item[0]);
    OneMore(q, item[0]);
    var q1 := PlainBytes(q, [item[0]]).q;
    assert item == [item[0]] + item[1..];
    PlainConcat(q, [item[0]], item[1..]);
    WordRead(f, q1, [item[0]], item[1..]);
  }

  lemma {:induction false} ListedItems(items: seq<seq<octet>>)
    requires items != [] && AllItems(items)
    ensures InValue(Listed(items))
  {
    hide InItem;
    if |items| > 1 {
      ListedItems(items[1..]);
      InValueBoth([COMMA], Listed(items[1..]));
      InValueBoth(items[0], [COMMA] + Listed(items[1..]));
      assert Listed(items) == items[0] + ([COMMA] + Listed(items[1..]));
    }
  }

  /** An item that has been read, and what follows it. */
  lemma {:induction false} RestRead(f: Family, q: Parser, s: seq<octet>, rest: seq<seq<octet>>)
    requires s != [] && InWord(f, q, s) && AllItems(rest)
    ensures ReadAs(q, PlainBytes(q, if rest == [] then [] else [COMMA] + Listed(rest)), ItemFlags(f, s, rest, q.flags))
    decreases |rest|, 1
  {
    hide InWord, ItemOf, InItem, Plain1, FinishedFlags;
    if rest == [] {
      EndsWithWord(f, q, s);
    } else {
      CommaAfterWord(f, q, s);
      OneMore(q, ',');
      InWordIs(f, q, s);
      var q1 := PlainBytes(q, [COMMA]).q;
      if q1.header == Other(f) {
        SkipRead(f, q1, rest);
      } else {
        ListRead(f, q1, rest);
      }
      ReadOn(q, [COMMA], Listed(rest), ItemFlags(f, s, rest, q.flags));
    }
  }

  lemma InWordIs(f: Family, q: Parser, s: seq<octet>)
    requires s != [] && InWord(f, q, s)
    ensures q.state.HeaderValue? && Start(f) != Other(f)
    ensures ItemOf(f, s).Is? ==> WordOf(f, ItemOf(f, s).word)
  {
    hide Spelling, Begins;
    WordAtFamily(f, s[0]);
  }

  lemma EndsWithWord(f: Family, q: Parser, s: seq<octet>)
    requires s != [] && InWord(f, q, s)
    ensures FinishedFlags(q) == ItemFlags(f, s, [], q.flags)
  {
    hide Spelling, Begins, SameLetter;
  }

  /** The items that follow a comma. */
  lemma {:induction false} ListRead(f: Family, q: Parser, items: seq<seq<octet>>)
    requires items != [] && AllItems(items) && q.state.HeaderValue? && q.header == Start(f) && q.index == 0
    ensures ReadAs(q, PlainBytes(q, Listed(items)), ListFlags(f, items, q.flags))
    decreases |items|, 0
  {
    hide ItemFlags, InItem, Plain1, PlainBytes, FinishedFlags, Opens, Stripped, StrippedOff, Start, ReadAs;
    var item, blanks, rest := Stripped(items[0]), StrippedOff(items[0]), items[1..];
    var tail := if rest == [] then [] else [COMMA] + Listed(rest);
    StrippedIn(items[0]);
    BlanksStay(f, q, blanks);
    ListedFrom(items);
    if item == [] {
      BlankRead(f, q, tail, rest);
      assert item + tail == tail;
    } else if !Opens(item[0]) {
      OddItemRead(f, q, item, rest);
    } else {
      ItemRead(f, q, item, rest);
    }
    ReadOn(q, blanks, item + tail, ListFlags(f, items, q.flags));
  }

  lemma FourParts<T>(a: seq<T>, b: seq<T>, c: seq<T>, d: seq<T>)
    ensures (a + b) + c + d == a + (b + (c + d))
  {
  }

  lemma ListedFrom(items: seq<seq<octet>>)
    requires items != []
    ensures Listed(items)
         == StrippedOff(items[0]) + (Stripped(items[0]) + if |items| == 1 then [] else [COMMA] + Listed(items[1..]))
  {
    hide Stripped, StrippedOff, Spaces;
    var a, b := StrippedOff(items[0]), Stripped(items[0]);
    assert a + b == items[0];
    if |items| == 1 {
      assert b + [] == b;
    } else {
      FourParts(a, b, [COMMA], Listed(items[1..]));
    }
  }

  lemma OddItemRead(f: Family, q: Parser, item: seq<octet>, rest: seq<seq<octet>>)
    requires item != [] && AllInItem(item) && item[0] != ' ' && !Opens(item[0]) && AllItems(rest)
    requires q.state.HeaderValue? && q.header == Start(f) && q.index == 0
    ensures ReadAs(q, PlainBytes(q, item + if rest == [] then [] else [COMMA] + Listed(rest)), q.flags)
  {
    hide PlainBytes, InItem, InValue, Opens, Start, Listed, ReadAs;
    var tail := if rest == [] then [] else [COMMA] + Listed(rest);
    TailInValue(rest);
    ItemInValue(item[1..]);
    InValueBoth(item[1..], tail);
    AllInItemAt(item, 0);
    OddRead(f, q, item[0], item[1..] + tail);
    assert [item[0]] + (item[1..] + tail) == item + tail;
  }

  lemma AllInItemAt(s: seq<octet>, i: nat)
    requires AllInItem(s) && i < |s|
    ensures InItem(s[i]) && AllInItem(s[i..]) && AllInItem(s[i + 1..])
  {
    hide InItem;
  }

  lemma {:induction false} StrippedIn(s: seq<octet>)
    requires AllInItem(s)
    ensures AllInItem(Stripped(s))
  {
    hide InItem;
    if s != [] && s[0] == ' ' {
      StrippedIn(s[1..]);
    }
  }

  lemma {:induction false} ItemRead(f: Family, q: Parser, item: seq<octet>, rest: seq<seq<octet>>)
    requires item != [] && AllInItem(item) && item[0] != ' ' && Opens(item[0]) && AllItems(rest)
    requires q.state.HeaderValue? && q.header == Start(f) && q.index == 0
    ensures var tail := if rest == [] then [] else [COMMA] + Listed(rest);
            ReadAs(q, PlainBytes(q, item + tail), ItemFlags(f, item, rest, q.flags))
    decreases |rest|, 2
  {
    hide InWord, ItemFlags, InItem, Plain1, PlainBytes, FinishedFlags, Opens, Start, Listed;
    ItemBegun(f, q, item);
    RestRead(f, PlainBytes(q, item).q, item, rest);
    ReadOn(q, item, if rest == [] then [] else [COMMA] + Listed(rest), ItemFlags(f, item, rest, q.flags));
  }

  /** The first item of these is lost. */
  lemma {:induction false} SkipRead(f: Family, q: Parser, items: seq<seq<octet>>)
    requires items != [] && AllItems(items) && q.state.HeaderValue? && q.header == Other(f)
    ensures ReadAs(q, PlainBytes(q, Listed(items)), ListFlags(f, items[1..], q.flags))
    decreases |items|, 0
  {
    hide InItem, Plain1, FinishedFlags, ListFlags;
    OthersStay(f, q, items[0]);
    var flags := ListFlags(f, items[1..], q.flags);
    if |items| == 1 {
      NothingRecorded(f, q);
    } else {
      CommaAfterOther(f, q);
      CommaIsPlain(q);
      OneMore(q, ',');
      var q1 := PlainBytes(q, [COMMA]).q;
      ListRead(f, q1, items[1..]);
      ReadOn(q, [COMMA], Listed(items[1..]), flags);
      ReadOn(q, items[0], [COMMA] + Listed(items[1..]), flags);
      assert Listed(items) == items[0] + ([COMMA] + Listed(items[1..]));
    }
  }

  // ----- which items are lost

  /** An item behind which the comma is not noticed. */
  predicate Swallows(f: Family, item: seq<octet>)
    requires item != []
  {
    ItemOf(f, item).Unfinished? || ItemOf(f, item) == Is(Chunked)
  }

  /** An item that is neither blank nor odd. */
  predicate Proper(item: seq<octet>) {
    Stripped(item) != [] && Opens(Stripped(item)[0])
  }

  /** The items that are not lost. */
  function Heard(f: Family, items: seq<seq<octet>>): seq<seq<octet>>
    decreases |items|
  {
    if items == [] || !Proper(items[0]) then []
    else if Swallows(f, Stripped(items[0])) && |items| > 1 then [items[0]] + Heard(f, items[2..])
    else [items[0]] + Heard(f, items[1..])
  }

  predicate Has(flags: Flags, w: Word) {
    match w
    case KeepAlive => flags.keepAlive
    case Close => flags.close
    case Upgraded => flags.connectionUpgrade
    case Chunked => flags.chunked
  }

  /** One of the items is the word. */
  predicate Says(f: Family, items: seq<seq<octet>>, w: Word) {
    exists i :: 0 <= i < |items| && Stripped(items[i]) != [] && ItemOf(f, Stripped(items[i])) == Is(w)
  }

  lemma SaysFirst(f: Family, items: seq<seq<octet>>, w: Word)
    requires items != [] && Stripped(items[0]) != []
    ensures Says(f, items, w) <==> ItemOf(f, Stripped(items[0])) == Is(w) || Says(f, items[1..], w)
  {
    hide Stripped, ItemOf;
    if Says(f, items[1..], w) {
      var i :| 0 <= i < |items| - 1 && Stripped(items[1..][i]) != [] && ItemOf(f, Stripped(items[1..][i])) == Is(w);
      assert items[1..][i] == items[i + 1];
    }
    if Says(f, items, w) && ItemOf(f, Stripped(items[0])) != Is(w) {
      var i :| 0 <= i < |items| && Stripped(items[i]) != [] && ItemOf(f, Stripped(items[i])) == Is(w);
      assert items[1..][i - 1] == items[i];
    }
  }

  lemma AddedHas(flags: Flags, w: Word, w': Word)
    ensures Has(Added(flags, w), w') <==> Has(flags, w') || w == w'
  {
  }

  /** A connection option is recorded exactly if one of the items that are not lost is this option. */
  lemma {:induction false} OptionsHeard(items: seq<seq<octet>>, flags: Flags, w: Word)
    requires w != Chunked
    ensures Has(ListFlags(ConnectionOptions, items, flags), w)
       <==> Has(flags, w) || Says(ConnectionOptions, Heard(ConnectionOptions, items), w)
    decreases |items|
  {
    hide Stripped, ItemOf, Opens, Says, Added, Has;
    var f := ConnectionOptions;
    NothingSaid(f, w);
    if items != [] && Proper(items[0]) {
      var item := Stripped(items[0]);
      OptionIs(item);
      SaysFirst(f, Heard(f, items), w);
      var more := if Swallows(f, item) && |items| > 1 then items[2..] else items[1..];
      assert Heard(f, items)[1..] == Heard(f, more);
      OptionsHeard(more, flags, w);
      if ItemOf(f, item).Is? {
        AddedHas(flags, ItemOf(f, item).word, w);
        OptionsHeard(more, Added(flags, ItemOf(f, item).word), w);
      }
    }
  }

  lemma NothingSaid(f: Family, w: Word)
    ensures !Says(f, [], w)
  {
  }

  lemma OptionIs(item: seq<octet>)
    requires item != []
    ensures ItemOf(ConnectionOptions, item) != Is(Chunked)
  {
    hide Begins, Spelling;
  }

  /** No item is lost exactly if all are proper and only the last one swallows its comma. */
  predicate Regular(f: Family, items: seq<seq<octet>>) {
    && (forall i :: 0 <= i < |items| ==> Proper(items[i]))
    && forall i :: 0 <= i < |items| - 1 ==> !Swallows(f, Stripped(items[i]))
  }

  lemma {:induction false} AllHeard(f: Family, items: seq<seq<octet>>)
    ensures Heard(f, items) == items <==> Regular(f, items)
    ensures |Heard(f, items)| <= |items|
    decreases |items|
  {
    hide Opens, Swallows, Stripped;
    if items != [] && Proper(items[0]) {
      AllHeard(f, items[1..]);
      RegularFrom(f, items);
      if |items| > 1 {
        AllHeard(f, items[2..]);
      }
      if Swallows(f, Stripped(items[0])) && |items| > 1 {
        assert |Heard(f, items)| < |items|;
      } else {
        assert Heard(f, items)[1..] == Heard(f, items[1..]);
        assert [items[0]] + items[1..] == items;
      }
    }
  }

  lemma RegularFrom(f: Family, items: seq<seq<octet>>)
    requires items != [] && Proper(items[0])
    ensures Stripped(items[0]) != []
    ensures Regular(f, items) <==> Regular(f, items[1..]) && (|items| > 1 ==> !Swallows(f, Stripped(items[0])))
  {
    hide Swallows, Opens, Stripped;
    var rest := items[1..];
    if Regular(f, rest) && (|items| > 1 ==> !Swallows(f, Stripped(items[0]))) {
      forall i | 0 <= i < |items|
        ensures Proper(items[i]) && (i < |items| - 1 ==> !Swallows(f, Stripped(items[i])))
      {
        if i > 0 {
          assert rest[i - 1] == items[i] && Proper(rest[i - 1]);
        }
      }
    }
    if Regular(f, items) {
      assert forall i :: 0 <= i < |rest| ==> rest[i] == items[i + 1];
    }
  }

  /** The last item is not lost. */
  predicate LastHeard(f: Family, items: seq<seq<octet>>)
    requires items != []
    decreases |items|
  {
    if |items| == 1 then true
    else if !Proper(items[0]) then false
    else if Swallows(f, Stripped(items[0])) then |items| > 2 && LastHeard(f, items[2..])
    else LastHeard(f, items[1..])
  }

  /** A body is taken to be chunked exactly if the last coding is "chunked", and is not lost. */
  lemma {:induction false} ChunkedLast(items: seq<seq<octet>>, flags: Flags)
    requires items != []
    ensures var last := Stripped(items[|items| - 1]);
            ListFlags(TransferCodings, items, flags)
            == if last != [] && ItemOf(TransferCodings, last) == Is(Chunked) && LastHeard(TransferCodings, items)
               then flags.(chunked := true) else flags
    decreases |items|
  {
    hide Stripped, Opens, ItemOf, ItemFlags;
    var f := TransferCodings;
    var item := Stripped(items[0]);
    if item != [] {
      CodingIs(item);
      CodingFlags(item, items[1..], flags);
    }
    if |items| > 1 && Proper(items[0]) {
      var more := if Swallows(f, item) then items[2..] else items[1..];
      assert items[1..][1..] == items[2..];
      assert ListFlags(f, items, flags) == ListFlags(f, more, flags);
      if more != [] {
        ChunkedLast(more, flags);
        assert more[|more| - 1] == items[|items| - 1];
      }
    }
  }

  lemma CodingFlags(item: seq<octet>, rest: seq<seq<octet>>, flags: Flags)
    requires item != []
    ensures ItemFlags(TransferCodings, item, rest, flags)
         == if rest == [] then if ItemOf(TransferCodings, item) == Is(Chunked) then flags.(chunked := true) else flags
            else ListFlags(TransferCodings, if Swallows(TransferCodings, item) then rest[1..] else rest, flags)
  {
    hide Opens, Begins, Spelling;
  }

  lemma CodingIs(item: seq<octet>)
    requires item != []
    ensures ItemOf(TransferCodings, item).Is? ==> ItemOf(TransferCodings, item).word == Chunked && Opens(item[0])
  {
    hide Begins, Spelling;
  }

  /** The first item of a value needs no more than to be there; if it is a proper one, the value is just a list. */
  lemma ValueIsList(f: Family, items: seq<seq<octet>>, flags: Flags)
    requires items != [] && Proper(items[0]) && items[0][0] != ' '
    ensures ValueFlags(f, items, flags) == ListFlags(f, items, flags)
  {
    hide ItemFlags, Opens;
  }

  /** Options are lost behind an unfinished word and behind a blank item, though they stand in the list. */
  lemma LostOptions()
    ensures ValueFlags(ConnectionOptions, ["up", "close"], NO_FLAGS) == NO_FLAGS
    ensures ValueFlags(ConnectionOptions, ["x", " ", "close"], NO_FLAGS) == NO_FLAGS
  {
  }

  /** So is an option behind a tab: in lower case, with bit 5 set, the tab is taken for a parenthesis. */
  lemma LostBehindTab()
    ensures ValueFlags(ConnectionOptions, ["x", "\tclose"], NO_FLAGS) == NO_FLAGS
  {
  }

  /** The second "chunked" of two is lost. */
  lemma LostCoding()
    ensures !ValueFlags(TransferCodings, ["chunked", "chunked"], NO_FLAGS).chunked
  {
  }
}
