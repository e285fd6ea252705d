/**
  JSON pointers: what their text means, and how they are printed (sections 3 and 6 of RFC 6901).
 */
module JsonPointer {
  import opened Options
  import opened Bits
  import Utf8

  const SLASH: byte := 47
  const TILDE: byte := 126
  const PERCENT: byte := 37
  const HASH: byte := 35
  const ZERO: byte := 48
  const ONE: byte := 49
  const NINE: byte := 57

  datatype ParseError =
    | TokenMustBeginWithSolidus | InvalidEscape | InvalidPercentEncoding | CharacterMustPercentEncode

  /** Everything but the unreserved characters of a URI. */
  predicate NeedPercentEncode(c: byte) {
    !(ZERO <= c <= NINE || 65 <= c <= 90 || 97 <= c <= 122 || c == 45 || c == 46 || c == 95 || c == TILDE)
  }

  // ----- percent encoding

  /** The value of a hexadecimal digit, -1 for other characters. */
  function Unhex(c: byte): (d: int)
    ensures -1 <= d < 16
  {
    if ZERO <= c <= NINE then c - ZERO
    else if 65 <= c <= 70 then c - 65 + 10
    else if 97 <= c <= 102 then c - 97 + 10
    else -1
  }

  function HexDigit(d: nat): (c: byte)
    requires d < 16
    ensures Unhex(c) == d
  {
    if d < 10 then ZERO + d else 65 + d - 10
  }

  /** The byte that a percent sign and two digits stand for, -1 if there are none. */
  function Triplet(src: seq<byte>, i: nat): (c: int)
    ensures -1 <= c < 256
  {
    if i + 3 <= |src| && src[i] == PERCENT && Unhex(src[i + 1]) >= 0 && Unhex(src[i + 2]) >= 0 then
      Unhex(src[i + 1]) * 16 + Unhex(src[i + 2])
    else -1
  }

  function Encoded(c: byte): (t: seq<byte>)
    ensures |t| == 3
  {
    [PERCENT, HexDigit(c / 16), HexDigit(c % 16)]
  }

  lemma EncodedIsTriplet(src: seq<byte>, i: nat, c: byte)
    requires i + 3 <= |src| && src[i..i + 3] == Encoded(c)
    ensures Triplet(src, i) == c
  {
    assert src[i] == src[i..i + 3][0] && src[i + 1] == src[i..i + 3][1] && src[i + 2] == src[i..i + 3][2];
  }

  function AllEncoded(u: seq<byte>): (t: seq<byte>)
    ensures |t| == 3 * |u|
  {
    if u == [] then [] else Encoded(u[0]) + AllEncoded(u[1..])
  }

  /** The bytes of `n` triplets, if there are so many. */
  function Triplets(src: seq<byte>, i: nat, n: nat): (r: Option<seq<byte>>)
    ensures r.Some? ==> |r.value| == n && (n > 0 ==> i + 3 * n <= |src|)
    decreases n
  {
    if n == 0 then Some([])
    else if Triplet(src, i) < 0 then None
    else
      match Triplets(src, i + 3, n - 1)
      case None => None
      case Some(rest) => Some([Triplet(src, i)] + rest)
  }

  /** One character of UTF-8 in percent encoding. */
  function Percented(src: seq<byte>, i: nat): (r: Option<seq<byte>>)
    ensures r.Some? ==> Utf8.Valid(r.value) && i + 3 * |r.value| <= |src|
  {
    if Triplet(src, i) < 0 then None
    else
      match Triplets(src, i, Utf8.Units(Triplet(src, i)))
      case None => None
      case Some(u) => if Utf8.Valid(u) then Some(u) else None
  }

  lemma {:induction false} EncodedAreTriplets(src: seq<byte>, i: nat, u: seq<byte>)
    requires i + 3 * |u| <= |src| && src[i..i + 3 * |u|] == AllEncoded(u)
    ensures Triplets(src, i, |u|) == Some(u)
    decreases |u|
  {
    if u != [] {
      assert src[i..i + 3] == src[i..i + 3 * |u|][..3];
      assert src[i + 3..i + 3 + 3 * |u[1..]|] == src[i..i + 3 * |u|][3..];
      EncodedIsTriplet(src, i, u[0]);
      EncodedAreTriplets(src, i + 3, u[1..]);
      assert [u[0]] + u[1..] == u;
    }
  }

  lemma PercentedBack(src: seq<byte>, i: nat, u: seq<byte>)
    requires Utf8.Valid(u) && i + 3 * |u| <= |src| && src[i..i + 3 * |u|] == AllEncoded(u)
    ensures Percented(src, i) == Some(u)
  {
    EncodedAreTriplets(src, i, u);
  }

  // ----- what a text means

  /** A part of a name and where it ends, or an error and where it is. */
  datatype Piece = Piece(bytes: seq<byte>, next: nat) | Wrong(code: ParseError, at: nat)

  /** A character that has been read up to `i`, which may be the first of an escape. */
  function Unescaped(src: seq<byte>, c: byte, i: nat): Piece {
    if c != TILDE then Piece([c], i)
    else if i < |src| && src[i] == ZERO then Piece([TILDE], i + 1)
    else if i < |src| && src[i] == ONE then Piece([SLASH], i + 1)
    else Wrong(InvalidEscape, i)
  }

  function Character(src: seq<byte>, i: nat, uri: bool): (p: Piece)
    requires i < |src|
    ensures p.Piece? ==> i < p.next <= |src|
  {
    var c := src[i];
    if uri && c == PERCENT then
      match Percented(src, i)
      case None => Wrong(InvalidPercentEncoding, i)
      case Some(u) => if |u| == 1 then Unescaped(src, u[0], i + 3) else Piece(u, i + 3 * |u|)
    else if uri && NeedPercentEncode(c) then Wrong(CharacterMustPercentEncode, i)
    else Unescaped(src, c, i + 1)
  }

  /** The name that begins at `i`. */
  function NameAt(src: seq<byte>, i: nat, uri: bool): (p: Piece)
    requires i <= |src|
    ensures p.Piece? ==> i <= p.next <= |src| && (p.next == |src| || src[p.next] == SLASH)
    decreases |src| - i
  {
    if i == |src| || src[i] == SLASH then Piece([], i)
    else
      match Character(src, i, uri)
      case Wrong(code, at) => Wrong(code, at)
      case Piece(bytes, next) =>
        match NameAt(src, next, uri)
        case Wrong(code, at) => Wrong(code, at)
        case Piece(rest, end) => Piece(bytes + rest, end)
  }

  datatype Meaning = Names(names: seq<seq<byte>>) | Invalid(code: ParseError, at: nat)

  function NamesAt(src: seq<byte>, i: nat, uri: bool): Meaning
    requires i <= |src| && (i < |src| ==> src[i] == SLASH)
    decreases |src| - i
  {
    if i == |src| then Names([])
    else
      match NameAt(src, i + 1, uri)
      case Wrong(code, at) => Invalid(code, at)
      case Piece(name, next) =>
        match NamesAt(src, next, uri)
        case Invalid(code, at) => Invalid(code, at)
        case Names(names) => Names([name] + names)
  }

  predicate IsUri(src: seq<byte>) {
    src != [] && src[0] == HASH
  }

  function Meant(src: seq<byte>): Meaning {
    var i := if IsUri(src) then 1 else 0;
    if i < |src| && src[i] != SLASH then Invalid(TokenMustBeginWithSolidus, i) else NamesAt(src, i, IsUri(src))
  }

  // ----- printing

  /** A name in print. In a URI this fails for what is not UTF-8. */
  function Escaped(name: seq<byte>, uri: bool): Option<seq<byte>>
    decreases |name|
  {
    if name == [] then Some([])
    else
      var c := name[0];
      if c == TILDE then Prepend([TILDE, ZERO], Escaped(name[1..], uri))
      else if c == SLASH then Prepend([TILDE, ONE], Escaped(name[1..], uri))
      else if uri && NeedPercentEncode(c) then
        var n := Utf8.Units(c);
        if n <= |name| && Utf8.Valid(name[..n]) then Prepend(AllEncoded(name[..n]), Escaped(name[n..], uri)) else None
      else Prepend([c], Escaped(name[1..], uri))
  }

  function Prepend(head: seq<byte>, rest: Option<seq<byte>>): Option<seq<byte>> {
    if rest.None? then None else Some(head + rest.value)
  }

  function PrintedNames(names: seq<seq<byte>>, uri: bool): Option<seq<byte>> {
    if names == [] then Some([])
    else
      match Escaped(names[0], uri)
      case None => None
      case Some(e) => Prepend([SLASH] + e, PrintedNames(names[1..], uri))
  }

  function Printed(names: seq<seq<byte>>, uri: bool): Option<seq<byte>> {
    if uri then Prepend([HASH], PrintedNames(names, true)) else PrintedNames(names, false)
  }

  // ----- parsing what was printed

  lemma SubSlice(src: seq<byte>, i: nat, j: nat, a: seq<byte>, b: seq<byte>)
    requires i <= j <= |src| && src[i..j] == a + b
    ensures i + |a| <= j && src[i..i + |a|] == a && src[i + |a|..j] == b
  {
    assert src[i..i + |a|] == src[i..j][..|a|];
    assert src[i + |a|..j] == src[i..j][|a|..];
  }

  /** The first character of a name in print, and what is left of it. */
  function HeadSize(name: seq<byte>, uri: bool): (n: nat)
    requires Escaped(name, uri).Some? && name != []
    ensures 1 <= n <= |name| && Escaped(name[n..], uri).Some?
  {
    if name[0] != TILDE && name[0] != SLASH && uri && NeedPercentEncode(name[0]) then Utf8.Units(name[0]) else 1
  }

  function Head(name: seq<byte>, uri: bool): seq<byte>
    requires Escaped(name, uri).Some? && name != []
  {
    if name[0] == TILDE then [TILDE, ZERO]
    else if name[0] == SLASH then [TILDE, ONE]
    else if uri && NeedPercentEncode(name[0]) then AllEncoded(name[..HeadSize(name, uri)])
    else [name[0]]
  }

  lemma HeadBack(src: seq<byte>, i: nat, name: seq<byte>, uri: bool)
    requires Escaped(name, uri).Some? && name != []
    requires var h := Head(name, uri); i + |h| <= |src| && src[i..i + |h|] == h
    ensures i < |src| && src[i] != SLASH
    ensures Character(src, i, uri) == Piece(name[..HeadSize(name, uri)], i + |Head(name, uri)|)
  {
    var h, n := Head(name, uri), HeadSize(name, uri);
    assert src[i] == src[i..i + |h|][0];
    if name[0] == TILDE || name[0] == SLASH {
      assert src[i + 1] == src[i..i + |h|][1];
    } else if uri && NeedPercentEncode(name[0]) {
      assert Encoded(name[0])[0] == PERCENT;
      PercentedBack(src, i, name[..n]);
    }
  }

  lemma EscapedHead(name: seq<byte>, uri: bool)
    requires Escaped(name, uri).Some? && name != []
    ensures Escaped(name, uri).value == Head(name, uri) + Escaped(name[HeadSize(name, uri)..], uri).value
  {
  }

  lemma {:induction false} NameBack(src: seq<byte>, i: nat, name: seq<byte>, uri: bool)
    requires Escaped(name, uri).Some?
    requires var e := Escaped(name, uri).value;
             i + |e| <= |src| && src[i..i + |e|] == e && (i + |e| < |src| ==> src[i + |e|] == SLASH)
    ensures NameAt(src, i, uri) == Piece(name, i + |Escaped(name, uri).value|)
    decreases |name|
  {
    hide Escaped, Head, HeadSize, Character;
    NoEscape(uri);
    if name == [] {
      NoName(src, i, uri);
    } else {
      var h, n := Head(name, uri), HeadSize(name, uri);
      var e, rest := Escaped(name, uri).value, Escaped(name[n..], uri).value;
      EscapedHead(name, uri);
      SubSlice(src, i, i + |e|, h, rest);
      HeadBack(src, i, name, uri);
      NameBack(src, i + |h|, name[n..], uri);
      assert name[..n] + name[n..] == name;
    }
  }

  lemma NoEscape(uri: bool)
    ensures Escaped([], uri) == Some([])
  {
  }

  lemma NoName(src: seq<byte>, i: nat, uri: bool)
    requires i <= |src| && (i < |src| ==> src[i] == SLASH)
    ensures NameAt(src, i, uri) == Piece([], i)
  {
  }

  /** The first of some printed names, and the others. */
  lemma PrintedHead(src: seq<byte>, i: nat, names: seq<seq<byte>>, uri: bool)
    requires PrintedNames(names, uri).Some? && i <= |src| && src[i..] == PrintedNames(names, uri).value && names != []
    ensures Escaped(names[0], uri).Some? && PrintedNames(names[1..], uri).Some?
    ensures var e := Escaped(names[0], uri).value;
            && i + 1 + |e| <= |src| && src[i] == SLASH && src[i + 1..i + 1 + |e|] == e
            && src[i + 1 + |e|..] == PrintedNames(names[1..], uri).value
  {
    hide Escaped;
    var e, rest := Escaped(names[0], uri).value, PrintedNames(names[1..], uri).value;
    SubSlice(src, i, |src|, [SLASH] + e, rest);
    SubSlice(src, i, i + 1 + |e|, [SLASH], e);
    assert src[i] == src[i..i + 1][0];
    assert src[i + 1 + |e|..] == rest;
  }

  lemma NoNames(src: seq<byte>, i: nat, uri: bool)
    requires i <= |src| && src[i..] == []
    ensures i == |src| && NamesAt(src, i, uri) == Names([])
  {
  }

  lemma {:induction false} NamesBack(src: seq<byte>, i: nat, names: seq<seq<byte>>, uri: bool)
    requires PrintedNames(names, uri).Some? && i <= |src| && src[i..] == PrintedNames(names, uri).value
    ensures i < |src| ==> src[i] == SLASH
    ensures NamesAt(src, i, uri) == Names(names)
    decreases |names|
  {
    hide Escaped, NameAt, PrintedNames;
    if names == [] {
      NothingPrinted(uri);
      NoNames(src, i, uri);
    } else {
      PrintedHead(src, i, names, uri);
      var e := Escaped(names[0], uri).value;
      NamesBack(src, i + 1 + |e|, names[1..], uri);
      NameBack(src, i + 1, names[0], uri);
      assert [names[0]] + names[1..] == names;
    }
  }

  lemma NothingPrinted(uri: bool)
    ensures PrintedNames([], uri) == Some([])
  {
  }

  /** Whatever the names, parsing what is printed gives them back, in plain form and as a URI fragment. */
  lemma ParsePrinted(names: seq<seq<byte>>, uri: bool)
    requires Printed(names, uri).Some?
    ensures IsUri(Printed(names, uri).value) == uri
    ensures Meant(Printed(names, uri).value) == Names(names)
  {
    var src := Printed(names, uri).value;
    NamesBack(src, if uri then 1 else 0, names, uri);
  }

  // ----- which names can be printed, and which come from a text

  /** Text in UTF-8: valid sequences one after another. */
  predicate Utf8Text(name: seq<byte>)
    decreases |name|
  {
    name == []
    || (var n := Utf8.Units(name[0]); n <= |name| && Utf8.Valid(name[..n]) && Utf8Text(name[n..]))
  }

  lemma AsciiUnit(c: byte)
    requires c < 0x80
    ensures Utf8.Units(c) == 1 && Utf8.Valid([c])
  {
  }

  /** A name can be printed as part of a URI exactly if it is UTF-8; in plain form every name can be printed. */
  lemma {:induction false} PrintableIff(name: seq<byte>, uri: bool)
    ensures Escaped(name, uri).Some? <==> !uri || Utf8Text(name)
    decreases |name|
  {
    hide Utf8.Units, Utf8.Valid;
    if name != [] {
      PrintableIff(name[1..], uri);
      if name[0] < 0x80 {
        AsciiUnit(name[0]);
        assert name[..1] == [name[0]];
      }
      var n := Utf8.Units(name[0]);
      if n <= |name| {
        PrintableIff(name[n..], uri);
      }
    }
  }

  lemma Utf8Prepended(u: seq<byte>, rest: seq<byte>)
    requires Utf8.Valid(u) && Utf8Text(rest)
    ensures Utf8Text(u + rest)
  {
    hide Utf8.Units;
    assert (u + rest)[..|u|] == u && (u + rest)[|u|..] == rest;
  }

  lemma CharacterIsUtf8(src: seq<byte>, i: nat)
    requires i < |src| && Character(src, i, true).Piece?
    ensures Utf8.Valid(Character(src, i, true).bytes)
  {
    AsciiUnit(TILDE);
    AsciiUnit(SLASH);
    if src[i] < 0x80 {
      AsciiUnit(src[i]);
    }
    if src[i] == PERCENT {
      var u := Percented(src, i).value;
      assert |u| == 1 ==> u == [u[0]];
    }
  }

  /** Names in a URI fragment are UTF-8, so what was parsed from one can be printed as one. */
  lemma {:induction false} UriNamesAreUtf8(src: seq<byte>, i: nat)
    requires i <= |src| && NameAt(src, i, true).Piece?
    ensures Utf8Text(NameAt(src, i, true).bytes)
    decreases |src| - i
  {
    hide Character, Utf8.Valid, Utf8Text;
    NoText();
    if i < |src| && src[i] != SLASH {
      var p := Character(src, i, true);
      UriNamesAreUtf8(src, p.next);
      CharacterIsUtf8(src, i);
      Utf8Prepended(p.bytes, NameAt(src, p.next, true).bytes);
    }
  }

  lemma NoText()
    ensures Utf8Text([])
  {
  }

  lemma {:induction false} UriPrints(src: seq<byte>, i: nat)
    requires i <= |src| && (i < |src| ==> src[i] == SLASH) && NamesAt(src, i, true).Names?
    ensures PrintedNames(NamesAt(src, i, true).names, true).Some?
    decreases |src| - i
  {
    hide NameAt, Escaped;
    if i < |src| {
      var p := NameAt(src, i + 1, true);
      UriNamesAreUtf8(src, i + 1);
      PrintableIff(p.bytes, true);
      UriPrints(src, p.next);
      var rest := NamesAt(src, p.next, true).names;
      assert ([p.bytes] + rest)[1..] == rest;
    }
  }

  /** A URI fragment can be parsed, printed as one and parsed again: the names stay the same. */
  lemma UriRoundTrip(src: seq<byte>)
    requires IsUri(src) && Meant(src).Names?
    ensures var printed := Printed(Meant(src).names, true);
            printed.Some? && IsUri(printed.value) && Meant(printed.value) == Meant(src)
  {
    hide NamesAt, PrintedNames;
    UriPrints(src, 1);
    ParsePrinted(Meant(src).names, true);
  }

  // ----- printing what was parsed

  lemma NothingAppended(s: seq<byte>)
    ensures s + [] == s
  {
  }

  lemma CharacterPrints(src: seq<byte>, i: nat)
    requires i < |src| && src[i] != SLASH && Character(src, i, false).Piece?
    ensures var p := Character(src, i, false);
            |p.bytes| == 1 && Escaped(p.bytes, false) == Some(src[i..p.next])
  {
    var p := Character(src, i, false);
    assert p.bytes[1..] == [];
    NothingAppended([TILDE, ZERO]);
    NothingAppended([TILDE, ONE]);
    NothingAppended([src[i]]);
    if p.next == i + 2 {
      assert src[i..p.next] == [src[i], src[i + 1]];
    } else {
      assert src[i..p.next] == [src[i]];
    }
  }

  lemma PrependPrints(c: byte, rest: seq<byte>)
    requires Escaped(rest, false).Some?
    ensures Escaped([c], false).Some?
    ensures Escaped([c] + rest, false) == Some(Escaped([c], false).value + Escaped(rest, false).value)
  {
    assert ([c] + rest)[1..] == rest && [c][1..] == [];
    NothingAppended([TILDE, ZERO]);
    NothingAppended([TILDE, ONE]);
    NothingAppended([c]);
  }

  lemma {:induction false} NamePrints(src: seq<byte>, i: nat)
    requires i <= |src| && NameAt(src, i, false).Piece?
    ensures var p := NameAt(src, i, false); Escaped(p.bytes, false) == Some(src[i..p.next])
    decreases |src| - i
  {
    hide Character, Escaped;
    NoEscape(false);
    if i < |src| && src[i] != SLASH {
      var p := Character(src, i, false);
      CharacterPrints(src, i);
      NamePrints(src, p.next);
      PrependPrints(p.bytes[0], NameAt(src, p.next, false).bytes);
      assert p.bytes == [p.bytes[0]];
      assert src[i..p.next] + src[p.next..NameAt(src, i, false).next] == src[i..NameAt(src, i, false).next];
    } else {
      assert src[i..i] == [];
    }
  }

  lemma {:induction false} NamesPrint(src: seq<byte>, i: nat)
    requires i <= |src| && (i < |src| ==> src[i] == SLASH) && NamesAt(src, i, false).Names?
    ensures PrintedNames(NamesAt(src, i, false).names, false) == Some(src[i..])
    decreases |src| - i
  {
    hide NameAt, Escaped;
    if i == |src| {
      assert src[i..] == [];
    } else {
      var p := NameAt(src, i + 1, false);
      NamePrints(src, i + 1);
      NamesPrint(src, p.next);
      var rest := NamesAt(src, p.next, false).names;
      assert ([p.bytes] + rest)[1..] == rest;
      assert [SLASH] + src[i + 1..p.next] + src[p.next..] == src[i..];
    }
  }

  /** In plain form, printing what was parsed gives the text back: every pointer has just one plain form. */
  lemma PrintParsed(src: seq<byte>)
    requires !IsUri(src) && Meant(src).Names?
    ensures Printed(Meant(src).names, false) == Some(src)
  {
    NamesPrint(src, 0);
    assert src[0..] == src;
  }

  // ----- which texts are pointers

  /** Every tilde begins an escape. */
  predicate Escapes(src: seq<byte>, i: nat) {
    forall k :: i <= k < |src| && src[k] == TILDE ==> k + 1 < |src| && (src[k + 1] == ZERO || src[k + 1] == ONE)
  }

  lemma {:induction false} NameFails(src: seq<byte>, i: nat)
    requires i <= |src|
    ensures var p := NameAt(src, i, false);
            if p.Piece? then Escapes(src, p.next) <==> Escapes(src, i)
            else p.code == InvalidEscape && !Escapes(src, i)
    decreases |src| - i
  {
    hide NameAt;
    if i < |src| && src[i] != SLASH {
      NameOf(src, i);
      var p := Character(src, i, false);
      if p.Piece? {
        NameFails(src, p.next);
      }
    } else {
      NoName(src, i, false);
    }
  }

  lemma NameOf(src: seq<byte>, i: nat)
    requires i < |src| && src[i] != SLASH
    ensures var c := Character(src, i, false);
            if c.Wrong? then NameAt(src, i, false) == c
            else
              var p, rest := NameAt(src, i, false), NameAt(src, c.next, false);
              p.Wrong? == rest.Wrong? && (if p.Wrong? then p == rest else p.next == rest.next)
  {
  }

  lemma {:induction false} NamesFail(src: seq<byte>, i: nat)
    requires i <= |src| && (i < |src| ==> src[i] == SLASH)
    ensures NamesAt(src, i, false).Names? <==> Escapes(src, i)
    decreases |src| - i
  {
    hide NameAt;
    if i < |src| {
      var p := NameAt(src, i + 1, false);
      NameFails(src, i + 1);
      if p.Piece? {
        NamesFail(src, p.next);
      }
    }
  }

  /** A text in plain form is a pointer exactly if it is empty or begins with a slash, and every tilde begins an escape. */
  lemma PlainTexts(src: seq<byte>)
    requires !IsUri(src)
    ensures Meant(src).Names? <==> (src == [] || src[0] == SLASH) && Escapes(src, 0)
  {
    if src == [] || src[0] == SLASH {
      NamesFail(src, 0);
    }
  }
}
