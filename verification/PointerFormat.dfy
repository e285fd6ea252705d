/**
  JSON pointers as RFC 6901 and RFC 3986 write them: names between slashes, tildes and slashes replaced, and the
  characters that a URI may hold as they are.
 */
module PointerFormat {
  import opened Options
  import opened Bits
  import opened JsonPointer
  import Utf8

  // ----- replacements

  /** Every pair of a tilde and `second` replaced, from the left. */
  function PairsReplaced(s: seq<byte>, second: byte, b: byte): seq<byte> {
    if |s| < 2 then s
    else if s[0] as char == '~' && s[1] == second then [b] + PairsReplaced(s[2..], second, b)
    else [s[0]] + PairsReplaced(s[1..], second, b)
  }

  /** Section 4 of RFC 6901: first every "~1" becomes "/", and then every "~0" becomes "~". */
  function Unescape(text: seq<byte>): seq<byte> {
    PairsReplaced(PairsReplaced(text, '1' as byte, '/' as byte), '0' as byte, '~' as byte)
  }

  /** Every byte of one kind replaced by a tilde and another byte. */
  function BytesReplaced(s: seq<byte>, b: byte, second: byte): seq<byte> {
    if s == [] then [] else (if s[0] == b then ['~' as byte, second] else [s[0]]) + BytesReplaced(s[1..], b, second)
  }

  /** Section 3: "~" is written "~0", and "/" is written "~1". */
  function Escape(name: seq<byte>): seq<byte> {
    BytesReplaced(BytesReplaced(name, '~' as byte, '0' as byte), '/' as byte, '1' as byte)
  }

  lemma UnescapeFirst(text: seq<byte>)
    requires text != []
    ensures text[0] != TILDE ==> Unescape(text) == [text[0]] + Unescape(text[1..])
    ensures |text| > 1 && text[0] == TILDE && text[1] == ONE ==> Unescape(text) == [SLASH] + Unescape(text[2..])
    ensures |text| > 1 && text[0] == TILDE && text[1] == ZERO ==> Unescape(text) == [TILDE] + Unescape(text[2..])
  {
    var one, zero := '1' as byte, '0' as byte;
    var s := PairsReplaced(text, one, '/' as byte);
    if text[0] != TILDE {
      var rest := PairsReplaced(text[1..], one, '/' as byte);
      assert s == [text[0]] + rest && s[1..] == rest;
    } else if |text| > 1 && text[1] == ONE {
      var rest := PairsReplaced(text[2..], one, '/' as byte);
      assert s == [SLASH] + rest && s[1..] == rest;
    } else if |text| > 1 && text[1] == ZERO {
      var rest := PairsReplaced(text[2..], one, '/' as byte);
      assert text[1..][1..] == text[2..];
      assert PairsReplaced(text[1..], one, '/' as byte) == [ZERO] + rest;
      assert s == [TILDE, ZERO] + rest && s[2..] == rest;
    }
  }

  // ----- names

  /** The text from `i` up to the next slash. */
  function Segment(src: seq<byte>, i: nat): (text: seq<byte>)
    requires i <= |src|
    ensures i + |text| <= |src|
    decreases |src| - i
  {
    if i == |src| || src[i] as char == '/' then [] else [src[i]] + Segment(src, i + 1)
  }

  lemma SegmentFirst(src: seq<byte>, i: nat)
    requires i < |src| && src[i] != SLASH
    ensures Segment(src, i) != [] && Segment(src, i)[0] == src[i] && Segment(src, i)[1..] == Segment(src, i + 1)
  {
  }

  lemma SegmentEnds(src: seq<byte>, i: nat)
    requires i <= |src|
    ensures i == |src| || src[i] == SLASH ==> Segment(src, i) == []
  {
  }

  lemma NothingUnescaped()
    ensures Unescape([]) == []
  {
  }

  /** A name is its text, unescaped. */
  lemma {:induction false} NameFormat(src: seq<byte>, i: nat)
    requires i <= |src| && Escapes(src, i)
    ensures NameAt(src, i, false) == Piece(Unescape(Segment(src, i)), i + |Segment(src, i)|)
    decreases |src| - i
  {
    hide Segment, Unescape;
    SegmentEnds(src, i);
    NothingUnescaped();
    if i < |src| && src[i] != SLASH {
      var text := Segment(src, i);
      SegmentFirst(src, i);
      UnescapeFirst(text);
      if src[i] == TILDE {
        SegmentFirst(src, i + 1);
        assert text[1..][1..] == text[2..] && text[1] == src[i + 1];
        NameFormat(src, i + 2);
      } else {
        NameFormat(src, i + 1);
      }
    }
  }

  /** The texts behind the slashes. */
  function Segments(src: seq<byte>, i: nat): seq<seq<byte>>
    requires i <= |src|
    decreases |src| - i
  {
    if i == |src| then [] else [Segment(src, i + 1)] + Segments(src, i + 1 + |Segment(src, i + 1)|)
  }

  function AllUnescaped(texts: seq<seq<byte>>): seq<seq<byte>> {
    if texts == [] then [] else [Unescape(texts[0])] + AllUnescaped(texts[1..])
  }

  lemma {:induction false} NamesFormat(src: seq<byte>, i: nat)
    requires i <= |src| && (i < |src| ==> src[i] == SLASH) && Escapes(src, i)
    ensures NamesAt(src, i, false) == Names(AllUnescaped(Segments(src, i)))
    decreases |src| - i
  {
    hide NameAt, Segment, Unescape;
    if i < |src| {
      var text := Segment(src, i + 1);
      NameFormat(src, i + 1);
      NamesFormat(src, i + 1 + |text|);
      var texts := Segments(src, i);
      assert texts[0] == text && texts[1..] == Segments(src, i + 1 + |text|);
    }
  }

  /** A pointer in plain form names what the texts between its slashes mean. */
  lemma PlainFormat(src: seq<byte>)
    requires src != [] ==> src[0] as char == '/'
    requires forall k :: 0 <= k < |src| && src[k] as char == '~' ==>
               k + 1 < |src| && (src[k + 1] as char == '0' || src[k + 1] as char == '1')
    ensures Meant(src) == Names(AllUnescaped(Segments(src, 0)))
  {
    hide NamesAt, Segments, AllUnescaped;
    NamesFormat(src, 0);
  }

  // ----- printing

  lemma {:induction false} EscapeFirst(name: seq<byte>)
    requires name != []
    ensures Escape(name) == (if name[0] == TILDE then [TILDE, ZERO] else if name[0] == SLASH then [TILDE, ONE] else [name[0]])
                            + Escape(name[1..])
  {
    var rest := BytesReplaced(name[1..], '~' as byte, '0' as byte);
    var s := BytesReplaced(name, '~' as byte, '0' as byte);
    if name[0] == TILDE {
      assert s == [TILDE, ZERO] + rest && s[1..] == [ZERO] + rest && s[1..][1..] == rest;
      assert BytesReplaced(s[1..], '/' as byte, '1' as byte) == [ZERO] + BytesReplaced(rest, '/' as byte, '1' as byte);
    } else {
      assert s == [name[0]] + rest && s[1..] == rest;
    }
  }

  /** A name is printed escaped. */
  lemma {:induction false} PrintFormat(name: seq<byte>)
    ensures Escaped(name, false) == Some(Escape(name))
  {
    hide Escape;
    if name == [] {
      NothingEscaped();
    } else {
      EscapeFirst(name);
      PrintFormat(name[1..]);
    }
  }

  lemma NothingEscaped()
    ensures Escape([]) == []
  {
  }

  /** The characters that a URI may hold as they are (section 2.3 of RFC 3986). */
  predicate Unreserved(c: char) {
    'A' <= c <= 'Z' || 'a' <= c <= 'z' || '0' <= c <= '9' || c in "-._~"
  }

  lemma UnreservedFormat(c: byte)
    ensures NeedPercentEncode(c) <==> !Unreserved(c as char)
  {
    assert '-' as int == 45 && '.' as int == 46 && '_' as int == 95 && '~' as int == 126;
  }

  const HEX: string := "0123456789ABCDEF"

  /** A byte is percent-encoded with two capital digits, the upper half first (section 2.1). */
  lemma TripletFormat(c: byte)
    ensures |HEX| == 16
    ensures var t := Encoded(c);
            |t| == 3 && t[0] as char == '%' && t[1] as char == HEX[c as nat / 16] && t[2] as char == HEX[c as nat % 16]
    ensures Unhex(Encoded(c)[1]) * 16 + Unhex(Encoded(c)[2]) == c as int
  {
  }

  // ----- fragments

  const SMALL_HEX: string := "0123456789abcdef"

  /** Digits may be capitals or not. */
  lemma DigitFormat(c: byte, d: nat)
    requires d < 16
    ensures |HEX| == |SMALL_HEX| == 16
    ensures Unhex(c) == d <==> c as char == HEX[d] || c as char == SMALL_HEX[d]
  {
  }

  /** Every percent sign with two digits replaced by the byte they stand for (section 2.1 of RFC 3986). */
  function PercentDecoded(s: seq<byte>): seq<byte> {
    if s == [] then []
    else if |s| > 2 && s[0] as char == '%' && Unhex(s[1]) >= 0 && Unhex(s[2]) >= 0 then
      [Unhex(s[1]) * 16 + Unhex(s[2])] + PercentDecoded(s[3..])
    else [s[0]] + PercentDecoded(s[1..])
  }

  lemma SegmentTriplet(src: seq<byte>, i: nat)
    requires Triplet(src, i) >= 0
    ensures i + 3 <= |src| && |Segment(src, i)| == 3 + |Segment(src, i + 3)|
    ensures PercentDecoded(Segment(src, i)) == [Triplet(src, i)] + PercentDecoded(Segment(src, i + 3))
  {
    var t := Segment(src, i);
    SegmentFirst(src, i);
    SegmentFirst(src, i + 1);
    SegmentFirst(src, i + 2);
    assert t[1..][1..][1..] == t[3..];
    assert t[1] == src[i + 1] && t[2] == src[i + 2];
  }

  lemma {:induction false} SegmentTriplets(src: seq<byte>, i: nat, n: nat)
    requires i <= |src| && Triplets(src, i, n).Some?
    ensures i + 3 * n <= |src| && |Segment(src, i)| == 3 * n + |Segment(src, i + 3 * n)|
    ensures PercentDecoded(Segment(src, i)) == Triplets(src, i, n).value + PercentDecoded(Segment(src, i + 3 * n))
    decreases n
  {
    hide Segment, PercentDecoded, Triplet;
    if n > 0 {
      SegmentTriplet(src, i);
      SegmentTriplets(src, i + 3, n - 1);
    }
  }

  lemma SegmentByte(src: seq<byte>, i: nat)
    requires i < |src| && src[i] != SLASH && src[i] != PERCENT
    ensures |Segment(src, i)| == 1 + |Segment(src, i + 1)|
    ensures PercentDecoded(Segment(src, i)) == [src[i]] + PercentDecoded(Segment(src, i + 1))
  {
    SegmentFirst(src, i);
  }

  lemma {:induction false} UnescapeUntouched(u: seq<byte>, rest: seq<byte>)
    requires forall k :: 0 <= k < |u| ==> u[k] != TILDE
    ensures Unescape(u + rest) == u + Unescape(rest)
  {
    hide Unescape;
    if u == [] {
      assert u + rest == rest;
    } else {
      UnescapeFirst(u + rest);
      assert (u + rest)[1..] == u[1..] + rest;
      UnescapeUntouched(u[1..], rest);
      assert [u[0]] + (u[1..] + Unescape(rest)) == u + Unescape(rest);
    }
  }

  lemma LongUnits(u: seq<byte>)
    requires Utf8.Valid(u) && |u| > 1
    ensures forall k :: 0 <= k < |u| ==> u[k] >= 0x80
  {
    Utf8.FirstUnit(u[0]);
  }

  /** A character behind which `j` is, and the rest of its name. */
  lemma UnescapedFormat(src: seq<byte>, c: byte, j: nat)
    requires j <= |src| && Unescaped(src, c, j).Piece?
    ensures var p := Unescaped(src, c, j);
            && j <= p.next <= |src| && |Segment(src, j)| == p.next - j + |Segment(src, p.next)|
            && Unescape([c] + PercentDecoded(Segment(src, j))) == p.bytes + Unescape(PercentDecoded(Segment(src, p.next)))
  {
    hide Segment, Unescape, PercentDecoded;
    var rest := PercentDecoded(Segment(src, j));
    UnescapeFirst([c] + rest);
    assert ([c] + rest)[1..] == rest;
    if c == TILDE {
      SegmentByte(src, j);
      assert ([c] + rest)[2..] == PercentDecoded(Segment(src, j + 1));
    }
  }

  lemma CharacterFormat(src: seq<byte>, i: nat)
    requires i < |src| && src[i] != SLASH && Character(src, i, true).Piece?
    ensures var p := Character(src, i, true);
            && |Segment(src, i)| == p.next - i + |Segment(src, p.next)|
            && Unescape(PercentDecoded(Segment(src, i))) == p.bytes + Unescape(PercentDecoded(Segment(src, p.next)))
  {
    hide Segment, Unescape, PercentDecoded, Unescaped, Triplet, Triplets;
    if src[i] == PERCENT {
      var u := Percented(src, i).value;
      SegmentTriplets(src, i, |u|);
      if |u| == 1 {
        assert u == [u[0]];
        UnescapedFormat(src, u[0], i + 3);
      } else {
        LongUnits(u);
        UnescapeUntouched(u, PercentDecoded(Segment(src, i + 3 * |u|)));
      }
    } else {
      SegmentByte(src, i);
      UnescapedFormat(src, src[i], i + 1);
    }
  }

  lemma {:induction false} FragmentName(src: seq<byte>, i: nat)
    requires i <= |src| && NameAt(src, i, true).Piece?
    ensures NameAt(src, i, true) == Piece(Unescape(PercentDecoded(Segment(src, i))), i + |Segment(src, i)|)
    decreases |src| - i
  {
    hide Segment, Unescape, PercentDecoded, Character;
    SegmentEnds(src, i);
    if i < |src| && src[i] != SLASH {
      CharacterFormat(src, i);
      FragmentName(src, Character(src, i, true).next);
    } else {
      NothingDecoded();
    }
  }

  lemma NothingDecoded()
    ensures Unescape(PercentDecoded([])) == []
  {
  }

  function AllDecoded(texts: seq<seq<byte>>): seq<seq<byte>> {
    if texts == [] then [] else [Unescape(PercentDecoded(texts[0]))] + AllDecoded(texts[1..])
  }

  lemma {:induction false} FragmentNames(src: seq<byte>, i: nat)
    requires i <= |src| && (i < |src| ==> src[i] == SLASH) && NamesAt(src, i, true).Names?
    ensures NamesAt(src, i, true) == Names(AllDecoded(Segments(src, i)))
    decreases |src| - i
  {
    hide NameAt, Segment, Unescape, PercentDecoded;
    if i < |src| {
      var text := Segment(src, i + 1);
      FragmentName(src, i + 1);
      FragmentNames(src, i + 1 + |text|);
      var texts := Segments(src, i);
      assert texts[0] == text && texts[1..] == Segments(src, i + 1 + |text|);
    }
  }

  /** A fragment that is accepted names what the texts between its slashes mean when they are decoded. */
  lemma FragmentFormat(src: seq<byte>)
    requires src != [] && src[0] as char == '#' && Meant(src).Names?
    ensures |src| > 1 ==> src[1] as char == '/'
    ensures Meant(src) == Names(AllDecoded(Segments(src, 1)))
  {
    hide NamesAt, Segments, AllDecoded;
    FragmentNames(src, 1);
  }
}
