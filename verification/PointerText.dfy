/**
  The pointer object: parsing into a name buffer and tokens, and printing from them.
 */
module PointerText {
  import opened Sequences
  import opened Options
  import opened Bits
  import opened JsonPointer
  import opened Modular
  import Utf8

  // ----- array indices

  const SIZE_LIMIT: nat := 0x1_0000_0000
  const INVALID_INDEX: nat := 0xffff_ffff

  predicate AllDigits(name: seq<byte>) {
    forall k :: 0 <= k < |name| ==> ZERO <= name[k] <= NINE
  }

  /** The index loop from digit `j` on; a smaller result is taken for an overflow. */
  function IndexFrom(name: seq<byte>, j: nat, n: nat): (index: nat)
    requires j <= |name| && AllDigits(name) && n < SIZE_LIMIT
    ensures index < SIZE_LIMIT
    decreases |name| - j
  {
    if j == |name| then n
    else
      var m := (n * 10 + (name[j] - ZERO)) % SIZE_LIMIT;
      if m < n then INVALID_INDEX else IndexFrom(name, j + 1, m)
  }

  /** The array index that a name stands for: digits without a leading zero. */
  function IndexOf(name: seq<byte>): (index: nat)
    ensures index < SIZE_LIMIT
  {
    if name == [] || !AllDigits(name) || (|name| > 1 && name[0] == ZERO) then INVALID_INDEX
    else IndexFrom(name, 0, 0)
  }

  function Decimal(name: seq<byte>, k: nat): nat
    requires k <= |name| && AllDigits(name)
  {
    if k == 0 then 0 else Decimal(name, k - 1) * 10 + (name[k - 1] - ZERO)
  }

  lemma {:induction false} DecimalGrows(name: seq<byte>, j: nat, k: nat)
    requires j <= k <= |name| && AllDigits(name)
    ensures Decimal(name, j) <= Decimal(name, k)
    decreases k
  {
    if j < k {
      DecimalGrows(name, j, k - 1);
    }
  }

  lemma {:induction false} IndexFromExact(name: seq<byte>, j: nat)
    requires j <= |name| && AllDigits(name) && Decimal(name, |name|) < SIZE_LIMIT
    ensures Decimal(name, j) < SIZE_LIMIT && IndexFrom(name, j, Decimal(name, j)) == Decimal(name, |name|)
    decreases |name| - j
  {
    DecimalGrows(name, j, |name|);
    if j < |name| {
      DecimalGrows(name, j + 1, |name|);
      SmallMod(Decimal(name, j + 1), SIZE_LIMIT);
      IndexFromExact(name, j + 1);
    }
  }

  /** A number without leading zero is its own index exactly if it fits. */
  lemma IndexExact(name: seq<byte>)
    requires name != [] && AllDigits(name) && (|name| > 1 ==> name[0] != ZERO)
    ensures IndexOf(name) == Decimal(name, |name|) <==> Decimal(name, |name|) < SIZE_LIMIT
  {
    if Decimal(name, |name|) < SIZE_LIMIT {
      IndexFromExact(name, 0);
    }
  }

  lemma ZeroStep(name: seq<byte>, j: nat, n: nat)
    requires j < |name| && AllDigits(name) && name[j] == ZERO && n * 10 < SIZE_LIMIT
    ensures IndexFrom(name, j, n) == IndexFrom(name, j + 1, n * 10)
    ensures Decimal(name, j) == n ==> Decimal(name, j + 1) == n * 10
  {
    SmallMod(n * 10, SIZE_LIMIT);
  }

  /** Beyond that an overflow may go unnoticed: 6000000000 is taken for the index 1705032704. */
  lemma OverflowUnnoticed()
    ensures var name: seq<byte> := [54, 48, 48, 48, 48, 48, 48, 48, 48, 48];
            AllDigits(name) && Decimal(name, 10) == 6000000000 && IndexOf(name) == 1705032704
  {
    var name: seq<byte> := [54, 48, 48, 48, 48, 48, 48, 48, 48, 48];
    SixAndZeros(name);
  }

  lemma SixAndZeros(name: seq<byte>)
    requires |name| == 10 && AllDigits(name) && name[0] == 54 && forall k :: 1 <= k < 10 ==> name[k] == ZERO
    ensures Decimal(name, 10) == 6000000000 && IndexOf(name) == 1705032704
  {
    hide AllDigits, SIZE_LIMIT;
    FirstSix(name);
    ZeroStep(name, 1, 6);
    ZeroStep(name, 2, 60);
    ZeroStep(name, 3, 600);
    ZeroStep(name, 4, 6000);
    ZeroStep(name, 5, 60000);
    ZeroStep(name, 6, 600000);
    ZeroStep(name, 7, 6000000);
    ZeroStep(name, 8, 60000000);
    LastZero(name);
  }

  lemma FirstSix(name: seq<byte>)
    requires |name| == 10 && AllDigits(name) && name[0] == 54
    ensures IndexOf(name) == IndexFrom(name, 1, 6) && Decimal(name, 1) == 6
    ensures 600000000 < SIZE_LIMIT
  {
    assert Decimal(name, 0) == 0;
  }

  lemma LastZero(name: seq<byte>)
    requires |name| == 10 && AllDigits(name) && name[9] == ZERO && Decimal(name, 9) == 600000000
    ensures IndexFrom(name, 9, 600000000) == 1705032704 && Decimal(name, 10) == 6000000000
  {
    assert IndexFrom(name, 10, 1705032704) == 1705032704;
  }

  // ----- streams

  /** Text that is read byte by byte, as it is or in percent encoding. */
  datatype Source = Raw(text: seq<byte>, pos: nat) | Percent(text: seq<byte>, pos: nat, valid: bool)

  /** The next byte; a triplet that is not one reads as zero. */
  function Take(s: Source): (byte, Source)
    requires s.Raw? ==> s.pos < |s.text|
  {
    match s
    case Raw(text, pos) => (text[pos], Raw(text, pos + 1))
    case Percent(text, pos, valid) =>
      if Triplet(text, pos) >= 0 then (Triplet(text, pos), Percent(text, pos + 3, valid))
      else if pos + 3 > |text| || text[pos] != PERCENT then (0, Percent(text, pos, false))
      else (0, Percent(text, if Unhex(text[pos + 1]) < 0 then pos + 1 else pos + 2, false))
  }

  predicate Enough(s: Source, n: nat) {
    s.Raw? ==> s.pos + n <= |s.text|
  }

  /** The next `n` bytes, and the position behind them. */
  function TakeAll(s: Source, n: nat): (r: (seq<byte>, Source))
    requires Enough(s, n)
    ensures |r.0| == n
    ensures s.Raw? ==> r == (s.text[s.pos..s.pos + n], Raw(s.text, s.pos + n))
    ensures s.Percent? ==> r.1.Percent? && r.1.text == s.text
    decreases n
  {
    if n == 0 then
      assert s.Raw? ==> s.text[s.pos..s.pos + n] == [];
      ([], s)
    else
      var (put, s') := TakeAll(s, n - 1);
      assert s.Raw? ==> s.text[s.pos..s.pos + n] == s.text[s.pos..s.pos + n - 1] + [s.text[s.pos + n - 1]];
      (put + [Take(s').0], Take(s').1)
  }

  // ----- validating a stream

  lemma {:induction false} TakeMore(s: Source, n: nat)
    requires Enough(s, n + 1)
    ensures TakeAll(s, n + 1) == (TakeAll(s, n).0 + [Take(TakeAll(s, n).1).0], Take(TakeAll(s, n).1).1)
  {
  }

  /** The masks for the units after the first. */
  function Masks(c: byte): (masks: seq<nat>)
    ensures |masks| == Utf8.Units(c) - 1
  {
    match Utf8.GetRange(c)
    case 2 => [0x70]
    case 3 => [0x70, 0x70]
    case 4 => [0x50, 0x70]
    case 5 => [0x10, 0x70, 0x70]
    case 6 => [0x70, 0x70, 0x70]
    case 10 => [0x20, 0x70]
    case 11 => [0x60, 0x70, 0x70]
    case _ => []
  }

  lemma MasksAre(c: byte)
    ensures var m := Masks(c); |m| > 0 ==> m[0] == Utf8.SecondMask(c)
    ensures var m := Masks(c); forall k :: 1 <= k < |m| ==> m[k] == 0x70
  {
  }

  /** The first `k` units after the first are allowed. */
  ghost predicate AllowedUpTo(put: seq<byte>, k: nat) {
    && 0 < |put| && k < |put| && k <= |Masks(put[0])|
    && forall j :: 0 <= j < k ==> Utf8.Allowed(put[j + 1], Masks(put[0])[j])
  }

  lemma ValidIs(put: seq<byte>)
    requires put != [] && |put| == Utf8.Units(put[0])
    ensures Utf8.Valid(put) <==> (put[0] < 0x80 || |put| > 1) && AllowedUpTo(put, |put| - 1)
  {
    hide Utf8.Allowed, Utf8.Units;
    MasksAre(put[0]);
    var m := Masks(put[0]);
    assert |put| > 1 && AllowedUpTo(put, |put| - 1) ==> Utf8.Allowed(put[0 + 1], m[0]);
    assert |put| > 2 && AllowedUpTo(put, |put| - 1) ==> Utf8.Allowed(put[1 + 1], m[1]);
    assert |put| > 3 && AllowedUpTo(put, |put| - 1) ==> Utf8.Allowed(put[2 + 1], m[2]);
  }

  lemma AllowedMore(put: seq<byte>, k: nat, c: byte)
    requires put != [] && |put| == k + 1 && k < |Masks(put[0])|
    ensures AllowedUpTo(put + [c], k + 1) <==> AllowedUpTo(put, k) && Utf8.Allowed(c, Masks(put[0])[k])
  {
    hide Utf8.Allowed, Masks;
    var more := put + [c];
    if AllowedUpTo(more, k + 1) {
      forall j | 0 <= j < k
        ensures Utf8.Allowed(put[j + 1], Masks(put[0])[j])
      {
        assert Utf8.Allowed(more[j + 1], Masks(more[0])[j]);
      }
      assert Utf8.Allowed(more[k + 1], Masks(more[0])[k]);
    }
  }

  /** Takes one sequence of UTF-8 and says whether it is valid. */
  method Validate(input: Source) returns (ok: bool, input': Source, put: seq<byte>)
    requires Enough(input, 4)
    ensures put != [] && |put| == Utf8.Units(put[0]) && (put, input') == TakeAll(input, |put|)
    ensures ok <==> Utf8.Valid(put)
  {
    hide Utf8.Valid, Utf8.Allowed, Utf8.Units, Masks, Take, TakeAll;
    TakeMore(input, 0);
    var taken := Take(input);
    var c := taken.0;
    input' := taken.1;
    put := [c];
    NoneTaken(input);
    FirstTaken(c);
    assert [] + [c] == put;
    if c < 0x80 {
      ValidIs(put);
      return true, input', put;
    }
    ghost var first := c;
    var masks := Masks(c);
    ok := masks != [];
    for k := 0 to |masks|
      invariant |put| == k + 1 && put[0] == first && (put, input') == TakeAll(input, k + 1)
      invariant ok <==> masks != [] && AllowedUpTo(put, k)
    {
      ghost var before := put;
      TakeMore(input, k + 1);
      taken := Take(input');
      c, input' := taken.0, taken.1;
      put := put + [c];
      ok := ok && Utf8.Allowed(c, masks[k]);
      AllowedMore(before, k, c);
    }
    ValidIs(put);
  }

  lemma NoneTaken(s: Source)
    requires Enough(s, 0)
    ensures TakeAll(s, 0) == ([], s)
  {
  }

  lemma FirstTaken(c: byte)
    ensures c < 0x80 ==> Utf8.Units(c) == 1
    ensures AllowedUpTo([c], 0)
  {
  }

  // ----- percent encoding

  /** Taking from percent encoding is valid exactly if there are as many triplets. */
  lemma {:induction false} TripletsTaken(src: seq<byte>, i: nat, n: nat)
    ensures var r := TakeAll(Percent(src, i, true), n);
            if r.1.valid then Triplets(src, i, n) == Some(r.0) && r.1.pos == i + 3 * n else Triplets(src, i, n).None?
    decreases n
  {
    hide Triplet, PERCENT;
    if n > 0 {
      TripletsTaken(src, i, n - 1);
      TripletsMore(src, i, n - 1);
    }
  }

  lemma {:induction false} TripletsMore(src: seq<byte>, i: nat, n: nat)
    ensures var r := Triplets(src, i, n);
            Triplets(src, i, n + 1) == if r.None? || Triplet(src, i + 3 * n) < 0 then None
                                       else Some(r.value + [Triplet(src, i + 3 * n)])
    decreases n
  {
    hide Triplet;
    if n > 0 {
      TripletsMore(src, i + 3, n - 1);
      assert i + 3 + 3 * (n - 1) == i + 3 * n;
      var r := Triplets(src, i + 3, n - 1);
      if r.Some? && Triplet(src, i) >= 0 {
        assert [Triplet(src, i)] + (r.value + [Triplet(src, i + 3 * n)])
            == [Triplet(src, i)] + r.value + [Triplet(src, i + 3 * n)];
      }
    } else {
      assert [Triplet(src, i)] + [] == [] + [Triplet(src, i)];
    }
  }

  /** A source that has become invalid stays so. */
  lemma {:induction false} InvalidStays(src: seq<byte>, i: nat, n: nat)
    requires n > 0 && Triplet(src, i) < 0
    ensures !TakeAll(Percent(src, i, true), n).1.valid && TakeAll(Percent(src, i, true), 1).0 == [0]
    decreases n
  {
    assert TakeAll(Percent(src, i, true), 0) == ([], Percent(src, i, true));
    if n > 1 {
      InvalidStays(src, i, n - 1);
    }
  }

  /** What was validated through percent encoding is one character of it. */
  lemma PercentValidated(src: seq<byte>, i: nat, put: seq<byte>, input': Source)
    requires put != [] && |put| == Utf8.Units(put[0]) && (put, input') == TakeAll(Percent(src, i, true), |put|)
    ensures Percented(src, i) == if input'.valid && Utf8.Valid(put) then Some(put) else None
    ensures Percented(src, i).Some? ==> input'.pos == i + 3 * |put|
    ensures Triplet(src, i) < 0 ==> |put| == 1
  {
    hide Utf8.Valid, Triplet;
    TripletsTaken(src, i, |put|);
    FirstOfAll(Percent(src, i, true), |put|);
    if Triplet(src, i) < 0 {
      InvalidStays(src, i, |put|);
      FirstTaken(0);
    } else {
      assert TakeAll(Percent(src, i, true), 0) == ([], Percent(src, i, true));
      assert TakeAll(Percent(src, i, true), 1).0 == [Triplet(src, i)];
    }
  }

  lemma {:induction false} FirstOfAll(s: Source, n: nat)
    requires n > 0 && Enough(s, n)
    ensures TakeAll(s, n).0[0] == TakeAll(s, 1).0[0]
    decreases n
  {
    hide Take;
    if n > 1 {
      FirstOfAll(s, n - 1);
    }
  }

  // ----- names in a buffer

  /** A name in the buffer: where it is, its length and its array index. */
  datatype Token = Token(name: nat, length: nat, index: nat)

  /** The token is a name with a NUL after it. */
  ghost predicate TokenIs(t: Token, buf: seq<byte>, name: seq<byte>) {
    && t.name + t.length < |buf| && buf[t.name..t.name + t.length] == name && buf[t.name + t.length] == 0
    && t.length == |name| && t.index == IndexOf(name)
  }

  /** How many names begin at or after `i`. */
  function Slashes(src: seq<byte>, i: nat): nat
    requires i <= |src|
    decreases |src| - i
  {
    if i == |src| then 0 else (if src[i] == SLASH then 1 else 0) + Slashes(src, i + 1)
  }

  /** Copies some bytes into the buffer. */
  method Put(buf: array<byte>, at: nat, bytes: seq<byte>)
    requires at + |bytes| <= buf.Length
    modifies buf
    ensures buf[..at] == old(buf[..at]) && buf[at..at + |bytes|] == bytes
  {
    for k := 0 to |bytes|
      invariant buf[..at] == old(buf[..at]) && buf[at..at + k] == bytes[..k]
    {
      buf[at + k] := bytes[k];
    }
  }

  /** Reads a percent-encoded character into the buffer. */
  method ParsePercented(src: seq<byte>, i: nat, buf: array<byte>, n: nat) returns (error: Option<ParseError>, length: nat)
    requires n + 2 <= i < |src| == buf.Length
    modifies buf
    ensures buf[..n] == old(buf[..n])
    ensures error.None? ==> n + length <= buf.Length && 0 < length && Percented(src, i) == Some(buf[n..n + length])
    ensures error.Some? ==> error.value == InvalidPercentEncoding && Percented(src, i).None?
  {
    hide Utf8.Valid, Utf8.Units, Percented;
    var ok, input, put := Validate(Percent(src, i, true));
    PercentValidated(src, i, put, input);
    UnitsAtMost(put[0]);
    Put(buf, n, put);
    length := |put|;
    error := if !ok || !input.valid then Some(InvalidPercentEncoding) else None;
  }

  lemma UnitsAtMost(c: byte)
    ensures Utf8.Units(c) <= 4
  {
  }

  /**
    Reads one character, escaped or not, into the buffer from `n` on. On an error `next` is where it is. The buffer is
    as long as the text, and the `#` of a URI fragment leaves room for more.
   */
  method ParseCharacter(src: seq<byte>, i: nat, uri: bool, buf: array<byte>, n: nat)
    returns (error: Option<ParseError>, next: nat, n': nat, digit: bool)
    requires i < |src| == buf.Length && n + (if uri then 2 else 1) <= i
    modifies buf
    ensures buf[..n] == old(buf[..n])
    ensures error.None? ==>
              && n <= n' <= buf.Length && n' + (if uri then 2 else 1) <= next
              && Character(src, i, uri) == Piece(buf[n..n'], next) && (digit <==> AllDigits(buf[n..n']))
    ensures error.Some? ==> Character(src, i, uri) == Wrong(error.value, next)
  {
    hide Percented, Character, AllDigits;
    IsCharacter(src, i, uri);
    error, n', digit := None, n, false;
    var c := src[i];
    next := i;
    if uri {
      if c == PERCENT {
        var length;
        error, length := ParsePercented(src, i, buf, n);
        if error.Some? {
          return;
        }
        next := next + 3 * length - 1;
        if length == 1 {
          c := buf[n];
        } else {
          n', next := n + length, next + 1;
          NotDigits(buf[n..n']);
          return;
        }
      } else if NeedPercentEncode(c) {
        error := Some(CharacterMustPercentEncode);
        return;
      }
    }
    next := next + 1;
    if c == TILDE {
      if next < |src| && (src[next] == ZERO || src[next] == ONE) {
        c, next := if src[next] == ZERO then TILDE else SLASH, next + 1;
      } else {
        error := Some(InvalidEscape);
        return;
      }
    }
    digit := ZERO <= c <= NINE;
    buf[n] := c;
    n' := n + 1;
    assert buf[n..n'] == [c];
    OneDigit(c);
  }

  /** Reads the name that begins at `start` into the buffer from `from` on. */
  method ParseName(src: seq<byte>, start: nat, uri: bool, buf: array<byte>, from: nat)
    returns (error: Option<ParseError>, i: nat, n: nat, isNumber: bool)
    requires start <= |src| == buf.Length && from + (if uri then 2 else 1) <= start
    modifies buf
    ensures buf[..from] == old(buf[..from])
    ensures error.None? ==>
              && from <= n && n + (if uri then 2 else 1) <= i <= |src| && NameAt(src, start, uri) == Piece(buf[from..n], i)
              && (isNumber <==> AllDigits(buf[from..n]))
    ensures error.Some? ==> NameAt(src, start, uri) == Wrong(error.value, i)
  {
    hide Character, NameAt, AllDigits;
    error, i, n, isNumber := None, start, from, true;
    NoDigits();
    assert buf[from..n] == [];
    FirstOnward(NameAt(src, start, uri));
    while i < |src| && src[i] != SLASH
      invariant start <= i <= |src| && from <= n && n + (if uri then 2 else 1) <= i && error.None?
      invariant buf[..from] == old(buf[..from])
      invariant NameAt(src, start, uri) == Onward(buf[from..n], NameAt(src, i, uri))
      invariant isNumber <==> AllDigits(buf[from..n])
    {
      ghost var name := buf[from..n];
      ghost var before := buf[..n];
      NextCharacter(src, i, uri, name);
      var next, n', digit;
      error, next, n', digit := ParseCharacter(src, i, uri, buf, n);
      if error.Some? {
        i := next;
        Kept(before, buf[..n], from);
        return;
      }
      Kept(before, buf[..n], from);
      assert buf[from..n'] == name + buf[n..n'];
      DigitsOfBoth(name, buf[n..n']);
      i, n, isNumber := next, n', isNumber && digit;
    }
    NoName(src, i, uri);
    assert buf[from..n] + [] == buf[from..n];
  }

  lemma Kept(before: seq<byte>, now: seq<byte>, from: nat)
    requires before == now && from <= |now|
    ensures before[..from] == now[..from] && before[from..] == now[from..]
  {
  }

  lemma FirstOnward(p: Piece)
    ensures Onward([], p) == p
  {
    if p.Piece? {
      assert [] + p.bytes == p.bytes;
    }
  }

  lemma NoDigits()
    ensures AllDigits([])
  {
  }

  lemma OneDigit(c: byte)
    ensures AllDigits([c]) <==> ZERO <= c <= NINE
  {
    assert [c][0] == c;
  }

  lemma DigitsOfBoth(a: seq<byte>, b: seq<byte>)
    ensures AllDigits(a + b) <==> AllDigits(a) && AllDigits(b)
  {
    assert forall k :: 0 <= k < |a| ==> (a + b)[k] == a[k];
    forall k | 0 <= k < |b|
      ensures (a + b)[|a| + k] == b[k]
    {
    }
    if AllDigits(a + b) {
      forall k | 0 <= k < |b|
        ensures ZERO <= b[k] <= NINE
      {
        assert (a + b)[|a| + k] == b[k];
      }
    }
  }

  lemma NotDigits(u: seq<byte>)
    requires |u| > 1 && Utf8.Valid(u)
    ensures !AllDigits(u)
  {
    Utf8.FirstUnit(u[0]);
  }

  /** The name goes on with some bytes. */
  function Onward(name: seq<byte>, rest: Piece): Piece {
    if rest.Wrong? then rest else Piece(name + rest.bytes, rest.next)
  }

  lemma NextCharacter(src: seq<byte>, i: nat, uri: bool, name: seq<byte>)
    requires i < |src| && src[i] != SLASH
    ensures var p := Character(src, i, uri);
            Onward(name, NameAt(src, i, uri)) == if p.Wrong? then p else Onward(name + p.bytes, NameAt(src, p.next, uri))
  {
    hide Character;
    var p := Character(src, i, uri);
    if p.Piece? && NameAt(src, p.next, uri).Piece? {
      assert name + (p.bytes + NameAt(src, p.next, uri).bytes) == name + p.bytes + NameAt(src, p.next, uri).bytes;
    }
  }

  lemma IsCharacter(src: seq<byte>, i: nat, uri: bool)
    requires i < |src|
    ensures var c := src[i];
            Character(src, i, uri)
            == if uri && c == PERCENT then
                 (if Percented(src, i).None? then Wrong(InvalidPercentEncoding, i)
                  else
                    var u := Percented(src, i).value;
                    if |u| == 1 then Unescaped(src, u[0], i + 3) else Piece(u, i + 3 * |u|))
               else if uri && NeedPercentEncode(c) then Wrong(CharacterMustPercentEncode, i)
               else Unescaped(src, c, i + 1)
  {
  }

  // ----- counting names

  lemma {:induction false} SlashesSkip(src: seq<byte>, i: nat, j: nat)
    requires i <= j <= |src| && forall k :: i <= k < j ==> src[k] != SLASH
    ensures Slashes(src, i) == Slashes(src, j)
    decreases j - i
  {
    if i < j {
      SlashesSkip(src, i + 1, j);
    }
  }

  lemma {:induction false} TripletsHaveNoSlash(src: seq<byte>, i: nat, n: nat)
    requires Triplets(src, i, n).Some?
    ensures i + 3 * n <= |src| || n == 0
    ensures forall k :: i <= k < i + 3 * n ==> src[k] != SLASH
    decreases n
  {
    if n > 0 {
      TripletsHaveNoSlash(src, i + 3, n - 1);
    }
  }

  lemma CharacterHasNoSlash(src: seq<byte>, i: nat, uri: bool)
    requires i < |src| && src[i] != SLASH && Character(src, i, uri).Piece?
    ensures Slashes(src, i) == Slashes(src, Character(src, i, uri).next)
  {
    hide Slashes, Utf8.Valid, Triplet;
    var next := Character(src, i, uri).next;
    if uri && src[i] == PERCENT {
      TripletsHaveNoSlash(src, i, |Percented(src, i).value|);
    }
    SlashesSkip(src, i, next);
  }

  lemma {:induction false} NameHasNoSlash(src: seq<byte>, i: nat, uri: bool)
    requires i <= |src| && NameAt(src, i, uri).Piece?
    ensures Slashes(src, i) == Slashes(src, NameAt(src, i, uri).next)
    decreases |src| - i
  {
    hide Character, Slashes;
    if i < |src| && src[i] != SLASH {
      CharacterHasNoSlash(src, i, uri);
      NameHasNoSlash(src, Character(src, i, uri).next, uri);
    }
  }

  // ----- the pointer

  /** The first `k` tokens are names in the buffer. */
  ghost predicate TokensAre(tokens: seq<Token>, buf: seq<byte>, names: seq<seq<byte>>, k: nat) {
    k <= |tokens| && k <= |names| && forall j :: 0 <= j < k ==> TokenIs(tokens[j], buf, names[j])
  }

  lemma TokensStay(tokens: seq<Token>, tokens': seq<Token>, buf: seq<byte>, buf': seq<byte>,
                   names: seq<seq<byte>>, names': seq<seq<byte>>, k: nat)
    requires TokensAre(tokens, buf, names, k)
    requires k <= |tokens'| && k <= |names'| && tokens'[..k] == tokens[..k] && names'[..k] == names[..k]
    requires |buf| <= |buf'| && buf'[..|buf|] == buf
    ensures TokensAre(tokens', buf', names', k)
  {
    forall j | 0 <= j < k
      ensures TokenIs(tokens'[j], buf', names'[j])
    {
      var t := tokens[j];
      assert TokenIs(t, buf, names[j]);
      assert tokens'[j] == tokens'[..k][j] == t && names'[j] == names'[..k][j] == names[j];
      assert buf'[t.name..t.name + t.length] == buf'[..|buf|][t.name..t.name + t.length];
      assert buf'[t.name + t.length] == buf'[..|buf|][t.name + t.length];
    }
  }

  /** Names read before the rest of the text. */
  function Preceded(names: seq<seq<byte>>, rest: Meaning): Meaning {
    if rest.Invalid? then rest else Names(names + rest.names)
  }

  lemma NextName(src: seq<byte>, i: nat, uri: bool, names: seq<seq<byte>>)
    requires i < |src| && src[i] == SLASH
    ensures var p := NameAt(src, i + 1, uri);
            Preceded(names, NamesAt(src, i, uri)) == if p.Wrong? then Invalid(p.code, p.at)
                                                     else Preceded(names + [p.bytes], NamesAt(src, p.next, uri))
  {
    hide NameAt;
    var p := NameAt(src, i + 1, uri);
    if p.Piece? && NamesAt(src, p.next, uri).Names? {
      var rest := NamesAt(src, p.next, uri).names;
      assert names + ([p.bytes] + rest) == names + [p.bytes] + rest;
    }
  }

  lemma NoNamesYet(m: Meaning)
    ensures Preceded([], m) == m
  {
    if m.Names? {
      assert [] + m.names == m.names;
    }
  }

  /** Reads a token: its name goes to the buffer, with a NUL after it. */
  method ParseToken(source: seq<byte>, i: nat, uri: bool, buf: array<byte>, name: nat)
    returns (failed: Option<ParseError>, next: nat, t: Token)
    requires i < |source| == buf.Length && source[i] == SLASH && name + (if uri then 1 else 0) <= i
    modifies buf
    ensures buf[..name] == old(buf[..name])
    ensures failed.None? ==>
              && next <= |source| && (next < |source| ==> source[next] == SLASH)
              && t.name == name && name + t.length + 1 + (if uri then 1 else 0) <= next
              && buf[..name + t.length + 1][..name] == old(buf[..name])
              && NameAt(source, i + 1, uri) == Piece(buf[name..name + t.length], next)
              && t.index == IndexOf(buf[name..name + t.length]) && buf[name + t.length] == 0
              && Slashes(source, next) == Slashes(source, i) - 1
    ensures failed.Some? ==> NameAt(source, i + 1, uri) == Wrong(failed.value, next)
  {
    hide NameAt, IndexOf, AllDigits, Slashes;
    SlashHere(source, i);
    var end, isNumber;
    failed, next, end, isNumber := ParseName(source, i + 1, uri, buf, name);
    t := Token(name, 0, INVALID_INDEX);
    if failed.None? {
      NameHasNoSlash(source, i + 1, uri);
      ghost var bytes := buf[name..end];
      buf[end] := 0;
      assert buf[name..end] == bytes;
      var index := ToIndex(buf[name..end], isNumber);
      t := Token(name, end - name, index);
      assert buf[..end + 1][..name] == buf[..name];
    }
  }

  // ----- printing

  lemma PrependPrepend(a: seq<byte>, b: seq<byte>, rest: Option<seq<byte>>)
    ensures Prepend(a, Prepend(b, rest)) == Prepend(a + b, rest)
    ensures Prepend([], rest) == rest
  {
    if rest.Some? {
      assert a + (b + rest.value) == a + b + rest.value;
      assert [] + rest.value == rest.value;
    }
  }

  /** What a name prints as, from its first character on. */
  lemma EscapedNext(name: seq<byte>, j: nat, uri: bool)
    requires j < |name|
    ensures var c := name[j];
            Escaped(name[j..], uri)
            == if c == TILDE then Prepend([TILDE, ZERO], Escaped(name[j + 1..], uri))
               else if c == SLASH then Prepend([TILDE, ONE], Escaped(name[j + 1..], uri))
               else if uri && NeedPercentEncode(c) then
                 var n := Utf8.Units(c);
                 if j + n <= |name| && Utf8.Valid(name[j..j + n]) then
                   Prepend(AllEncoded(name[j..j + n]), Escaped(name[j + n..], uri))
                 else None
               else Prepend([c], Escaped(name[j + 1..], uri))
  {
    hide Utf8.Valid;
    var rest := name[j..];
    assert rest[1..] == name[j + 1..];
    var n := Utf8.Units(name[j]);
    if j + n <= |name| {
      assert rest[..n] == name[j..j + n] && rest[n..] == name[j + n..];
    }
  }

  /** Validation that runs into the NUL after the name fails, whatever comes after it. */
  lemma TruncatedIsInvalid(put: seq<byte>, k: nat)
    requires 0 < k < |put| && put[k] == 0
    ensures !Utf8.Valid(put)
  {
    assert |put| <= 4 || !Utf8.Valid(put);
  }

  /** What has been validated is a part of the name, or reaches beyond it and is invalid. */
  lemma ValidatedHere(memory: seq<byte>, at: nat, length: nat, j: nat, put: seq<byte>, after: Source)
    requires at + length + 4 <= |memory| && memory[at + length] == 0 && j < length
    requires put != [] && |put| == Utf8.Units(put[0]) && (put, after) == TakeAll(Raw(memory, at + j), |put|)
    ensures put[0] == memory[at..at + length][j]
    ensures j + |put| > length ==> !Utf8.Valid(put)
    ensures j + |put| <= length ==> put == memory[at..at + length][j..j + |put|]
  {
    hide Utf8.Valid, Utf8.Units, TakeAll;
    UnitsAtMost(put[0]);
    var name := memory[at..at + length];
    assert put == memory[at + j..at + j + |put|];
    if j + |put| > length {
      assert put[length - j] == memory[at + length];
      TruncatedIsInvalid(put, length - j);
    } else {
      SliceOfSlice(memory, at, at + length, j, j + |put|);
    }
  }

  lemma {:induction false} EncodeMore(u: seq<byte>, k: nat)
    requires k < |u|
    ensures AllEncoded(u[..k + 1]) == AllEncoded(u[..k]) + Encoded(u[k])
    decreases k
  {
    if k > 0 {
      EncodeMore(u[1..], k - 1);
      assert u[..k + 1][1..] == u[1..][..k] && u[..k][1..] == u[1..][..k - 1];
    } else {
      assert u[..1][1..] == [];
    }
  }

  /** Puts every byte as a percent sign and two digits. */
  method PercentEncode(u: seq<byte>) returns (out: seq<byte>)
    ensures out == AllEncoded(u)
  {
    out := [];
    for k := 0 to |u|
      invariant out == AllEncoded(u[..k])
    {
      EncodeMore(u, k);
      out := out + [PERCENT, HexDigit(u[k] / 16), HexDigit(u[k] % 16)];
    }
    assert u[..|u|] == u;
  }

  /**
    Prints a name. A sequence of UTF-8 that the name cuts short is validated against the memory after it, which holds
    a NUL and then anything.
   */
  method StringifyName(memory: seq<byte>, at: nat, length: nat, uri: bool) returns (ok: bool, out: seq<byte>)
    requires at + length + 4 <= |memory| && memory[at + length] == 0
    ensures var r := Escaped(memory[at..at + length], uri);
            (ok <==> r.Some?) && (ok ==> out == r.value)
  {
    hide Escaped, Utf8.Valid, Utf8.Units, NeedPercentEncode, Prepend, AllEncoded, Take;
    ghost var name := memory[at..at + length];
    out := [];
    var j := 0;
    assert name[0..] == name;
    PrependPrepend([], [], Escaped(name, uri));
    while j < length
      invariant 0 <= j <= length && Escaped(name, uri) == Prepend(out, Escaped(name[j..], uri))
    {
      var c := memory[at + j];
      ghost var n := Utf8.Units(c);
      EscapedNext(name, j, uri);
      ghost var before := out;
      if c == TILDE {
        out := out + [TILDE, ZERO];
        PrependPrepend(before, [TILDE, ZERO], Escaped(name[j + 1..], uri));
      } else if c == SLASH {
        out := out + [TILDE, ONE];
        PrependPrepend(before, [TILDE, ONE], Escaped(name[j + 1..], uri));
      } else if uri && NeedPercentEncode(c) {
        var source, put;
        ok, source, put := Validate(Raw(memory, at + j));
        ValidatedHere(memory, at, length, j, put, source);
        if !ok {
          NothingPrinted(before);
          return;
        }
        PrependPrepend(before, AllEncoded(put), Escaped(name[j + |put|..], uri));
        var encoded := PercentEncode(put);
        out := out + encoded;
        j := j + |put| - 1;
      } else {
        out := out + [c];
        PrependPrepend(before, [c], Escaped(name[j + 1..], uri));
      }
      j := j + 1;
    }
    ok := true;
    assert name[j..] == [];
    NoEscape(uri);
    NothingLeft(out);
  }

  lemma NothingLeft(out: seq<byte>)
    ensures Prepend(out, Some([])) == Some(out)
  {
    assert out + [] == out;
  }

  lemma NothingPrinted(out: seq<byte>)
    ensures Prepend(out, None) == None
  {
  }

  class GenericPointer {
    const nameBuffer: array<byte>
    const tokens: array<Token>
    var error: Option<ParseError>
    var errorOffset: nat
    /** The names of the tokens. */
    ghost var names: seq<seq<byte>>

    ghost predicate Valid()
      reads this, nameBuffer, tokens
    {
      error.None? ==> TokensAre(tokens[..], nameBuffer[..], names, |names|) && |names| == tokens.Length
    }

    /** Parses a pointer or the URI fragment of one. */
    constructor (source: seq<byte>)
      ensures Valid() && fresh(nameBuffer) && fresh(tokens)
      ensures match Meant(source)
              case Names(ns) => error.None? && names == ns
              case Invalid(code, at) => error == Some(code) && errorOffset == at
    {
      var tokenCount := 0;
      for k := 0 to |source|
        invariant tokenCount + Slashes(source, k) == Slashes(source, 0)
      {
        if source[k] == SLASH {
          tokenCount := tokenCount + 1;
        }
      }
      nameBuffer := new byte[|source|](_ => 0);
      tokens := new Token[tokenCount](_ => Token(0, 0, 0));
      error, errorOffset, names := None, 0, [];
      new;
      hide NamesAt, Slashes, TokensAre, Meant;
      var uri := source != [] && source[0] == HASH;
      var i := if uri then 1 else 0;
      AfterHash(source);
      if i != |source| && source[i] != SLASH {
        error, errorOffset := Some(TokenMustBeginWithSolidus), i;
      } else {
        ParseTokens(source, i, uri);
      }
    }

    /** Parses the tokens, with the buffer and the array of tokens allocated. */
    method ParseTokens(source: seq<byte>, start: nat, uri: bool)
      requires start <= |source| == nameBuffer.Length && (start < |source| ==> source[start] == SLASH)
      requires (uri ==> start > 0) && tokens.Length == Slashes(source, start) && error.None? && names == []
      modifies this, nameBuffer, tokens
      ensures Valid()
      ensures match NamesAt(source, start, uri)
              case Names(ns) => error.None? && names == ns
              case Invalid(code, at) => error == Some(code) && errorOffset == at
    {
      hide NameAt, NamesAt, Slashes, TokensAre, Preceded, IndexOf, AllDigits;
      var i, name, token := start, 0, 0;
      NoNamesYet(NamesAt(source, i, uri));
      NoTokens(tokens[..], nameBuffer[..name]);
      while i < |source|
        invariant start <= i <= |source| && (i < |source| ==> source[i] == SLASH) && error.None?
        invariant 0 <= name && name + (if uri then 1 else 0) <= i && |names| == token && token + Slashes(source, i) == tokens.Length
        invariant NamesAt(source, start, uri) == Preceded(names, NamesAt(source, i, uri))
        invariant TokensAre(tokens[..], nameBuffer[..name], names, token)
      {
        SlashHere(source, i);
        NextName(source, i, uri, names);
        ghost var buf, toks, was := nameBuffer[..name], tokens[..], names;
        var failed, next, t := ParseToken(source, i, uri, nameBuffer, name);
        if failed.Some? {
          error, errorOffset := failed, next;
          return;
        }
        tokens[token] := t;
        ghost var bytes := nameBuffer[name..name + t.length];
        names := names + [bytes];
        ghost var buf' := nameBuffer[..name + t.length + 1];
        assert buf'[|buf|..|buf| + |bytes|] == bytes;
        AddToken(toks, tokens[..], buf, buf', was, bytes, token);
        i, name, token := next, name + t.length + 1, token + 1;
      }
      AllNames(source, names, uri);
      TokensStay(tokens[..], tokens[..], nameBuffer[..name], nameBuffer[..], names, names, token);
    }

    /** Prints the pointer, as it is or as a URI fragment; `beyond` is what follows the buffer in memory. */
    method Stringify(uri: bool, beyond: seq<byte>) returns (ok: bool, os: seq<byte>)
      requires Valid() && error.None? && |beyond| >= 4
      ensures ok <==> Printed(names, uri).Some?
      ensures ok ==> os == Printed(names, uri).value
    {
      hide Escaped, PrintedNames, Prepend;
      var memory := nameBuffer[..] + beyond;
      ghost var head: seq<byte> := if uri then [HASH] else [];
      os := if uri then [HASH] else [];
      ghost var done: seq<byte> := [];
      assert names[0..] == names;
      PrependPrepend([], [], PrintedNames(names, uri));
      for k := 0 to tokens.Length
        invariant os == head + done && PrintedNames(names, uri) == Prepend(done, PrintedNames(names[k..], uri))
      {
        var t := tokens[k];
        assert TokenIs(tokens[..][k], nameBuffer[..], names[k]);
        assert memory[t.name..t.name + t.length] == nameBuffer[..][t.name..t.name + t.length] == names[k];
        NextPrinted(names, k, uri);
        var printed;
        ok, printed := StringifyName(memory, t.name, t.length, uri);
        if !ok {
          NotPrinted(names, uri, done);
          return;
        }
        os := os + [SLASH] + printed;
        PrependPrepend(done, [SLASH] + printed, PrintedNames(names[k + 1..], uri));
        done := done + ([SLASH] + printed);
      }
      ok := true;
      assert names[tokens.Length..] == [];
      AllPrinted(names, uri, done);
    }
  }

  lemma NextPrinted(names: seq<seq<byte>>, k: nat, uri: bool)
    requires k < |names|
    ensures PrintedNames(names[k..], uri)
         == if Escaped(names[k], uri).None? then None
            else Prepend([SLASH] + Escaped(names[k], uri).value, PrintedNames(names[k + 1..], uri))
  {
    hide Escaped;
    assert names[k..][1..] == names[k + 1..];
  }

  lemma NotPrinted(names: seq<seq<byte>>, uri: bool, done: seq<byte>)
    requires PrintedNames(names, uri) == Prepend(done, None)
    ensures Printed(names, uri).None?
  {
  }

  lemma AllPrinted(names: seq<seq<byte>>, uri: bool, done: seq<byte>)
    requires PrintedNames(names, uri) == Prepend(done, PrintedNames([], uri))
    ensures Printed(names, uri) == Some((if uri then [HASH] else []) + done)
  {
    assert done + [] == done && [] + done == done;
  }

  lemma AfterHash(source: seq<byte>)
    ensures var i := if IsUri(source) then 1 else 0;
            && Slashes(source, i) == Slashes(source, 0)
            && Meant(source) == if i < |source| && source[i] != SLASH then Invalid(TokenMustBeginWithSolidus, i)
                                else NamesAt(source, i, IsUri(source))
  {
  }

  lemma NoTokens(tokens: seq<Token>, buf: seq<byte>)
    ensures TokensAre(tokens, buf, [], 0)
  {
  }

  lemma SlashHere(src: seq<byte>, i: nat)
    requires i < |src| && src[i] == SLASH
    ensures Slashes(src, i) == Slashes(src, i + 1) + 1
  {
  }

  lemma AllNames(src: seq<byte>, names: seq<seq<byte>>, uri: bool)
    ensures NamesAt(src, |src|, uri) == Names([]) && Slashes(src, |src|) == 0
    ensures Preceded(names, NamesAt(src, |src|, uri)) == Names(names)
  {
    assert names + [] == names;
  }

  lemma AddToken(toks: seq<Token>, toks': seq<Token>, buf: seq<byte>, buf': seq<byte>, names: seq<seq<byte>>,
                 bytes: seq<byte>, k: nat)
    requires TokensAre(toks, buf, names, k) && k == |names| < |toks|
    requires toks' == toks[k := Token(|buf|, |bytes|, IndexOf(bytes))]
    requires |buf'| == |buf| + |bytes| + 1 && buf'[..|buf|] == buf && buf'[|buf|..|buf| + |bytes|] == bytes
    requires buf'[|buf| + |bytes|] == 0
    ensures TokensAre(toks', buf', names + [bytes], k + 1)
  {
    hide IndexOf;
    TokensStay(toks, toks', buf, buf', names, names + [bytes], k);
  }

  /** The array index of a name of which it is known whether all its characters are digits. */
  method ToIndex(name: seq<byte>, allDigits: bool) returns (index: nat)
    requires allDigits <==> AllDigits(name)
    ensures index == IndexOf(name)
  {
    var isNumber := allDigits && |name| > 0 && !(|name| > 1 && name[0] == ZERO);
    var n := 0;
    if isNumber {
      for j := 0 to |name|
        invariant n < SIZE_LIMIT && IndexOf(name) == IndexFrom(name, j, n)
      {
        var m := (n * 10 + (name[j] - ZERO)) % SIZE_LIMIT;
        if m < n {
          isNumber := false;
          break;
        }
        n := m;
      }
    }
    index := if isNumber then n else INVALID_INDEX;
  }
}
