/**
  The five scanline filters of PNG (sections 9.2 and 9.4 of the PNG Specification,
  Second Edition), and the filtering and in-place unfiltering of one line.
 */
module ScanlineFilter {
  import opened Sequences
  import opened Bits

  const INVALID_FILTER: nat := 36

  function Abs(n: int): nat {
    if n < 0 then -n else n
  }

  /** The Paeth predictor as computed: the candidate whose distance is smallest. */
  function Paeth(a: byte, b: byte, c: byte): byte {
    var pa, pb, pc := Abs(b - c), Abs(a - c), Abs(a + b - c - c);
    var (best, p) := if pb < pa then (b, pb) else (a, pa);
    if pc < p then c else best
  }

  /** The predictor as the standard defines it. */
  lemma PaethIsStandard(a: byte, b: byte, c: byte)
    ensures var p := a + b - c;
            Paeth(a, b, c) ==
              if Abs(p - a) <= Abs(p - b) && Abs(p - a) <= Abs(p - c) then a
              else if Abs(p - b) <= Abs(p - c) then b
              else c
  {
  }

  lemma PaethOfOne(x: byte)
    ensures Paeth(x, 0, 0) == x && Paeth(0, x, 0) == x
  {
  }

  function Average(a: int, b: int): (r: int)
    ensures 0 <= a <= 255 && 0 <= b <= 255 ==> 0 <= r <= 255
  {
    (a + b) / 2
  }

  /** What a filter type predicts from the bytes to the left, above, and above left. */
  function Predictor(filterType: nat, a: byte, b: byte, c: byte): byte {
    if filterType == 1 then a
    else if filterType == 2 then b
    else if filterType == 3 then Average(a, b)
    else if filterType == 4 then Paeth(a, b, c)
    else 0
  }

  function Plus(a: int, b: int): byte {
    (a + b) % 256
  }

  function Minus(a: int, b: int): byte {
    (a - b) % 256
  }

  /** What the bytes of a line and of the one above, if any, let one expect at position `i`. */
  function Expected(line: seq<byte>, above: seq<byte>, bytewidth: nat, filterType: nat, i: nat): byte
    requires bytewidth > 0 && i <= |line| && (above == [] || i < |above|)
  {
    var a := if i < bytewidth then 0 else line[i - bytewidth];
    var b := if above == [] then 0 else above[i];
    var c := if i < bytewidth || above == [] then 0 else above[i - bytewidth];
    Predictor(filterType, a, b, c)
  }

  ghost predicate LineOk(line: seq<byte>, above: seq<byte>, bytewidth: nat) {
    0 < bytewidth <= |line| && (above == [] || |above| == |line|)
  }

  function Filtered(line: seq<byte>, above: seq<byte>, bytewidth: nat, filterType: nat): (f: seq<byte>)
    requires LineOk(line, above, bytewidth)
    ensures |f| == |line|
  {
    seq<byte>(|line|, i requires 0 <= i < |line| => Minus(line[i], Expected(line, above, bytewidth, filterType, i)))
  }

  /** The first `n` bytes of the line a filtered one stands for. */
  function Unfiltered(f: seq<byte>, above: seq<byte>, bytewidth: nat, filterType: nat, n: nat): (line: seq<byte>)
    requires LineOk(f, above, bytewidth) && n <= |f|
    ensures |line| == n
  {
    if n == 0 then []
    else
      var front := Unfiltered(f, above, bytewidth, filterType, n - 1);
      front + [Plus(f[n - 1], Expected(front, above, bytewidth, filterType, n - 1))]
  }

  lemma PlusMinus(a: byte, b: byte)
    ensures Plus(Minus(a, b), b) == a && Minus(Plus(a, b), b) == a
  {
  }

  /** Unfiltering undoes filtering, for every type, with or without a line above. */
  lemma {:induction false} UnfilterFilter(line: seq<byte>, above: seq<byte>, bytewidth: nat, filterType: nat, n: nat)
    requires LineOk(line, above, bytewidth) && n <= |line|
    ensures Unfiltered(Filtered(line, above, bytewidth, filterType), above, bytewidth, filterType, n) == line[..n]
  {
    hide Predictor, Plus, Minus;
    if n > 0 {
      UnfilterFilter(line, above, bytewidth, filterType, n - 1);
      var e := Expected(line, above, bytewidth, filterType, n - 1);
      assert Expected(line[..n - 1], above, bytewidth, filterType, n - 1) == e;
      PlusMinus(line[n - 1], e);
    }
  }

  /** Every byte sequence is the filtered form of the line it unfilters to. */
  lemma {:induction false} FilterUnfilter(f: seq<byte>, above: seq<byte>, bytewidth: nat, filterType: nat)
    requires LineOk(f, above, bytewidth)
    ensures Filtered(Unfiltered(f, above, bytewidth, filterType, |f|), above, bytewidth, filterType) == f
  {
    hide Predictor, Plus, Minus;
    var line := Unfiltered(f, above, bytewidth, filterType, |f|);
    forall i: nat | i < |f|
      ensures Minus(line[i], Expected(line, above, bytewidth, filterType, i)) == f[i]
    {
      UnfilteredPrefix(f, above, bytewidth, filterType, i, |f|);
      UnfilteredPrefix(f, above, bytewidth, filterType, i + 1, |f|);
      var e := Expected(line, above, bytewidth, filterType, i);
      assert Expected(line[..i], above, bytewidth, filterType, i) == e;
      PlusMinus(f[i], e);
    }
  }

  lemma {:induction false} UnfilteredPrefix(f: seq<byte>, above: seq<byte>, bytewidth: nat, filterType: nat, m: nat, n: nat)
    requires LineOk(f, above, bytewidth) && m <= n <= |f|
    ensures Unfiltered(f, above, bytewidth, filterType, n)[..m] == Unfiltered(f, above, bytewidth, filterType, m)
    decreases n
  {
    if m < n {
      UnfilteredPrefix(f, above, bytewidth, filterType, m, n - 1);
    }
  }

  // ----- the filters of the standard

  function Distance(m: int, n: int): nat {
    if m < n then n - m else m - n
  }

  /** The prediction of a filter type of the standard, from the bytes to the left, above, and above left. */
  ghost predicate Predicts(filterType: nat, p: int, a: byte, b: byte, c: byte) {
    match filterType
    case 0 => p == 0
    case 1 => p == a
    case 2 => p == b
    case 3 => 2 * p <= a + b <= 2 * p + 1
    case 4 =>
      var e := a + b - c;
      var da, db, dc := Distance(e, a), Distance(e, b), Distance(e, c);
      (p == a && da <= db && da <= dc) || (p == b && db < da && db <= dc) || (p == c && dc < da && dc < db)
    case _ => false
  }

  /** Filtered byte and byte of the image differ by the prediction, modulo 256. */
  ghost predicate StandardFilter(filterType: nat, f: byte, x: byte, a: byte, b: byte, c: byte) {
    exists p: int :: Predicts(filterType, p, a, b, c) && (f + p - x) % 256 == 0
  }

  /** Byte `i` of a filtered line, given the line and the one above, if any. */
  ghost predicate StandardAt(f: seq<byte>, line: seq<byte>, above: seq<byte>, bytewidth: nat, filterType: nat, i: nat)
    requires i < |line| == |f| && (above == [] || |above| == |line|) && bytewidth > 0
  {
    StandardFilter(filterType, f[i], line[i],
                   if i < bytewidth then 0 else line[i - bytewidth],
                   if above == [] then 0 else above[i],
                   if i < bytewidth || above == [] then 0 else above[i - bytewidth])
  }

  ghost predicate AsStandard(f: seq<byte>, line: seq<byte>, above: seq<byte>, bytewidth: nat, filterType: nat) {
    && |f| == |line| && (above == [] || |above| == |line|) && bytewidth > 0
    && forall i :: 0 <= i < |line| ==> StandardAt(f, line, above, bytewidth, filterType, i)
  }

  lemma PredictorIsStandard(filterType: nat, a: byte, b: byte, c: byte)
    requires filterType <= 4
    ensures Predicts(filterType, Predictor(filterType, a, b, c), a, b, c)
  {
    PaethIsStandard(a, b, c);
  }

  lemma DifferByPrediction(x: byte, p: byte)
    ensures (Minus(x, p) + p - x) % 256 == 0 && (x + p - Plus(x, p)) % 256 == 0
  {
  }

  lemma ByteIsStandard(line: seq<byte>, above: seq<byte>, bytewidth: nat, filterType: nat, i: nat)
    requires LineOk(line, above, bytewidth) && filterType <= 4 && i < |line|
    ensures StandardAt(Filtered(line, above, bytewidth, filterType), line, above, bytewidth, filterType, i)
  {
    hide Predicts, Predictor, Minus, Plus;
    var p := Expected(line, above, bytewidth, filterType, i);
    PredictorIsStandard(filterType, if i < bytewidth then 0 else line[i - bytewidth], if above == [] then 0 else above[i],
                        if i < bytewidth || above == [] then 0 else above[i - bytewidth]);
    DifferByPrediction(line[i], p);
  }

  /** Filtering is that of the standard, byte for byte. */
  lemma FilteredIsStandard(line: seq<byte>, above: seq<byte>, bytewidth: nat, filterType: nat)
    requires LineOk(line, above, bytewidth) && filterType <= 4
    ensures AsStandard(Filtered(line, above, bytewidth, filterType), line, above, bytewidth, filterType)
  {
    hide StandardAt, Filtered;
    forall i | 0 <= i < |line|
      ensures StandardAt(Filtered(line, above, bytewidth, filterType), line, above, bytewidth, filterType, i)
    {
      ByteIsStandard(line, above, bytewidth, filterType, i);
    }
  }

  /** And so is unfiltering. */
  lemma UnfilteredIsStandard(f: seq<byte>, above: seq<byte>, bytewidth: nat, filterType: nat)
    requires LineOk(f, above, bytewidth) && filterType <= 4
    ensures AsStandard(f, Unfiltered(f, above, bytewidth, filterType, |f|), above, bytewidth, filterType)
  {
    hide AsStandard, Filtered, Unfiltered;
    FilterUnfilter(f, above, bytewidth, filterType);
    FilteredIsStandard(Unfiltered(f, above, bytewidth, filterType, |f|), above, bytewidth, filterType);
  }

  // ----- lines inside larger buffers

  /** No line above. */
  const NULL: int := -1

  /** The line at an offset of a buffer, or nothing. */
  function LineAt(buffer: seq<byte>, offset: int, length: nat): (line: seq<byte>)
    requires offset == NULL || 0 <= offset <= offset + length <= |buffer|
    ensures line == [] || |line| == length
  {
    if offset == NULL then [] else buffer[offset..offset + length]
  }

  /** The first `i` bytes of `f` have been written at `o`, and nothing else. */
  ghost predicate Partly(now: seq<byte>, before: seq<byte>, o: nat, f: seq<byte>, i: nat) {
    && i <= |f| && o + |f| <= |before| == |now|
    && now[..o] == before[..o] && now[o..o + i] == f[..i] && now[o + i..] == before[o + i..]
  }

  lemma WriteNext(now: seq<byte>, before: seq<byte>, o: nat, f: seq<byte>, i: nat)
    requires Partly(now, before, o, f, i) && i < |f|
    ensures o + i < |now| && Partly(now[o + i := f[i]], before, o, f, i + 1)
  {
    var next := now[o + i := f[i]];
    assert next[o..o + (i + 1)] == now[o..o + i] + [f[i]];
    assert next[o + (i + 1)..] == before[o + (i + 1)..] by {
      assert forall k :: o + i + 1 <= k < |before| ==> now[k] == now[o + i..][k - o - i];
    }
  }

  lemma NothingWritten(before: seq<byte>, o: nat, f: seq<byte>)
    requires o + |f| <= |before|
    ensures Partly(before, before, o, f, 0)
  {
  }

  lemma AllWritten(now: seq<byte>, before: seq<byte>, o: nat, f: seq<byte>)
    requires Partly(now, before, o, f, |f|)
    ensures now == Overwritten(before, o, f)
  {
    assert now == now[..o] + now[o..o + |f|] + now[o + |f|..];
  }

  // ----- filtering a line

  ghost predicate FilterArguments(out: array<byte>, o: nat, scanline: array<byte>, s: nat, prevline: int, length: nat,
                                  bytewidth: nat) {
    && out != scanline && o + length <= out.Length && s + length <= scanline.Length && 0 < bytewidth <= length
    && (prevline == NULL || 0 <= prevline <= prevline + length <= scanline.Length)
  }

  /** The filtered form of a line in a buffer. */
  function FilteredLine(buffer: seq<byte>, s: nat, prevline: int, length: nat, bytewidth: nat, filterType: nat): (f: seq<byte>)
    requires s + length <= |buffer| && 0 < bytewidth <= length
    requires prevline == NULL || 0 <= prevline <= prevline + length <= |buffer|
    ensures |f| == length
  {
    Filtered(buffer[s..s + length], LineAt(buffer, prevline, length), bytewidth, filterType)
  }

  /** One byte of it, from the bytes of the buffer around it. */
  lemma FilteredAt(buffer: seq<byte>, s: nat, prevline: int, length: nat, bytewidth: nat, filterType: nat, i: nat)
    requires s + length <= |buffer| && 0 < bytewidth <= length && i < length
    requires prevline == NULL || 0 <= prevline <= prevline + length <= |buffer|
    ensures var a := if i < bytewidth then 0 else buffer[s + i - bytewidth];
            var b := if prevline == NULL then 0 else buffer[prevline + i];
            var c := if i < bytewidth || prevline == NULL then 0 else buffer[prevline + i - bytewidth];
            FilteredLine(buffer, s, prevline, length, bytewidth, filterType)[i]
            == Minus(buffer[s + i], Predictor(filterType, a, b, c))
  {
    hide Predictor, Minus;
  }

  lemma MinusZero(a: byte)
    ensures Minus(a, 0) == a
  {
  }

  /** No prediction. */
  method FilterNone(out: array<byte>, o: nat, scanline: array<byte>, s: nat, prevline: int, length: nat, bytewidth: nat)
    requires FilterArguments(out, o, scanline, s, prevline, length, bytewidth)
    modifies out
    ensures out[..] == Overwritten(old(out[..]), o, FilteredLine(scanline[..], s, prevline, length, bytewidth, 0))
  {
    hide Partly, Overwritten, Paeth, Filtered, Expected, Minus;
    ghost var filterType, before := 0, out[..];
    ghost var f := FilteredLine(scanline[..], s, prevline, length, bytewidth, filterType);
    NothingWritten(before, o, f);
    var i := 0;
    while i != length
      invariant i <= length && Partly(out[..], before, o, f, i)
    {
      FilteredAt(scanline[..], s, prevline, length, bytewidth, filterType, i);
      WriteNext(out[..], before, o, f, i);
      MinusZero(scanline[s + i]);
      out[o + i] := scanline[s + i];
      i := i + 1;
    }
    AllWritten(out[..], before, o, f);
  }

  /** Prediction from the left. */
  method FilterSub(out: array<byte>, o: nat, scanline: array<byte>, s: nat, prevline: int, length: nat, bytewidth: nat)
    requires FilterArguments(out, o, scanline, s, prevline, length, bytewidth)
    modifies out
    ensures out[..] == Overwritten(old(out[..]), o, FilteredLine(scanline[..], s, prevline, length, bytewidth, 1))
  {
    hide Partly, Overwritten, Paeth, Filtered, Expected, Minus;
    ghost var filterType, before := 1, out[..];
    ghost var f := FilteredLine(scanline[..], s, prevline, length, bytewidth, filterType);
    NothingWritten(before, o, f);
    var i := 0;
    while i != bytewidth
      invariant i <= bytewidth && Partly(out[..], before, o, f, i)
    {
      FilteredAt(scanline[..], s, prevline, length, bytewidth, filterType, i);
      WriteNext(out[..], before, o, f, i);
      MinusZero(scanline[s + i]);
      out[o + i] := scanline[s + i];
      i := i + 1;
    }
    while i < length
      invariant bytewidth <= i <= length && Partly(out[..], before, o, f, i)
    {
      FilteredAt(scanline[..], s, prevline, length, bytewidth, filterType, i);
      WriteNext(out[..], before, o, f, i);
      out[o + i] := Minus(scanline[s + i], scanline[s + i - bytewidth]);
      i := i + 1;
    }
    AllWritten(out[..], before, o, f);
  }

  /** Prediction from above. */
  method FilterUp(out: array<byte>, o: nat, scanline: array<byte>, s: nat, prevline: int, length: nat, bytewidth: nat)
    requires FilterArguments(out, o, scanline, s, prevline, length, bytewidth)
    modifies out
    ensures out[..] == Overwritten(old(out[..]), o, FilteredLine(scanline[..], s, prevline, length, bytewidth, 2))
  {
    hide Partly, Overwritten, Paeth, Filtered, Expected, Minus;
    ghost var filterType, before := 2, out[..];
    ghost var f := FilteredLine(scanline[..], s, prevline, length, bytewidth, filterType);
    NothingWritten(before, o, f);
    var i := 0;
    if prevline != NULL {
      while i != length
        invariant i <= length && Partly(out[..], before, o, f, i)
      {
        FilteredAt(scanline[..], s, prevline, length, bytewidth, filterType, i);
        WriteNext(out[..], before, o, f, i);
        out[o + i] := Minus(scanline[s + i], scanline[prevline + i]);
        i := i + 1;
      }
    } else {
      while i != length
        invariant i <= length && Partly(out[..], before, o, f, i)
      {
        FilteredAt(scanline[..], s, prevline, length, bytewidth, filterType, i);
        WriteNext(out[..], before, o, f, i);
        MinusZero(scanline[s + i]);
        out[o + i] := scanline[s + i];
        i := i + 1;
      }
    }
    AllWritten(out[..], before, o, f);
  }

  lemma AverageBelow(buffer: seq<byte>, s: nat, prevline: nat, length: nat, bytewidth: nat, i: nat)
    requires s + length <= |buffer| && 0 < bytewidth <= length && i < length && prevline + length <= |buffer|
    ensures FilteredLine(buffer, s, prevline, length, bytewidth, 3)[i]
         == Minus(buffer[s + i], if i < bytewidth then buffer[prevline + i] / 2
                                 else Average(buffer[s + i - bytewidth], buffer[prevline + i]))
  {
    hide FilteredLine, Minus;
    FilteredAt(buffer, s, prevline, length, bytewidth, 3, i);
  }

  lemma PaethBelow(buffer: seq<byte>, s: nat, prevline: nat, length: nat, bytewidth: nat, i: nat)
    requires s + length <= |buffer| && 0 < bytewidth <= length && i < length && prevline + length <= |buffer|
    ensures FilteredLine(buffer, s, prevline, length, bytewidth, 4)[i]
         == Minus(buffer[s + i], if i < bytewidth then buffer[prevline + i]
                                 else Paeth(buffer[s + i - bytewidth], buffer[prevline + i], buffer[prevline + i - bytewidth]))
  {
    hide FilteredLine, Minus, Paeth;
    FilteredAt(buffer, s, prevline, length, bytewidth, 4, i);
    PaethOfOne(buffer[prevline + i]);
  }

  method FilterAverageBelow(out: array<byte>, o: nat, scanline: array<byte>, s: nat, prevline: int, length: nat, bytewidth: nat)
    requires FilterArguments(out, o, scanline, s, prevline, length, bytewidth)
    requires prevline != NULL
    modifies out
    ensures out[..] == Overwritten(old(out[..]), o, FilteredLine(scanline[..], s, prevline, length, bytewidth, 3))
  {
    hide Partly, Overwritten, Paeth, FilteredLine, Minus, Average;
    ghost var filterType, before := 3, out[..];
    ghost var f := FilteredLine(scanline[..], s, prevline, length, bytewidth, filterType);
    NothingWritten(before, o, f);
    var i := 0;
    while i != bytewidth
      invariant i <= bytewidth && Partly(out[..], before, o, f, i)
    {
      AverageBelow(scanline[..], s, prevline, length, bytewidth, i);
      WriteNext(out[..], before, o, f, i);
      out[o + i] := Minus(scanline[s + i], scanline[prevline + i] / 2);
      i := i + 1;
    }
    while i < length
      invariant bytewidth <= i <= length && Partly(out[..], before, o, f, i)
    {
      AverageBelow(scanline[..], s, prevline, length, bytewidth, i);
      WriteNext(out[..], before, o, f, i);
      out[o + i] := Minus(scanline[s + i], Average(scanline[s + i - bytewidth], scanline[prevline + i]));
      i := i + 1;
    }
    AllWritten(out[..], before, o, f);
  }

  method FilterAverageTop(out: array<byte>, o: nat, scanline: array<byte>, s: nat, prevline: int, length: nat, bytewidth: nat)
    requires FilterArguments(out, o, scanline, s, prevline, length, bytewidth)
    requires prevline == NULL
    modifies out
    ensures out[..] == Overwritten(old(out[..]), o, FilteredLine(scanline[..], s, prevline, length, bytewidth, 3))
  {
    hide Partly, Overwritten, Paeth, Filtered, Expected, Minus;
    ghost var filterType, before := 3, out[..];
    ghost var f := FilteredLine(scanline[..], s, prevline, length, bytewidth, filterType);
    NothingWritten(before, o, f);
    var i := 0;
    while i != bytewidth
      invariant i <= bytewidth && Partly(out[..], before, o, f, i)
    {
      FilteredAt(scanline[..], s, prevline, length, bytewidth, filterType, i);
      WriteNext(out[..], before, o, f, i);
      MinusZero(scanline[s + i]);
      out[o + i] := scanline[s + i];
      i := i + 1;
    }
    while i < length
      invariant bytewidth <= i <= length && Partly(out[..], before, o, f, i)
    {
      FilteredAt(scanline[..], s, prevline, length, bytewidth, filterType, i);
      WriteNext(out[..], before, o, f, i);
      out[o + i] := Minus(scanline[s + i], scanline[s + i - bytewidth] / 2);
      i := i + 1;
    }
    AllWritten(out[..], before, o, f);
  }

  /** Prediction by the average. */
  method FilterAverage(out: array<byte>, o: nat, scanline: array<byte>, s: nat, prevline: int, length: nat, bytewidth: nat)
    requires FilterArguments(out, o, scanline, s, prevline, length, bytewidth)
    modifies out
    ensures out[..] == Overwritten(old(out[..]), o, FilteredLine(scanline[..], s, prevline, length, bytewidth, 3))
  {
    if prevline != NULL {
      FilterAverageBelow(out, o, scanline, s, prevline, length, bytewidth);
    } else {
      FilterAverageTop(out, o, scanline, s, prevline, length, bytewidth);
    }
  }

  method FilterPaethBelow(out: array<byte>, o: nat, scanline: array<byte>, s: nat, prevline: int, length: nat, bytewidth: nat)
    requires FilterArguments(out, o, scanline, s, prevline, length, bytewidth)
    requires prevline != NULL
    modifies out
    ensures out[..] == Overwritten(old(out[..]), o, FilteredLine(scanline[..], s, prevline, length, bytewidth, 4))
  {
    hide Partly, Overwritten, Paeth, FilteredLine, Minus, Average;
    ghost var filterType, before := 4, out[..];
    ghost var f := FilteredLine(scanline[..], s, prevline, length, bytewidth, filterType);
    NothingWritten(before, o, f);
    var i := 0;
    while i != bytewidth
      invariant i <= bytewidth && Partly(out[..], before, o, f, i)
    {
      PaethBelow(scanline[..], s, prevline, length, bytewidth, i);
      WriteNext(out[..], before, o, f, i);
      out[o + i] := Minus(scanline[s + i], scanline[prevline + i]);
      i := i + 1;
    }
    while i < length
      invariant bytewidth <= i <= length && Partly(out[..], before, o, f, i)
    {
      PaethBelow(scanline[..], s, prevline, length, bytewidth, i);
      WriteNext(out[..], before, o, f, i);
      out[o + i] := Minus(scanline[s + i], Paeth(scanline[s + i - bytewidth], scanline[prevline + i], scanline[prevline + i - bytewidth]));
      i := i + 1;
    }
    AllWritten(out[..], before, o, f);
  }

  method FilterPaethTop(out: array<byte>, o: nat, scanline: array<byte>, s: nat, prevline: int, length: nat, bytewidth: nat)
    requires FilterArguments(out, o, scanline, s, prevline, length, bytewidth)
    requires prevline == NULL
    modifies out
    ensures out[..] == Overwritten(old(out[..]), o, FilteredLine(scanline[..], s, prevline, length, bytewidth, 4))
  {
    hide Partly, Overwritten, Paeth, Filtered, Expected, Minus;
    ghost var filterType, before := 4, out[..];
    ghost var f := FilteredLine(scanline[..], s, prevline, length, bytewidth, filterType);
    NothingWritten(before, o, f);
    var i := 0;
    while i != bytewidth
      invariant i <= bytewidth && Partly(out[..], before, o, f, i)
    {
      FilteredAt(scanline[..], s, prevline, length, bytewidth, filterType, i);
      WriteNext(out[..], before, o, f, i);
      PaethOfOne(0);
      MinusZero(scanline[s + i]);
      out[o + i] := scanline[s + i];
      i := i + 1;
    }
    while i < length
      invariant bytewidth <= i <= length && Partly(out[..], before, o, f, i)
    {
      FilteredAt(scanline[..], s, prevline, length, bytewidth, filterType, i);
      WriteNext(out[..], before, o, f, i);
      PaethOfOne(scanline[s + i - bytewidth]);
      out[o + i] := Minus(scanline[s + i], scanline[s + i - bytewidth]);
      i := i + 1;
    }
    AllWritten(out[..], before, o, f);
  }

  /** Prediction by the Paeth predictor. */
  method FilterPaeth(out: array<byte>, o: nat, scanline: array<byte>, s: nat, prevline: int, length: nat, bytewidth: nat)
    requires FilterArguments(out, o, scanline, s, prevline, length, bytewidth)
    modifies out
    ensures out[..] == Overwritten(old(out[..]), o, FilteredLine(scanline[..], s, prevline, length, bytewidth, 4))
  {
    if prevline != NULL {
      FilterPaethBelow(out, o, scanline, s, prevline, length, bytewidth);
    } else {
      FilterPaethTop(out, o, scanline, s, prevline, length, bytewidth);
    }
  }

  lemma LineIsStandard(before: seq<byte>, o: nat, buffer: seq<byte>, s: nat, prevline: int, length: nat, bytewidth: nat,
                       filterType: nat)
    requires o + length <= |before| && s + length <= |buffer| && 0 < bytewidth <= length && filterType <= 4
    requires prevline == NULL || 0 <= prevline <= prevline + length <= |buffer|
    ensures AsStandard(Overwritten(before, o, FilteredLine(buffer, s, prevline, length, bytewidth, filterType))[o..o + length],
                       buffer[s..s + length], LineAt(buffer, prevline, length), bytewidth, filterType)
  {
    hide AsStandard, Filtered;
    FilteredIsStandard(buffer[s..s + length], LineAt(buffer, prevline, length), bytewidth, filterType);
  }

  /** Filters one line into another buffer; for an invalid type, nothing is written. */
  method FilterScanline(out: array<byte>, o: nat, scanline: array<byte>, s: nat, prevline: int, length: nat,
                        bytewidth: nat, filterType: nat)
    requires FilterArguments(out, o, scanline, s, prevline, length, bytewidth)
    modifies out
    ensures out[..] == if filterType > 4 then old(out[..])
                       else Overwritten(old(out[..]), o,
                                        FilteredLine(scanline[..], s, prevline, length, bytewidth, filterType))
    ensures filterType <= 4 ==>
              AsStandard(out[o..o + length], scanline[s..s + length], LineAt(scanline[..], prevline, length), bytewidth, filterType)
  {
    hide FilteredLine, Overwritten, AsStandard;
    if filterType <= 4 {
      LineIsStandard(old(out[..]), o, scanline[..], s, prevline, length, bytewidth, filterType);
    }
    if filterType == 0 {
      FilterNone(out, o, scanline, s, prevline, length, bytewidth);
    } else if filterType == 1 {
      FilterSub(out, o, scanline, s, prevline, length, bytewidth);
    } else if filterType == 2 {
      FilterUp(out, o, scanline, s, prevline, length, bytewidth);
    } else if filterType == 3 {
      FilterAverage(out, o, scanline, s, prevline, length, bytewidth);
    } else if filterType == 4 {
      FilterPaeth(out, o, scanline, s, prevline, length, bytewidth);
    }
  }

  // ----- unfiltering a line

  /** The result may be written over its input, but not behind it, and not over the line above. */
  ghost predicate UnfilterArguments(out: array<byte>, recon: nat, input: array<byte>, scan: nat, precon: int, length: nat,
                                    bytewidth: nat) {
    && recon + length <= out.Length && scan + length <= input.Length && 0 < bytewidth <= length
    && (out == input ==> recon <= scan)
    && (precon == NULL || (0 <= precon <= precon + length <= out.Length
                           && (precon + length <= recon || recon + length <= precon)))
  }

  /** The line that the filtered one in a buffer stands for. */
  function UnfilteredLine(out: seq<byte>, input: seq<byte>, scan: nat, precon: int, length: nat, bytewidth: nat,
                          filterType: nat): (r: seq<byte>)
    requires scan + length <= |input| && 0 < bytewidth <= length
    requires precon == NULL || 0 <= precon <= precon + length <= |out|
    ensures |r| == length
  {
    Unfiltered(input[scan..scan + length], LineAt(out, precon, length), bytewidth, filterType, length)
  }

  /** The first `i` bytes of the line have been restored; `before` and `input0` are what the buffers held at first. */
  ghost predicate Progress(out: array<byte>, recon: nat, input: array<byte>, scan: nat, precon: int, length: nat, bytewidth: nat,
             filterType: nat, before: seq<byte>, input0: seq<byte>, i: nat)
    reads out, input
  {
    && UnfilterArguments(out, recon, input, scan, precon, length, bytewidth)
    && |before| == out.Length && |input0| == input.Length && i <= length
    && Partly(out[..], before, recon, UnfilteredLine(before, input0, scan, precon, length, bytewidth, filterType), i)
    && if out == input then before == input0 else input[..] == input0
  }

  lemma Nothing(out: array<byte>, recon: nat, input: array<byte>, scan: nat, precon: int, length: nat, bytewidth: nat,
             filterType: nat)
    requires UnfilterArguments(out, recon, input, scan, precon, length, bytewidth)
    ensures Progress(out, recon, input, scan, precon, length, bytewidth, filterType, out[..], input[..], 0)
  {
    hide Unfiltered;
    NothingWritten(out[..], recon, UnfilteredLine(out[..], input[..], scan, precon, length, bytewidth, filterType));
  }

  lemma Everything(out: array<byte>, recon: nat, input: array<byte>, scan: nat, precon: int, length: nat, bytewidth: nat,
             filterType: nat, before: seq<byte>, input0: seq<byte>)
    requires Progress(out, recon, input, scan, precon, length, bytewidth, filterType, before, input0, length)
    ensures scan + length <= |input0| && 0 < bytewidth <= length && recon + length <= |before|
    ensures precon == NULL || 0 <= precon <= precon + length <= |before|
    ensures out[..] == Overwritten(before, recon,
                                   UnfilteredLine(before, input0, scan, precon, length, bytewidth, filterType))
  {
    hide Unfiltered;
    AllWritten(out[..], before, recon, UnfilteredLine(before, input0, scan, precon, length, bytewidth, filterType));
  }

  /** What a partly written buffer holds, byte by byte. */
  lemma UntouchedBytes(now: seq<byte>, before: seq<byte>, o: nat, f: seq<byte>, i: nat)
    requires Partly(now, before, o, f, i)
    ensures forall j :: 0 <= j < o ==> now[j] == before[j]
    ensures forall j :: o <= j < o + i ==> now[j] == f[j - o]
    ensures forall j :: o + i <= j < |now| ==> now[j] == before[j]
  {
    forall j | 0 <= j < o
      ensures now[j] == before[j]
    {
      assert now[..o][j] == before[..o][j];
    }
    forall j | o <= j < o + i
      ensures now[j] == f[j - o]
    {
      assert now[o..o + i][j - o] == f[..i][j - o];
    }
    forall j | o + i <= j < |now|
      ensures now[j] == before[j]
    {
      assert now[o + i..][j - o - i] == before[o + i..][j - o - i];
    }
  }

  /** A byte of the restored line in terms of the line itself. */
  lemma LineByte(before: seq<byte>, input0: seq<byte>, scan: nat, precon: int, length: nat, bytewidth: nat,
                 filterType: nat, k: nat)
    requires scan + length <= |input0| && 0 < bytewidth <= length && k < length
    requires precon == NULL || 0 <= precon <= precon + length <= |before|
    ensures var r := UnfilteredLine(before, input0, scan, precon, length, bytewidth, filterType);
            var a := if k < bytewidth then 0 else r[k - bytewidth];
            var b := if precon == NULL then 0 else before[precon + k];
            var c := if k < bytewidth || precon == NULL then 0 else before[precon + k - bytewidth];
            r[k] == Plus(input0[scan + k], Predictor(filterType, a, b, c))
  {
    hide Predictor, Plus;
    var f, above := input0[scan..scan + length], LineAt(before, precon, length);
    var r := Unfiltered(f, above, bytewidth, filterType, length);
    UnfilteredPrefix(f, above, bytewidth, filterType, k, length);
    UnfilteredPrefix(f, above, bytewidth, filterType, k + 1, length);
    assert r[..k + 1][k] == r[k];
    assert r[k] == Plus(f[k], Expected(r[..k], above, bytewidth, filterType, k));
  }

  /** A byte of the line, from what the buffers hold when the first `i` bytes have been restored. */
  lemma Next(out: array<byte>, recon: nat, input: array<byte>, scan: nat, precon: int, length: nat, bytewidth: nat,
             filterType: nat, before: seq<byte>, input0: seq<byte>, i: nat, k: nat)
    requires Progress(out, recon, input, scan, precon, length, bytewidth, filterType, before, input0, i)
    requires i <= k < length && k < i + bytewidth
    ensures UnfilterArguments(out, recon, input, scan, precon, length, bytewidth)
    ensures |before| == out.Length && |input0| == input.Length
    ensures var a := if k < bytewidth then 0 else out[recon + k - bytewidth];
            var b := if precon == NULL then 0 else out[precon + k];
            var c := if k < bytewidth || precon == NULL then 0 else out[precon + k - bytewidth];
            UnfilteredLine(before, input0, scan, precon, length, bytewidth, filterType)[k]
            == Plus(input[scan + k], Predictor(filterType, a, b, c))
  {
    hide Predictor, Plus, UnfilteredLine, Partly;
    var r := UnfilteredLine(before, input0, scan, precon, length, bytewidth, filterType);
    UntouchedBytes(out[..], before, recon, r, i);
    LineByte(before, input0, scan, precon, length, bytewidth, filterType, k);
  }

  /** Stores the next byte of the line. */
  method Put(out: array<byte>, recon: nat, input: array<byte>, scan: nat, precon: int, length: nat,
             bytewidth: nat, ghost filterType: nat, ghost before: seq<byte>, ghost input0: seq<byte>, i: nat, value: byte)
    requires Progress(out, recon, input, scan, precon, length, bytewidth, filterType, before, input0, i) && i < length
    requires scan + length <= |input0| && 0 < bytewidth <= length
    requires precon == NULL || 0 <= precon <= precon + length <= |before|
    requires value == UnfilteredLine(before, input0, scan, precon, length, bytewidth, filterType)[i]
    modifies out
    ensures Progress(out, recon, input, scan, precon, length, bytewidth, filterType, before, input0, i + 1)
  {
    hide Partly, UnfilteredLine;
    WriteNext(out[..], before, recon, UnfilteredLine(before, input0, scan, precon, length, bytewidth, filterType), i);
    out[recon + i] := value;
  }

  lemma PlusZero(a: byte)
    ensures Plus(a, 0) == a
  {
  }

  /** No prediction. */
  method UnfilterNone(out: array<byte>, recon: nat, input: array<byte>, scan: nat, precon: int, length: nat, bytewidth: nat)
    requires UnfilterArguments(out, recon, input, scan, precon, length, bytewidth)
    modifies out
    ensures out[..] == Overwritten(old(out[..]), recon,
                                   UnfilteredLine(old(out[..]), old(input[..]), scan, precon, length, bytewidth, 0))
  {
    hide Paeth, UnfilteredLine, Plus, Progress, Overwritten;
    ghost var filterType, before, input0 := 0, out[..], input[..];
    Nothing(out, recon, input, scan, precon, length, bytewidth, filterType);
    var i := 0;
    while i != length
      invariant i <= length && Progress(out, recon, input, scan, precon, length, bytewidth, filterType, before, input0, i)
    {
      Next(out, recon, input, scan, precon, length, bytewidth, filterType, before, input0, i, i);
      PlusZero(input[scan + i]);
      Put(out, recon, input, scan, precon, length, bytewidth, filterType, before, input0, i, input[scan + i]);
      i := i + 1;
    }
    Everything(out, recon, input, scan, precon, length, bytewidth, filterType, before, input0);
  }

  /** Prediction from the left. */
  method UnfilterSub(out: array<byte>, recon: nat, input: array<byte>, scan: nat, precon: int, length: nat, bytewidth: nat)
    requires UnfilterArguments(out, recon, input, scan, precon, length, bytewidth)
    modifies out
    ensures out[..] == Overwritten(old(out[..]), recon,
                                   UnfilteredLine(old(out[..]), old(input[..]), scan, precon, length, bytewidth, 1))
  {
    hide Paeth, UnfilteredLine, Plus, Progress, Overwritten;
    ghost var filterType, before, input0 := 1, out[..], input[..];
    Nothing(out, recon, input, scan, precon, length, bytewidth, filterType);
    var i := 0;
    while i != bytewidth
      invariant i <= bytewidth && Progress(out, recon, input, scan, precon, length, bytewidth, filterType, before, input0, i)
    {
      Next(out, recon, input, scan, precon, length, bytewidth, filterType, before, input0, i, i);
      PlusZero(input[scan + i]);
      Put(out, recon, input, scan, precon, length, bytewidth, filterType, before, input0, i, input[scan + i]);
      i := i + 1;
    }
    while i < length
      invariant bytewidth <= i <= length && Progress(out, recon, input, scan, precon, length, bytewidth, filterType, before, input0, i)
    {
      Next(out, recon, input, scan, precon, length, bytewidth, filterType, before, input0, i, i);
      Put(out, recon, input, scan, precon, length, bytewidth, filterType, before, input0, i, Plus(input[scan + i], out[recon + i - bytewidth]));
      i := i + 1;
    }
    Everything(out, recon, input, scan, precon, length, bytewidth, filterType, before, input0);
  }

  /** Prediction from above. */
  method UnfilterUp(out: array<byte>, recon: nat, input: array<byte>, scan: nat, precon: int, length: nat, bytewidth: nat)
    requires UnfilterArguments(out, recon, input, scan, precon, length, bytewidth)
    modifies out
    ensures out[..] == Overwritten(old(out[..]), recon,
                                   UnfilteredLine(old(out[..]), old(input[..]), scan, precon, length, bytewidth, 2))
  {
    hide Paeth, UnfilteredLine, Plus, Progress, Overwritten;
    ghost var filterType, before, input0 := 2, out[..], input[..];
    Nothing(out, recon, input, scan, precon, length, bytewidth, filterType);
    var i := 0;
    if precon != NULL {
      while i != length
        invariant i <= length && Progress(out, recon, input, scan, precon, length, bytewidth, filterType, before, input0, i)
      {
        Next(out, recon, input, scan, precon, length, bytewidth, filterType, before, input0, i, i);
        Put(out, recon, input, scan, precon, length, bytewidth, filterType, before, input0, i, Plus(input[scan + i], out[precon + i]));
        i := i + 1;
      }
    } else {
      while i != length
        invariant i <= length && Progress(out, recon, input, scan, precon, length, bytewidth, filterType, before, input0, i)
      {
        Next(out, recon, input, scan, precon, length, bytewidth, filterType, before, input0, i, i);
        PlusZero(input[scan + i]);
        Put(out, recon, input, scan, precon, length, bytewidth, filterType, before, input0, i, input[scan + i]);
        i := i + 1;
      }
    }
    Everything(out, recon, input, scan, precon, length, bytewidth, filterType, before, input0);
  }

  /** Prediction by the average. */
  method UnfilterAverage(out: array<byte>, recon: nat, input: array<byte>, scan: nat, precon: int, length: nat, bytewidth: nat)
    requires UnfilterArguments(out, recon, input, scan, precon, length, bytewidth)
    modifies out
    ensures out[..] == Overwritten(old(out[..]), recon,
                                   UnfilteredLine(old(out[..]), old(input[..]), scan, precon, length, bytewidth, 3))
  {
    hide Paeth, UnfilteredLine, Plus, Progress, Overwritten;
    ghost var filterType, before, input0 := 3, out[..], input[..];
    Nothing(out, recon, input, scan, precon, length, bytewidth, filterType);
    var i := 0;
    if precon != NULL {
      while i != bytewidth
        invariant i <= bytewidth && Progress(out, recon, input, scan, precon, length, bytewidth, filterType, before, input0, i)
      {
        Next(out, recon, input, scan, precon, length, bytewidth, filterType, before, input0, i, i);
        Put(out, recon, input, scan, precon, length, bytewidth, filterType, before, input0, i, Plus(input[scan + i], out[precon + i] / 2));
        i := i + 1;
      }
      while i < length
        invariant bytewidth <= i <= length && Progress(out, recon, input, scan, precon, length, bytewidth, filterType, before, input0, i)
      {
        Next(out, recon, input, scan, precon, length, bytewidth, filterType, before, input0, i, i);
        Put(out, recon, input, scan, precon, length, bytewidth, filterType, before, input0, i, Plus(input[scan + i], Average(out[recon + i - bytewidth], out[precon + i])));
        i := i + 1;
      }
    } else {
      while i != bytewidth
        invariant i <= bytewidth && Progress(out, recon, input, scan, precon, length, bytewidth, filterType, before, input0, i)
      {
        Next(out, recon, input, scan, precon, length, bytewidth, filterType, before, input0, i, i);
        PlusZero(input[scan + i]);
        Put(out, recon, input, scan, precon, length, bytewidth, filterType, before, input0, i, input[scan + i]);
        i := i + 1;
      }
      while i < length
        invariant bytewidth <= i <= length && Progress(out, recon, input, scan, precon, length, bytewidth, filterType, before, input0, i)
      {
        Next(out, recon, input, scan, precon, length, bytewidth, filterType, before, input0, i, i);
        Put(out, recon, input, scan, precon, length, bytewidth, filterType, before, input0, i, Plus(input[scan + i], out[recon + i - bytewidth] / 2));
        i := i + 1;
      }
    }
    Everything(out, recon, input, scan, precon, length, bytewidth, filterType, before, input0);
  }

  /** The Paeth loop, four bytes at a time: all are read before the first is written. */
  method UnfilterPaeth4(out: array<byte>, recon: nat, input: array<byte>, scan: nat, precon: int, length: nat, bytewidth: nat,
                        i0: nat, ghost before: seq<byte>, ghost input0: seq<byte>)
    returns (i: nat)
    requires precon != NULL && 4 <= bytewidth <= i0 <= length
    requires Progress(out, recon, input, scan, precon, length, bytewidth, 4, before, input0, i0)
    modifies out
    ensures bytewidth <= i <= length && Progress(out, recon, input, scan, precon, length, bytewidth, 4, before, input0, i)
  {
    hide Paeth, UnfilteredLine, Plus, Progress;
    i := i0;
    while i + 3 < length
      invariant bytewidth <= i <= length && Progress(out, recon, input, scan, precon, length, bytewidth, 4, before, input0, i)
    {
      var j := i - bytewidth;
      Next(out, recon, input, scan, precon, length, bytewidth, 4, before, input0, i, i);
      Next(out, recon, input, scan, precon, length, bytewidth, 4, before, input0, i, i + 1);
      Next(out, recon, input, scan, precon, length, bytewidth, 4, before, input0, i, i + 2);
      Next(out, recon, input, scan, precon, length, bytewidth, 4, before, input0, i, i + 3);
      var s0, s1, s2, s3 := input[scan + i], input[scan + i + 1], input[scan + i + 2], input[scan + i + 3];
      var r0, r1, r2, r3 := out[recon + j], out[recon + j + 1], out[recon + j + 2], out[recon + j + 3];
      var p0, p1, p2, p3 := out[precon + i], out[precon + i + 1], out[precon + i + 2], out[precon + i + 3];
      var q0, q1, q2, q3 := out[precon + j], out[precon + j + 1], out[precon + j + 2], out[precon + j + 3];
      Put(out, recon, input, scan, precon, length, bytewidth, 4, before, input0, i, Plus(s0, Paeth(r0, p0, q0)));
      Put(out, recon, input, scan, precon, length, bytewidth, 4, before, input0, i + 1, Plus(s1, Paeth(r1, p1, q1)));
      Put(out, recon, input, scan, precon, length, bytewidth, 4, before, input0, i + 2, Plus(s2, Paeth(r2, p2, q2)));
      Put(out, recon, input, scan, precon, length, bytewidth, 4, before, input0, i + 3, Plus(s3, Paeth(r3, p3, q3)));
      i := i + 4;
    }
  }

  /** The Paeth loop, three bytes at a time: all are read before the first is written. */
  method UnfilterPaeth3(out: array<byte>, recon: nat, input: array<byte>, scan: nat, precon: int, length: nat, bytewidth: nat,
                        i0: nat, ghost before: seq<byte>, ghost input0: seq<byte>)
    returns (i: nat)
    requires precon != NULL && 3 <= bytewidth <= i0 <= length
    requires Progress(out, recon, input, scan, precon, length, bytewidth, 4, before, input0, i0)
    modifies out
    ensures bytewidth <= i <= length && Progress(out, recon, input, scan, precon, length, bytewidth, 4, before, input0, i)
  {
    hide Paeth, UnfilteredLine, Plus, Progress;
    i := i0;
    while i + 2 < length
      invariant bytewidth <= i <= length && Progress(out, recon, input, scan, precon, length, bytewidth, 4, before, input0, i)
    {
      var j := i - bytewidth;
      Next(out, recon, input, scan, precon, length, bytewidth, 4, before, input0, i, i);
      Next(out, recon, input, scan, precon, length, bytewidth, 4, before, input0, i, i + 1);
      Next(out, recon, input, scan, precon, length, bytewidth, 4, before, input0, i, i + 2);
      var s0, s1, s2 := input[scan + i], input[scan + i + 1], input[scan + i + 2];
      var r0, r1, r2 := out[recon + j], out[recon + j + 1], out[recon + j + 2];
      var p0, p1, p2 := out[precon + i], out[precon + i + 1], out[precon + i + 2];
      var q0, q1, q2 := out[precon + j], out[precon + j + 1], out[precon + j + 2];
      Put(out, recon, input, scan, precon, length, bytewidth, 4, before, input0, i, Plus(s0, Paeth(r0, p0, q0)));
      Put(out, recon, input, scan, precon, length, bytewidth, 4, before, input0, i + 1, Plus(s1, Paeth(r1, p1, q1)));
      Put(out, recon, input, scan, precon, length, bytewidth, 4, before, input0, i + 2, Plus(s2, Paeth(r2, p2, q2)));
      i := i + 3;
    }
  }

  /** The Paeth loop, two bytes at a time: all are read before the first is written. */
  method UnfilterPaeth2(out: array<byte>, recon: nat, input: array<byte>, scan: nat, precon: int, length: nat, bytewidth: nat,
                        i0: nat, ghost before: seq<byte>, ghost input0: seq<byte>)
    returns (i: nat)
    requires precon != NULL && 2 <= bytewidth <= i0 <= length
    requires Progress(out, recon, input, scan, precon, length, bytewidth, 4, before, input0, i0)
    modifies out
    ensures bytewidth <= i <= length && Progress(out, recon, input, scan, precon, length, bytewidth, 4, before, input0, i)
  {
    hide Paeth, UnfilteredLine, Plus, Progress;
    i := i0;
    while i + 1 < length
      invariant bytewidth <= i <= length && Progress(out, recon, input, scan, precon, length, bytewidth, 4, before, input0, i)
    {
      var j := i - bytewidth;
      Next(out, recon, input, scan, precon, length, bytewidth, 4, before, input0, i, i);
      Next(out, recon, input, scan, precon, length, bytewidth, 4, before, input0, i, i + 1);
      var s0, s1 := input[scan + i], input[scan + i + 1];
      var r0, r1 := out[recon + j], out[recon + j + 1];
      var p0, p1 := out[precon + i], out[precon + i + 1];
      var q0, q1 := out[precon + j], out[precon + j + 1];
      Put(out, recon, input, scan, precon, length, bytewidth, 4, before, input0, i, Plus(s0, Paeth(r0, p0, q0)));
      Put(out, recon, input, scan, precon, length, bytewidth, 4, before, input0, i + 1, Plus(s1, Paeth(r1, p1, q1)));
      i := i + 2;
    }
  }

  /** Prediction by the Paeth predictor, unrolled where pixels are wide enough. */
  method UnfilterPaeth(out: array<byte>, recon: nat, input: array<byte>, scan: nat, precon: int, length: nat, bytewidth: nat)
    requires UnfilterArguments(out, recon, input, scan, precon, length, bytewidth)
    modifies out
    ensures out[..] == Overwritten(old(out[..]), recon,
                                   UnfilteredLine(old(out[..]), old(input[..]), scan, precon, length, bytewidth, 4))
  {
    hide Paeth, UnfilteredLine, Plus, Progress, Overwritten;
    ghost var filterType, before, input0 := 4, out[..], input[..];
    Nothing(out, recon, input, scan, precon, length, bytewidth, filterType);
    var i := 0;
    if precon != NULL {
      while i != bytewidth
        invariant i <= bytewidth && Progress(out, recon, input, scan, precon, length, bytewidth, filterType, before, input0, i)
      {
        Next(out, recon, input, scan, precon, length, bytewidth, filterType, before, input0, i, i);
        PaethOfOne(out[precon + i]);
        Put(out, recon, input, scan, precon, length, bytewidth, filterType, before, input0, i, Plus(input[scan + i], out[precon + i]));
        i := i + 1;
      }
      if bytewidth >= 4 {
        i := UnfilterPaeth4(out, recon, input, scan, precon, length, bytewidth, i, before, input0);
      } else if bytewidth >= 3 {
        i := UnfilterPaeth3(out, recon, input, scan, precon, length, bytewidth, i, before, input0);
      } else if bytewidth >= 2 {
        i := UnfilterPaeth2(out, recon, input, scan, precon, length, bytewidth, i, before, input0);
      }
      while i != length
        invariant bytewidth <= i <= length && Progress(out, recon, input, scan, precon, length, bytewidth, filterType, before, input0, i)
      {
        Next(out, recon, input, scan, precon, length, bytewidth, filterType, before, input0, i, i);
        Put(out, recon, input, scan, precon, length, bytewidth, filterType, before, input0, i, Plus(input[scan + i], Paeth(out[recon + i - bytewidth], out[precon + i], out[precon + i - bytewidth])));
        i := i + 1;
      }
    } else {
      while i != bytewidth
        invariant i <= bytewidth && Progress(out, recon, input, scan, precon, length, bytewidth, filterType, before, input0, i)
      {
        Next(out, recon, input, scan, precon, length, bytewidth, filterType, before, input0, i, i);
        PaethOfOne(0);
        PlusZero(input[scan + i]);
        Put(out, recon, input, scan, precon, length, bytewidth, filterType, before, input0, i, input[scan + i]);
        i := i + 1;
      }
      while i < length
        invariant bytewidth <= i <= length && Progress(out, recon, input, scan, precon, length, bytewidth, filterType, before, input0, i)
      {
        Next(out, recon, input, scan, precon, length, bytewidth, filterType, before, input0, i, i);
        PaethOfOne(out[recon + i - bytewidth]);
        Put(out, recon, input, scan, precon, length, bytewidth, filterType, before, input0, i, Plus(input[scan + i], out[recon + i - bytewidth]));
        i := i + 1;
      }
    }
    Everything(out, recon, input, scan, precon, length, bytewidth, filterType, before, input0);
  }

  lemma RestoredIsStandard(before: seq<byte>, recon: nat, input0: seq<byte>, scan: nat, precon: int, length: nat,
                           bytewidth: nat, filterType: nat)
    requires recon + length <= |before| && scan + length <= |input0| && 0 < bytewidth <= length && filterType <= 4
    requires precon == NULL || 0 <= precon <= precon + length <= |before|
    ensures AsStandard(input0[scan..scan + length],
                       Overwritten(before, recon, UnfilteredLine(before, input0, scan, precon, length, bytewidth, filterType))
                         [recon..recon + length],
                       LineAt(before, precon, length), bytewidth, filterType)
  {
    hide AsStandard, Unfiltered;
    UnfilteredIsStandard(input0[scan..scan + length], LineAt(before, precon, length), bytewidth, filterType);
  }

  /** Restores one line; an invalid type is an error. */
  method UnfilterScanline(out: array<byte>, recon: nat, input: array<byte>, scan: nat, precon: int, bytewidth: nat,
                          filterType: nat, length: nat)
    returns (error: nat)
    requires UnfilterArguments(out, recon, input, scan, precon, length, bytewidth)
    modifies out
    ensures error == if filterType > 4 then INVALID_FILTER else 0
    ensures error == 0 ==>
              out[..] == Overwritten(old(out[..]), recon, UnfilteredLine(old(out[..]), old(input[..]), scan, precon, length,
                                                                         bytewidth, filterType))
    ensures error == 0 ==>
              AsStandard(old(input[scan..scan + length]), out[recon..recon + length],
                         LineAt(old(out[..]), precon, length), bytewidth, filterType)
  {
    hide UnfilteredLine, Overwritten, AsStandard;
    if filterType <= 4 {
      RestoredIsStandard(out[..], recon, input[..], scan, precon, length, bytewidth, filterType);
    }
    error := 0;
    if filterType == 0 {
      UnfilterNone(out, recon, input, scan, precon, length, bytewidth);
    } else if filterType == 1 {
      UnfilterSub(out, recon, input, scan, precon, length, bytewidth);
    } else if filterType == 2 {
      UnfilterUp(out, recon, input, scan, precon, length, bytewidth);
    } else if filterType == 3 {
      UnfilterAverage(out, recon, input, scan, precon, length, bytewidth);
    } else if filterType == 4 {
      UnfilterPaeth(out, recon, input, scan, precon, length, bytewidth);
    } else {
      error := INVALID_FILTER;
    }
  }
}
