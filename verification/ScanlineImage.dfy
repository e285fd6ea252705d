/**
  Filtering and unfiltering a whole image or reduced image: every line gets a byte
  with its filter type in front of it.
 */
module ScanlineImage {
  import opened Sequences
  import opened Options
  import opened Bits
  import opened ScanlineFilter
  import Deflate
  import Modular

  /** n * h, one line at a time. */
  function Times(n: nat, h: nat): nat {
    if h == 0 then 0 else Times(n, h - 1) + n
  }

  lemma {:induction false} TimesIs(n: nat, h: nat)
    ensures Times(n, h) == n * h
  {
    if h > 0 {
      TimesIs(n, h - 1);
      assert n * h == n * (h - 1) + n;
    }
  }

  lemma OneMore(n: nat, h: nat)
    ensures Times(n, h + 1) == Times(n, h) + n
  {
  }

  lemma {:induction false} TimesGrows(n: nat, a: nat, b: nat)
    requires a <= b
    ensures Times(n, a) <= Times(n, b)
  {
    if a < b {
      TimesGrows(n, a, b - 1);
    }
  }

  lemma {:induction false} TimesWider(n: nat, h: nat)
    ensures Times(n + 1, h) == Times(n, h) + h
  {
    if h > 0 {
      TimesWider(n, h - 1);
    }
  }

  /** Line `y` of an image with lines of `n` bytes. */
  function Line(image: seq<byte>, n: nat, y: nat): (line: seq<byte>)
    requires Times(n, y) + n <= |image|
    ensures |line| == n
  {
    image[Times(n, y)..Times(n, y) + n]
  }

  /** The line above line `y`, which the first one does not have. */
  function Above(image: seq<byte>, n: nat, y: nat): (line: seq<byte>)
    requires y == 0 || Times(n, y) <= |image|
    ensures y > 0 ==> |line| == n
    ensures y == 0 ==> line == []
  {
    if y == 0 then [] else Line(image, n, y - 1)
  }

  ghost predicate ImageOk(image: seq<byte>, n: nat, bytewidth: nat, h: nat) {
    (h > 0 ==> 0 < bytewidth <= n) && Times(n, h) <= |image|
  }

  /** The first lines of an image, filtered with the given types. */
  function FilteredImage(image: seq<byte>, n: nat, bytewidth: nat, types: seq<byte>): (data: seq<byte>)
    requires ImageOk(image, n, bytewidth, |types|)
    ensures |data| == Times(n + 1, |types|)
  {
    if types == [] then []
    else
      var y := |types| - 1;
      FilteredImage(image, n, bytewidth, types[..y])
      + ([types[y]] + Filtered(Line(image, n, y), Above(image, n, y), bytewidth, types[y]))
  }

  /** The image that `h` filtered lines stand for, unless a filter type is invalid. */
  function UnfilteredImage(data: seq<byte>, n: nat, bytewidth: nat, h: nat): (image: Option<seq<byte>>)
    requires (h > 0 ==> 0 < bytewidth <= n) && Times(n + 1, h) <= |data|
    ensures image.Some? ==> |image.value| == Times(n, h)
  {
    if h == 0 then Some([])
    else
      var y := h - 1;
      match UnfilteredImage(data, n, bytewidth, y)
      case None => None
      case Some(image) =>
        var start := Times(n + 1, y);
        if data[start] > 4 then None
        else Some(image + Unfiltered(data[start + 1..start + 1 + n], Above(image, n, y), bytewidth, data[start], n))
  }

  lemma {:induction false} FilteredPrefix(image: seq<byte>, n: nat, bytewidth: nat, types: seq<byte>, y: nat)
    requires ImageOk(image, n, bytewidth, |types|) && y <= |types|
    ensures Times(n, y) <= Times(n, |types|) && Times(n + 1, y) <= Times(n + 1, |types|)
    ensures FilteredImage(image, n, bytewidth, types)[..Times(n + 1, y)] == FilteredImage(image, n, bytewidth, types[..y])
    decreases |types|
  {
    hide Filtered;
    if y < |types| {
      var front := types[..|types| - 1];
      FilteredPrefix(image, n, bytewidth, front, y);
      assert front[..y] == types[..y];
      TimesGrows(n + 1, y, |types|);
    } else {
      assert types[..y] == types;
    }
  }

  /** The last of the first `y + 1` filtered lines. */
  lemma FilteredRow(image: seq<byte>, n: nat, bytewidth: nat, types: seq<byte>, y: nat)
    requires ImageOk(image, n, bytewidth, |types|) && y < |types|
    ensures Times(n, y) + n <= |image| && Times(n + 1, y) + 1 + n <= Times(n + 1, |types|)
    ensures var data, start := FilteredImage(image, n, bytewidth, types), Times(n + 1, y);
            && data[start] == types[y]
            && data[start + 1..start + 1 + n] == Filtered(Line(image, n, y), Above(image, n, y), bytewidth, types[y])
  {
    hide Filtered, Times, Line, Above;
    FilteredPrefix(image, n, bytewidth, types, y);
    FilteredPrefix(image, n, bytewidth, types, y + 1);
    OneMore(n, y);
    OneMore(n + 1, y);
    var data, start := FilteredImage(image, n, bytewidth, types), Times(n + 1, y);
    var row := [types[y]] + Filtered(Line(image, n, y), Above(image, n, y), bytewidth, types[y]);
    assert types[..y + 1][..y] == types[..y];
    RowAfter(data, start, row);
    assert row[1..] == Filtered(Line(image, n, y), Above(image, n, y), bytewidth, types[y]);
  }

  lemma RowAfter(data: seq<byte>, start: nat, row: seq<byte>)
    requires start + |row| <= |data| && row != [] && data[..start + |row|] == data[..start] + row
    ensures data[start] == row[0] && data[start + 1..start + |row|] == row[1..]
  {
    assert data[start..start + |row|] == data[..start + |row|][start..] == row;
    assert data[start + 1..start + |row|] == data[start..start + |row|][1..];
  }

  lemma FirstLines(image: seq<byte>, n: nat, y: nat)
    requires Times(n, y) + n <= |image|
    ensures image[..Times(n, y)] + Line(image, n, y) == image[..Times(n, y) + n]
    ensures Above(image[..Times(n, y)], n, y) == Above(image, n, y)
  {
    hide Times;
    assert image[..Times(n, y)] + image[Times(n, y)..Times(n, y) + n] == image[..Times(n, y) + n];
    if y > 0 {
      OneMore(n, y - 1);
      var a, b := Times(n, y - 1), Times(n, y);
      assert a + n == b;
      assert image[..b][a..b] == image[a..b];
    }
  }

  /** Unfiltering the image undoes filtering it, whatever valid type each line got. */
  lemma {:induction false} UnfilterFilterImage(image: seq<byte>, n: nat, bytewidth: nat, types: seq<byte>, h: nat)
    requires ImageOk(image, n, bytewidth, |types|) && h <= |types|
    requires forall y :: 0 <= y < |types| ==> types[y] <= 4
    ensures Times(n, h) <= |image| && Times(n + 1, h) <= Times(n + 1, |types|)
    ensures UnfilteredImage(FilteredImage(image, n, bytewidth, types), n, bytewidth, h) == Some(image[..Times(n, h)])
    decreases h
  {
    hide Filtered, Unfiltered, FilteredImage, Times, Line, Above;
    TimesGrows(n, h, |types|);
    TimesGrows(n + 1, h, |types|);
    hide UnfilteredImage;
    NoRows(FilteredImage(image, n, bytewidth, types), n, bytewidth, |types|);
    if h > 0 {
      var y := h - 1;
      OneMore(n, y);
      OneMore(n + 1, y);
      UnfilterFilterImage(image, n, bytewidth, types, y);
      FilteredRow(image, n, bytewidth, types, y);
      var line, above := Line(image, n, y), Above(image, n, y);
      RowUnfilters(FilteredImage(image, n, bytewidth, types), n, bytewidth, |types|, y, image[..Times(n, y)]);
      FirstLines(image, n, y);
      UnfilterFilter(line, above, bytewidth, types[y], n);
      assert line[..n] == line;
    }
  }

  /** The filter type of line `y`. */
  function TypeAt(data: seq<byte>, n: nat, h: nat, y: nat): byte
    requires y < h && Times(n + 1, h) <= |data|
  {
    TimesGrows(n + 1, y + 1, h);
    data[Times(n + 1, y)]
  }

  lemma NoRows(data: seq<byte>, n: nat, bytewidth: nat, h: nat)
    requires Times(n + 1, h) <= |data|
    ensures Times(n, 0) == Times(n + 1, 0) == 0
    ensures UnfilteredImage(data, n, bytewidth, 0) == Some([]) && !SomeInvalid(data, n, h, 0)
  {
  }

  lemma OneRowFails(data: seq<byte>, n: nat, bytewidth: nat, y: nat)
    requires 0 < bytewidth <= n && Times(n + 1, y + 1) <= |data|
    ensures Times(n + 1, y) < |data|
    ensures UnfilteredImage(data, n, bytewidth, y + 1).None?
       <==> UnfilteredImage(data, n, bytewidth, y).None? || data[Times(n + 1, y)] > 4
  {
    hide Unfiltered;
  }

  /** One of the first `k` lines has an invalid filter type. */
  ghost predicate SomeInvalid(data: seq<byte>, n: nat, h: nat, k: nat)
    requires k <= h && Times(n + 1, h) <= |data|
  {
    exists y :: 0 <= y < k && TypeAt(data, n, h, y) > 4
  }

  lemma OneMoreInvalid(data: seq<byte>, n: nat, h: nat, k: nat)
    requires k < h && Times(n + 1, h) <= |data|
    ensures SomeInvalid(data, n, h, k + 1) <==> SomeInvalid(data, n, h, k) || TypeAt(data, n, h, k) > 4
  {
    hide TypeAt, Times;
  }

  /** Unfiltering fails exactly if some line has an invalid filter type. */
  lemma {:induction false} UnfilterFails(data: seq<byte>, n: nat, bytewidth: nat, h: nat, k: nat)
    requires (h > 0 ==> 0 < bytewidth <= n) && Times(n + 1, h) <= |data| && k <= h
    ensures Times(n + 1, k) <= |data|
    ensures UnfilteredImage(data, n, bytewidth, k).None? <==> SomeInvalid(data, n, h, k)
    decreases k
  {
    hide UnfilteredImage, Times, SomeInvalid;
    TimesGrows(n + 1, k, h);
    NoRows(data, n, bytewidth, h);
    if k > 0 {
      OneMore(n + 1, k - 1);
      UnfilterFails(data, n, bytewidth, h, k - 1);
      OneRowFails(data, n, bytewidth, k - 1);
      OneMoreInvalid(data, n, h, k - 1);
    }
  }

  // ----- unfiltering in place

  /** The first `y` lines have been unfiltered; `before` and `input0` are what the buffers held at first. */
  ghost predicate UnfilteredSoFar(now: seq<byte>, inputNow: seq<byte>, before: seq<byte>, input0: seq<byte>, same: bool,
                                  o: nat, p: nat, n: nat, bytewidth: nat, h: nat, y: nat, image: seq<byte>) {
    && (h > 0 ==> 0 < bytewidth <= n) && y <= h && o + Times(n, h) <= |before| && p + Times(n + 1, h) <= |input0|
    && Times(n + 1, y) <= Times(n + 1, h) && Times(n, y) <= Times(n, h)
    && UnfilteredImage(input0[p..p + Times(n + 1, h)], n, bytewidth, y) == Some(image)
    && now == Overwritten(before, o, image)
    && if same then inputNow == now && input0 == before && o <= p else inputNow == input0
  }

  /** The line above, in the buffer. */
  function PrevLine(o: nat, n: nat, y: nat): int {
    if y == 0 then NULL else o + Times(n, y - 1)
  }

  /** Where the next line is read and written. */
  ghost predicate RowPlaced(now: seq<byte>, inputNow: seq<byte>, input0: seq<byte>, same: bool,
                            o: nat, p: nat, n: nat, bytewidth: nat, h: nat, y: nat) {
    && 0 < bytewidth <= n && o + Times(n, y) + n <= |now| && p + Times(n + 1, y) + 1 + n <= |inputNow|
    && (same ==> o + Times(n, y) <= p + Times(n + 1, y))
    && (y > 0 ==> PrevLine(o, n, y) + n == o + Times(n, y))
    && Times(n + 1, y + 1) <= Times(n + 1, h) && p + Times(n + 1, h) <= |input0|
  }

  lemma PlaceRow(now: seq<byte>, inputNow: seq<byte>, before: seq<byte>, input0: seq<byte>, same: bool,
                 o: nat, p: nat, n: nat, bytewidth: nat, h: nat, y: nat, image: seq<byte>)
    requires UnfilteredSoFar(now, inputNow, before, input0, same, o, p, n, bytewidth, h, y, image) && y < h
    ensures |now| == |before| && |inputNow| == |input0|
    ensures RowPlaced(now, inputNow, input0, same, o, p, n, bytewidth, h, y)
  {
    hide UnfilteredImage, Times;
    OneMore(n, y);
    OneMore(n + 1, y);
    if y > 0 {
      OneMore(n, y - 1);
    }
    TimesGrows(n, y + 1, h);
    TimesGrows(n + 1, y + 1, h);
    TimesWider(n, y);
  }

  /** One more line: the type read is the data's, and the line restored is the image's. */
  lemma UnfilterRow(now: seq<byte>, inputNow: seq<byte>, before: seq<byte>, input0: seq<byte>, same: bool,
                    o: nat, p: nat, n: nat, bytewidth: nat, h: nat, y: nat, image: seq<byte>)
    requires UnfilteredSoFar(now, inputNow, before, input0, same, o, p, n, bytewidth, h, y, image) && y < h
    requires RowPlaced(now, inputNow, input0, same, o, p, n, bytewidth, h, y)
    ensures var data, filterType := input0[p..p + Times(n + 1, h)], inputNow[p + Times(n + 1, y)];
            if filterType > 4 then UnfilteredImage(data, n, bytewidth, h).None?
            else
              UnfilteredImage(data, n, bytewidth, y + 1)
              == Some(image + UnfilteredLine(now, inputNow, p + Times(n + 1, y) + 1, PrevLine(o, n, y), n, bytewidth, filterType))
  {
    hide Unfiltered, UnfilteredImage, Overwritten, Above, Times;
    PlaceRow(now, inputNow, before, input0, same, o, p, n, bytewidth, h, y, image);
    OneMore(n + 1, y);
    var data := input0[p..p + Times(n + 1, h)];
    var start := Times(n + 1, y);
    if same {
      Behind(before, o, image, p + start);
    }
    InputRow(input0, inputNow, p, |data|, start, n);
    var filterType := inputNow[p + start];
    if filterType > 4 {
      assert TypeAt(data, n, h, y) > 4;
      assert SomeInvalid(data, n, h, h);
      UnfilterFails(data, n, bytewidth, h, h);
    } else {
      AboveInBuffer(before, o, image, n, y);
      RowUnfilters(data, n, bytewidth, h, y, image);
    }
  }

  lemma NextSoFar(now: seq<byte>, inputNow: seq<byte>, before: seq<byte>, input0: seq<byte>, same: bool,
                  o: nat, p: nat, n: nat, bytewidth: nat, h: nat, y: nat, image: seq<byte>, line: seq<byte>)
    requires UnfilteredSoFar(now, inputNow, before, input0, same, o, p, n, bytewidth, h, y, image) && y < h
    requires |line| == n && p + Times(n + 1, h) <= |input0| && Times(n + 1, y + 1) <= Times(n + 1, h)
    requires UnfilteredImage(input0[p..p + Times(n + 1, h)], n, bytewidth, y + 1) == Some(image + line)
    ensures o + Times(n, y) + n <= |now|
    ensures var next := Overwritten(now, o + Times(n, y), line);
            UnfilteredSoFar(next, if same then next else inputNow, before, input0, same, o, p, n, bytewidth, h, y + 1,
                            image + line)
  {
    hide UnfilteredImage, Overwritten, Times;
    OneMore(n, y);
    TimesGrows(n, y + 1, h);
    OneLineMore(before, o, image, line);
  }

  lemma InputRow(input0: seq<byte>, inputNow: seq<byte>, p: nat, size: nat, i: nat, n: nat)
    requires |inputNow| == |input0| && p + size <= |input0| && i + 1 + n <= size
    requires forall k :: p + i <= k < |input0| ==> inputNow[k] == input0[k]
    ensures var data := input0[p..p + size];
            data[i] == inputNow[p + i] && data[i + 1..i + 1 + n] == inputNow[p + i + 1..p + i + 1 + n]
  {
    var data := input0[p..p + size];
    SliceOfSlice(input0, p, p + size, i + 1, i + 1 + n);
    assert inputNow[p + i + 1..p + i + 1 + n] == input0[p + i + 1..p + i + 1 + n];
  }

  lemma RowUnfilters(data: seq<byte>, n: nat, bytewidth: nat, h: nat, y: nat, image: seq<byte>)
    requires 0 < bytewidth <= n && y < h && Times(n + 1, h) <= |data|
    requires Times(n + 1, y) + 1 + n <= |data| && data[Times(n + 1, y)] <= 4
    requires UnfilteredImage(data, n, bytewidth, y) == Some(image)
    ensures var start := Times(n + 1, y);
            UnfilteredImage(data, n, bytewidth, y + 1)
            == Some(image + Unfiltered(data[start + 1..start + 1 + n], Above(image, n, y), bytewidth, data[start], n))
  {
    hide Unfiltered, Above, Times;
    OneMore(n + 1, y);
    TimesGrows(n + 1, y + 1, h);
  }

  lemma Behind(before: seq<byte>, o: nat, image: seq<byte>, k: nat)
    requires o + |image| <= k && o + |image| <= |before|
    ensures forall j :: k <= j < |before| ==> Overwritten(before, o, image)[j] == before[j]
  {
  }

  lemma AboveInBuffer(before: seq<byte>, o: nat, image: seq<byte>, n: nat, y: nat)
    requires |image| == Times(n, y) && o + |image| <= |before|
    ensures LineAt(Overwritten(before, o, image), PrevLine(o, n, y), n) == Above(image, n, y)
  {
  }

  lemma OneLineMore(before: seq<byte>, o: nat, image: seq<byte>, line: seq<byte>)
    requires o + |image| + |line| <= |before|
    ensures Overwritten(Overwritten(before, o, image), o + |image|, line) == Overwritten(before, o, image + line)
  {
  }

  lemma UnfilterStart(before: seq<byte>, input0: seq<byte>, same: bool, o: nat, p: nat, n: nat, bytewidth: nat, h: nat)
    requires (h > 0 ==> 0 < bytewidth <= n) && o + Times(n, h) <= |before| && p + Times(n + 1, h) <= |input0|
    requires same ==> before == input0 && o <= p
    ensures UnfilteredSoFar(before, input0, before, input0, same, o, p, n, bytewidth, h, 0, [])
  {
    assert before[..o] + [] + before[o..] == before;
  }

  /** Reads the type of the next line and restores the line. */
  method UnfilterNextRow(out: array<byte>, outindex: nat, input: array<byte>, inindex: nat, prevline: int, linebytes: nat,
                         bytewidth: nat, ghost before: seq<byte>, ghost input0: seq<byte>, ghost o: nat, ghost p: nat,
                         ghost h: nat, ghost y: nat, ghost image: seq<byte>)
    returns (error: nat, ghost more: seq<byte>)
    requires UnfilteredSoFar(out[..], input[..], before, input0, out == input, o, p, linebytes, bytewidth, h, y, image) && y < h
    requires outindex == o + Times(linebytes, y) && inindex == p + Times(linebytes + 1, y)
    requires prevline == PrevLine(o, linebytes, y)
    modifies out
    ensures PrevLine(o, linebytes, y + 1) == outindex && p + Times(linebytes + 1, h) <= |input0|
    ensures h > 0 ==> 0 < bytewidth <= linebytes
    ensures error == 0 ==>
              UnfilteredSoFar(out[..], input[..], before, input0, out == input, o, p, linebytes, bytewidth, h, y + 1, more)
    ensures error != 0 ==>
              error == INVALID_FILTER
              && UnfilteredImage(input0[p..p + Times(linebytes + 1, h)], linebytes, bytewidth, h).None?
  {
    hide UnfilteredImage, Overwritten, UnfilteredLine, UnfilteredSoFar, Times, AsStandard;
    RowGoesOn(out[..], input[..], before, input0, out == input, o, p, linebytes, bytewidth, h, y, image);
    var filterType := input[inindex];
    more := image + if filterType > 4 then []
                    else UnfilteredLine(out[..], input[..], inindex + 1, prevline, linebytes, bytewidth, filterType);
    error := UnfilterScanline(out, outindex, input, inindex + 1, prevline, bytewidth, filterType, linebytes);
  }

  /** The image may be written over the filtered data, as long as it does not start behind it. */
  method Unfilter(out: array<byte>, o: nat, input: array<byte>, p: nat, linebytes: nat, bytewidth: nat, h: nat)
    returns (error: nat)
    requires h > 0 ==> 0 < bytewidth <= linebytes
    requires o + Times(linebytes, h) <= out.Length && p + Times(linebytes + 1, h) <= input.Length
    requires out == input ==> o <= p
    modifies out
    ensures var r := UnfilteredImage(old(input[p..p + Times(linebytes + 1, h)]), linebytes, bytewidth, h);
            if r.None? then error == INVALID_FILTER
            else error == 0 && out[..] == Overwritten(old(out[..]), o, r.value)
  {
    hide UnfilteredImage, Overwritten, UnfilteredLine, UnfilteredSoFar, Times, AsStandard;
    ghost var before, input0 := out[..], input[..];
    ghost var image: seq<byte> := [];
    UnfilterStart(before, input0, out == input, o, p, linebytes, bytewidth, h);
    var prevline := NULL;
    for y := 0 to h
      invariant UnfilteredSoFar(out[..], input[..], before, input0, out == input, o, p, linebytes, bytewidth, h, y, image)
      invariant prevline == PrevLine(o, linebytes, y)
    {
      TimesIs(linebytes, y);
      TimesIs(linebytes + 1, y);
      var outindex := o + linebytes * y;
      var inindex := p + (1 + linebytes) * y;
      error, image := UnfilterNextRow(out, outindex, input, inindex, prevline, linebytes, bytewidth, before, input0, o, p, h, y,
                                      image);
      if error != 0 {
        return;
      }
      prevline := outindex;
    }
    UnfilterEnd(out[..], input[..], before, input0, out == input, o, p, linebytes, bytewidth, h, image);
    error := 0;
  }

  /** What a line needs, and that with it the image goes on. */
  lemma RowGoesOn(now: seq<byte>, inputNow: seq<byte>, before: seq<byte>, input0: seq<byte>, same: bool,
                  o: nat, p: nat, n: nat, bytewidth: nat, h: nat, y: nat, image: seq<byte>)
    requires UnfilteredSoFar(now, inputNow, before, input0, same, o, p, n, bytewidth, h, y, image) && y < h
    ensures RowPlaced(now, inputNow, input0, same, o, p, n, bytewidth, h, y)
    ensures PrevLine(o, n, y + 1) == o + Times(n, y)
    ensures var filterType := inputNow[p + Times(n + 1, y)];
            if filterType > 4 then UnfilteredImage(input0[p..p + Times(n + 1, h)], n, bytewidth, h).None?
            else
              var line := UnfilteredLine(now, inputNow, p + Times(n + 1, y) + 1, PrevLine(o, n, y), n, bytewidth, filterType);
              var next := Overwritten(now, o + Times(n, y), line);
              UnfilteredSoFar(next, if same then next else inputNow, before, input0, same, o, p, n, bytewidth, h, y + 1,
                              image + line)
  {
    hide UnfilteredImage, Overwritten, UnfilteredLine, UnfilteredSoFar, Times;
    PlaceRow(now, inputNow, before, input0, same, o, p, n, bytewidth, h, y, image);
    UnfilterRow(now, inputNow, before, input0, same, o, p, n, bytewidth, h, y, image);
    var filterType := inputNow[p + Times(n + 1, y)];
    if filterType <= 4 {
      NextSoFar(now, inputNow, before, input0, same, o, p, n, bytewidth, h, y, image,
                UnfilteredLine(now, inputNow, p + Times(n + 1, y) + 1, PrevLine(o, n, y), n, bytewidth, filterType));
    }
  }

  lemma UnfilterEnd(now: seq<byte>, inputNow: seq<byte>, before: seq<byte>, input0: seq<byte>, same: bool,
                    o: nat, p: nat, n: nat, bytewidth: nat, h: nat, image: seq<byte>)
    requires UnfilteredSoFar(now, inputNow, before, input0, same, o, p, n, bytewidth, h, h, image)
    ensures p + Times(n + 1, h) <= |input0| && (h > 0 ==> 0 < bytewidth <= n) && o + |image| <= |before|
    ensures UnfilteredImage(input0[p..p + Times(n + 1, h)], n, bytewidth, h) == Some(image)
    ensures now == Overwritten(before, o, image)
  {
  }

  // ----- filtering

  const LFS_FOUR: nat := 4
  const LFS_MINSUM: nat := 5
  const LFS_ENTROPY: nat := 6
  const LFS_BRUTE_FORCE: nat := 7
  const LFS_PREDEFINED: nat := 8

  const LCT_PALETTE: nat := 3

  datatype ColorMode = ColorMode(colortype: nat, bitdepth: nat)

  datatype FilterSettings = FilterSettings(
    strategy: nat, paletteZero: bool, predefined: seq<byte>, zlib: Deflate.Settings)

  function NumColorChannels(colortype: nat): nat {
    if colortype == 0 || colortype == 3 then 1
    else if colortype == 2 then 3
    else if colortype == 4 then 2
    else if colortype == 6 then 4
    else 0
  }

  function Bpp(color: ColorMode): nat {
    NumColorChannels(color.colortype) * color.bitdepth
  }

  /** The strategy in use: palette and low bit depth images may be left unfiltered. */
  function Strategy(color: ColorMode, settings: FilterSettings): nat {
    if settings.paletteZero && (color.colortype == LCT_PALETTE || color.bitdepth < 8) then 0 else settings.strategy
  }

  /** Bytes of a line, computed so that width times depth does not overflow. */
  function LineBytes(w: nat, bpp: nat): nat {
    (w / 8) * bpp + ((w % 8) * bpp + 7) / 8
  }

  function ByteWidth(bpp: nat): nat {
    (bpp + 7) / 8
  }

  ghost predicate AllValid(types: seq<byte>) {
    forall y :: 0 <= y < |types| ==> types[y] <= 4
  }

  /**
    The first lines have been filtered with these types: each has its type in front, and
    if all types are valid, together they are the filtered image.
   */
  ghost predicate Rows(now: seq<byte>, before: seq<byte>, o: nat, image: seq<byte>, n: nat, bytewidth: nat, types: seq<byte>) {
    && ImageOk(image, n, bytewidth, |types|) && |now| == |before| && o + Times(n + 1, |types|) <= |before|
    && now[..o] == before[..o] && now[o + Times(n + 1, |types|)..] == before[o + Times(n + 1, |types|)..]
    && (forall y :: 0 <= y < |types| ==> TypeAt(now[o..o + Times(n + 1, |types|)], n, |types|, y) == types[y])
    && (AllValid(types) ==> now[o..o + Times(n + 1, |types|)] == FilteredImage(image, n, bytewidth, types))
  }

  lemma NoRowsYet(before: seq<byte>, o: nat, image: seq<byte>, n: nat, bytewidth: nat)
    requires o <= |before|
    ensures Rows(before, before, o, image, n, bytewidth, [])
  {
  }

  /** Writing one more row. */
  lemma RowsStep(now: seq<byte>, before: seq<byte>, o: nat, image: seq<byte>, n: nat, bytewidth: nat, types: seq<byte>,
                 t: byte, row: seq<byte>)
    requires Rows(now, before, o, image, n, bytewidth, types) && |row| == n && 0 < bytewidth <= n
    requires Times(n, |types|) + n <= |image| && o + Times(n + 1, |types|) + n + 1 <= |before|
    requires t <= 4 ==> row == Filtered(Line(image, n, |types|), Above(image, n, |types|), bytewidth, t)
    ensures Rows(Overwritten(now, o + Times(n + 1, |types|), [t] + row), before, o, image, n, bytewidth, types + [t])
  {
    hide Filtered, Times, Line, Above, FilteredImage;
    var y := |types|;
    OneMore(n, y);
    OneMore(n + 1, y);
    var size, size' := Times(n + 1, y), Times(n + 1, y + 1);
    var next, more := Overwritten(now, o + size, [t] + row), types + [t];
    var data, data' := now[o..o + size], next[o..o + size'];
    assert data' == data + ([t] + row);
    assert next[..o] == now[..o];
    assert next[o + size'..] == now[o + size'..] by {
      assert now[o + size'..] == now[o + size..][n + 1..] == before[o + size..][n + 1..] == before[o + size'..];
    }
    assert before[o + size'..] == before[o + size..][n + 1..];
    forall k | 0 <= k < |more|
      ensures TypeAt(data', n, |more|, k) == more[k]
    {
      TimesGrows(n + 1, k + 1, y + 1);
      if k < y {
        TimesGrows(n + 1, k + 1, y);
        OneMore(n + 1, k);
        assert TypeAt(data, n, y, k) == types[k];
      }
    }
    if AllValid(more) {
      assert AllValid(types) by {
        assert forall k :: 0 <= k < y ==> types[k] == more[k];
      }
      assert more[y] == t;
      SnocRow(image, n, bytewidth, types, t);
      assert data' == FilteredImage(image, n, bytewidth, more);
    }
    assert ImageOk(image, n, bytewidth, |more|);
  }

  lemma SnocRow(image: seq<byte>, n: nat, bytewidth: nat, types: seq<byte>, t: byte)
    requires ImageOk(image, n, bytewidth, |types| + 1)
    ensures ImageOk(image, n, bytewidth, |types|) && Times(n, |types|) + n <= |image|
    ensures FilteredImage(image, n, bytewidth, types + [t])
         == FilteredImage(image, n, bytewidth, types)
            + ([t] + Filtered(Line(image, n, |types|), Above(image, n, |types|), bytewidth, t))
  {
    hide Filtered;
    assert (types + [t])[..|types|] == types;
  }

  // ----- scores

  /** Sum of the absolute differences that a filtered line stands for. */
  function MinSum(f: seq<byte>, filterType: nat): nat {
    if f == [] then 0
    else
      var last := f[|f| - 1];
      MinSum(f[..|f| - 1], filterType) + if filterType == 0 || last < 128 then last else 255 - last
  }

  function Ilog2(i: nat): nat {
    var a := if i >= 65536 then (16, i / 65536) else (0, i);
    var b := if a.1 >= 256 then (a.0 + 8, a.1 / 256) else a;
    var c := if b.1 >= 16 then (b.0 + 4, b.1 / 16) else b;
    var d := if c.1 >= 4 then (c.0 + 2, c.1 / 4) else c;
    if d.1 >= 2 then d.0 + 1 else d.0
  }

  /** It is the integer part of the logarithm. */
  lemma Ilog2Is(i: nat)
    requires 0 < i < 0x1_0000_0000
    ensures Pow2(Ilog2(i)) <= i < Pow2(Ilog2(i) + 1)
  {
    hide Pow2;
    MorePowers();
  }

  lemma MorePowers()
    ensures Pow2(0) == 1 && Pow2(1) == 2 && Pow2(2) == 4 && Pow2(3) == 8 && Pow2(4) == 16 && Pow2(5) == 32 && Pow2(6) == 64
    ensures Pow2(7) == 128 && Pow2(8) == 256 && Pow2(9) == 512 && Pow2(10) == 1024 && Pow2(11) == 2048 && Pow2(12) == 4096
    ensures Pow2(13) == 8192 && Pow2(14) == 16384 && Pow2(15) == 32768 && Pow2(16) == 65536 && Pow2(17) == 0x2_0000
    ensures Pow2(18) == 0x4_0000 && Pow2(19) == 0x8_0000 && Pow2(20) == 0x10_0000 && Pow2(21) == 0x20_0000
    ensures Pow2(22) == 0x40_0000 && Pow2(23) == 0x80_0000 && Pow2(24) == 0x100_0000 && Pow2(25) == 0x200_0000
    ensures Pow2(26) == 0x400_0000 && Pow2(27) == 0x800_0000 && Pow2(28) == 0x1000_0000 && Pow2(29) == 0x2000_0000
    ensures Pow2(30) == 0x4000_0000 && Pow2(31) == 0x8000_0000 && Pow2(32) == 0x1_0000_0000
  {
  }

  /** An approximation of i * log2(i). */
  function Ilog2i(i: nat): int {
    if i == 0 then 0 else i * Ilog2(i) + 2 * (i - Pow2(Ilog2(i)))
  }

  /** What a byte of a difference counts: the distance to the nearer end of its range. */
  lemma {:induction false} MinSumIs(f: seq<byte>, c: byte, filterType: nat)
    requires filterType > 0
    ensures MinSum(f + [c], filterType) == MinSum(f, filterType) + if c as int <= 255 - c as int then c as int else 255 - c as int
    ensures MinSum(f + [c], 0) == MinSum(f, 0) + c as int && MinSum([], filterType) == 0
  {
    assert (f + [c])[..|f|] == f;
  }

  method SumOfDifferences(attempt: array<byte>, filterType: nat) returns (sum: nat)
    ensures sum == MinSum(attempt[..], filterType)
  {
    sum := 0;
    for x := 0 to attempt.Length
      invariant sum == MinSum(attempt[..x], filterType)
    {
      assert attempt[..x + 1][..x] == attempt[..x];
      var s := attempt[x];
      sum := sum + if filterType == 0 || s < 128 then s else 255 - s;
    }
    assert attempt[..attempt.Length] == attempt[..];
  }

  /** How often a byte occurs in a filtered line, its filter type included. */
  function Occurs(f: seq<byte>, filterType: nat, v: nat): nat {
    (if v == filterType then 1 else 0) + CountOf(f, v)
  }

  function CountOf(f: seq<byte>, v: nat): nat {
    if f == [] then 0 else CountOf(f[..|f| - 1], v) + if f[|f| - 1] as nat == v then 1 else 0
  }

  /** The score of the byte counts, larger for lower entropy. */
  function EntropyScore(f: seq<byte>, filterType: nat, n: nat): int {
    if n == 0 then 0 else EntropyScore(f, filterType, n - 1) + Ilog2i(Occurs(f, filterType, n - 1))
  }

  method EntropySum(attempt: array<byte>, filterType: nat) returns (sum: int)
    requires filterType < 256
    ensures sum == EntropyScore(attempt[..], filterType, 256)
  {
    hide Ilog2i;
    var count := new nat[256](i => 0);
    for x := 0 to attempt.Length
      invariant forall v :: 0 <= v < 256 ==> count[v] == CountOf(attempt[..x], v)
    {
      assert attempt[..x + 1][..x] == attempt[..x];
      count[attempt[x]] := count[attempt[x]] + 1;
    }
    assert attempt[..attempt.Length] == attempt[..];
    count[filterType] := count[filterType] + 1;
    sum := 0;
    for x := 0 to 256
      invariant forall v :: 0 <= v < 256 ==> count[v] == Occurs(attempt[..], filterType, v)
      invariant sum == EntropyScore(attempt[..], filterType, x)
    {
      sum := sum + Ilog2i(count[x]);
    }
  }

  /** The size of the line compressed with fixed codes in the zlib format; zero if that fails. */
  method CompressedSize(attempt: array<byte>, zlib: Deflate.Settings) returns (size: nat)
    requires attempt.Length > 0
  {
    var compressed, error := Deflate.DeflateV(attempt[..], zlib.(btype := 1));
    size := if error == 0 then |compressed| + 6 else 0;
  }

  /** The first type with the smallest sum. */
  ghost predicate SmallestSum(sums: seq<int>, best: nat) {
    best < |sums| && forall t :: 0 <= t < |sums| ==> sums[best] <= sums[t] && (t < best ==> sums[best] < sums[t])
  }

  /** A line filtered with each of the five types. */
  function Attempts(line: seq<byte>, above: seq<byte>, bytewidth: nat): (attempts: seq<seq<byte>>)
    requires LineOk(line, above, bytewidth)
    ensures |attempts| == 5 && forall t :: 0 <= t < 5 ==> attempts[t] == Filtered(line, above, bytewidth, t)
  {
    seq(5, t requires 0 <= t < 5 => Filtered(line, above, bytewidth, t))
  }

  /** The strategies whose score is known without compressing; the best score is the least one. */
  predicate Scored(strategy: nat) {
    strategy == LFS_MINSUM || strategy == LFS_ENTROPY
  }

  function Score(strategy: nat, f: seq<byte>, filterType: nat): int {
    if strategy == LFS_ENTROPY then -EntropyScore(f, filterType, 256) else MinSum(f, filterType)
  }

  function Scores(strategy: nat, attempts: seq<seq<byte>>): (sums: seq<int>)
    ensures |sums| == |attempts|
  {
    seq(|attempts|, t requires 0 <= t < |attempts| => Score(strategy, attempts[t], t))
  }

  /** Filters the line with one type into a buffer of its own, and scores the result. */
  method TryFilter(attempt: array<byte>, input: array<byte>, s: nat, prevline: int, length: nat, bytewidth: nat,
                   filterType: nat, strategy: nat, zlib: Deflate.Settings)
    returns (score: int)
    requires filterType <= 4 && attempt.Length == length && FilterArguments(attempt, 0, input, s, prevline, length, bytewidth)
    modifies attempt
    ensures attempt[..] == FilteredLine(input[..], s, prevline, length, bytewidth, filterType)
    ensures Scored(strategy) ==> Score(strategy, attempt[..], filterType) == if strategy == LFS_ENTROPY then -score else score
  {
    hide FilteredLine;
    FilterScanline(attempt, 0, input, s, prevline, length, bytewidth, filterType);
    assert attempt[..] == FilteredLine(input[..], s, prevline, length, bytewidth, filterType);
    if strategy == LFS_MINSUM {
      score := SumOfDifferences(attempt, filterType);
    } else if strategy == LFS_ENTROPY {
      score := EntropySum(attempt, filterType);
    } else {
      score := CompressedSize(attempt, zlib);
    }
  }

  /** The best so far when the first `t` types have been tried. */
  ghost predicate BestSoFar(sums: seq<int>, t: nat, best: nat, score: int) {
    t <= |sums| && (t > 0 ==> SmallestSum(sums[..t], best) && score == sums[best])
  }

  /** Tries the five types on a line and keeps all results; the best score decides. */
  method TryFilters(attempts: seq<array<byte>>, input: array<byte>, s: nat, prevline: int, length: nat, bytewidth: nat,
                    strategy: nat, zlib: Deflate.Settings)
    returns (bestType: byte)
    requires |attempts| == 5 && forall i, j :: 0 <= i < j < 5 ==> attempts[i] != attempts[j]
    requires forall i :: 0 <= i < 5 ==> attempts[i].Length == length && attempts[i] != input
    requires s + length <= input.Length && 0 < bytewidth <= length
    requires prevline == NULL || 0 <= prevline <= prevline + length <= input.Length
    modifies attempts
    ensures bestType <= 4
    ensures attempts[bestType][..] == FilteredLine(input[..], s, prevline, length, bytewidth, bestType)
    ensures Scored(strategy) ==>
              SmallestSum(Scores(strategy, Attempts(input[s..s + length], LineAt(input[..], prevline, length), bytewidth)),
                          bestType)
  {
    hide Filtered, Score, SmallestSum;
    ghost var sums := Scores(strategy, Attempts(input[s..s + length], LineAt(input[..], prevline, length), bytewidth));
    ghost var all := input[..];
    bestType := 0;
    var best := 0;
    for filterType := 0 to 5
      invariant bestType <= 4 && (filterType > 0 ==> bestType < filterType) && input[..] == all
      invariant forall t :: 0 <= t < filterType ==> attempts[t][..] == FilteredLine(all, s, prevline, length, bytewidth, t)
      invariant Scored(strategy) ==> BestSoFar(sums, filterType, bestType, if strategy == LFS_ENTROPY then -best else best)
    {
      var score := TryFilter(attempts[filterType], input, s, prevline, length, bytewidth, filterType, strategy, zlib);
      if Scored(strategy) {
        assert sums[filterType] == if strategy == LFS_ENTROPY then -score else score;
        KeepBest(sums, filterType, bestType, if strategy == LFS_ENTROPY then -best else best);
      }
      if filterType == 0 || (if strategy == LFS_ENTROPY then score > best else score < best) {
        bestType, best := filterType, score;
      }
    }
    assert sums[..5] == sums;
  }

  lemma KeepBest(sums: seq<int>, t: nat, bestType: nat, best: int)
    requires t < |sums| && BestSoFar(sums, t, bestType, best) && (t > 0 ==> bestType < t)
    ensures t == 0 || sums[t] < best ==> BestSoFar(sums, t + 1, t, sums[t])
    ensures t > 0 && sums[t] >= best ==> BestSoFar(sums, t + 1, bestType, best)
  {
    var more := sums[..t + 1];
    assert forall i :: 0 <= i < t ==> more[i] == sums[..t][i];
  }

  /** The filter types a strategy may choose for the first lines of an image. */
  ghost predicate Chosen(strategy: nat, predefined: seq<byte>, image: seq<byte>, n: nat, bytewidth: nat, types: seq<byte>) {
    && ImageOk(image, n, bytewidth, |types|)
    && (strategy <= LFS_FOUR ==> forall y :: 0 <= y < |types| ==> types[y] == strategy)
    && (strategy == LFS_PREDEFINED ==> types <= predefined)
    && (LFS_MINSUM <= strategy <= LFS_BRUTE_FORCE ==> AllValid(types))
    && (Scored(strategy) ==> forall y :: 0 <= y < |types| ==> LeastSum(strategy, image, n, bytewidth, y, types[y]))
  }

  /** The type of a line is the first one with the best score. */
  ghost predicate LeastSum(strategy: nat, image: seq<byte>, n: nat, bytewidth: nat, y: nat, t: byte) {
    && 0 < bytewidth <= n && Times(n, y) + n <= |image|
    && SmallestSum(Scores(strategy, Attempts(Line(image, n, y), Above(image, n, y), bytewidth)), t)
  }

  /** Writes a filter type and the line filtered with it; after an invalid type the old bytes stay. */
  method WriteRow(out: array<byte>, outindex: nat, input: array<byte>, s: nat, prevline: int, length: nat, bytewidth: nat,
                  filterType: byte)
    requires outindex + 1 + length <= out.Length && FilterArguments(out, outindex + 1, input, s, prevline, length, bytewidth)
    modifies out
    ensures out[..] == Overwritten(old(out[..]), outindex,
                                   [filterType] + if filterType > 4 then old(out[outindex + 1..outindex + 1 + length])
                                                  else FilteredLine(input[..], s, prevline, length, bytewidth, filterType))
  {
    hide FilteredLine;
    ghost var before := out[..];
    out[outindex] := filterType;
    FilterScanline(out, outindex + 1, input, s, prevline, length, bytewidth, filterType);
    if filterType <= 4 {
      TypeAndLine(before, outindex, filterType, FilteredLine(input[..], s, prevline, length, bytewidth, filterType));
    } else {
      TypeOnly(before, outindex, filterType, length);
    }
  }

  lemma TypeAndLine(before: seq<byte>, k: nat, t: byte, row: seq<byte>)
    requires k + 1 + |row| <= |before|
    ensures Overwritten(before[k := t], k + 1, row) == Overwritten(before, k, [t] + row)
  {
  }

  lemma TypeOnly(before: seq<byte>, k: nat, t: byte, length: nat)
    requires k + 1 + length <= |before|
    ensures before[k := t] == Overwritten(before, k, [t] + before[k + 1..k + 1 + length])
  {
  }

  method CopyRow(out: array<byte>, k: nat, row: array<byte>)
    requires out != row && k + row.Length <= out.Length
    modifies out
    ensures out[..] == Overwritten(old(out[..]), k, row[..])
  {
    hide Overwritten;
    ghost var before, all := out[..], row[..];
    NothingWritten(before, k, all);
    for x := 0 to row.Length
      invariant Partly(out[..], before, k, all, x) && row[..] == all
    {
      WriteNext(out[..], before, k, all, x);
      out[k + x] := row[x];
    }
    AllWritten(out[..], before, k, all);
  }

  /** Tries all types on a line and writes the best. */
  method WriteBestRow(out: array<byte>, outindex: nat, attempts: seq<array<byte>>, input: array<byte>, s: nat, prevline: int,
                      length: nat, bytewidth: nat, strategy: nat, zlib: Deflate.Settings)
    returns (bestType: byte)
    requires outindex + 1 + length <= out.Length && FilterArguments(out, outindex + 1, input, s, prevline, length, bytewidth)
    requires |attempts| == 5 && forall i, j :: 0 <= i < j < 5 ==> attempts[i] != attempts[j]
    requires forall i :: 0 <= i < 5 ==> attempts[i].Length == length && attempts[i] != input && attempts[i] != out
    modifies out, attempts
    ensures bestType <= 4
    ensures out[..] == Overwritten(old(out[..]), outindex,
                                   [bestType] + FilteredLine(input[..], s, prevline, length, bytewidth, bestType))
    ensures Scored(strategy) ==>
              SmallestSum(Scores(strategy, Attempts(input[s..s + length], LineAt(input[..], prevline, length), bytewidth)),
                          bestType)
  {
    hide FilteredLine, Overwritten, SmallestSum, Attempts, Scores;
    ghost var before := out[..];
    bestType := TryFilters(attempts, input, s, prevline, length, bytewidth, strategy, zlib);
    ghost var row := attempts[bestType][..];
    assert out[..] == before;
    out[outindex] := bestType;
    CopyRow(out, outindex + 1, attempts[bestType]);
    TypeAndLine(before, outindex, bestType, row);
  }

  /** Filtering so far: the rows written, and how their types were chosen. */
  ghost predicate FilteredSoFar(now: seq<byte>, before: seq<byte>, o: nat, image: seq<byte>, n: nat, bytewidth: nat, h: nat,
                                types: seq<byte>, strategy: nat, predefined: seq<byte>) {
    && (h > 0 ==> 0 < bytewidth <= n) && |types| <= h && o + Times(n + 1, h) <= |before| && Times(n, h) <= |image|
    && Rows(now, before, o, image, n, bytewidth, types)
    && Chosen(strategy, predefined, image, n, bytewidth, types)
  }

  lemma NothingFiltered(before: seq<byte>, o: nat, image: seq<byte>, n: nat, bytewidth: nat, h: nat, strategy: nat,
                    predefined: seq<byte>)
    requires (h > 0 ==> 0 < bytewidth <= n) && o + Times(n + 1, h) <= |before| && Times(n, h) <= |image|
    ensures FilteredSoFar(before, before, o, image, n, bytewidth, h, [], strategy, predefined)
  {
    NoRowsYet(before, o, image, n, bytewidth);
  }

  /** Where the next row goes, and that its line and the one above are the image's. */
  lemma FilterRow(now: seq<byte>, before: seq<byte>, o: nat, input: seq<byte>, p: nat, n: nat, bytewidth: nat, h: nat,
                  types: seq<byte>, strategy: nat, predefined: seq<byte>)
    requires p <= |input| && |types| < h
    requires FilteredSoFar(now, before, o, input[p..], n, bytewidth, h, types, strategy, predefined)
    ensures var y, image := |types|, input[p..];
            && 0 < bytewidth <= n && |now| == |before| && Times(n, y) + n <= |image|
            && o + Times(n + 1, y) + 1 + n <= |now| && p + Times(n, y) + n <= |input|
            && (y > 0 ==> 0 <= PrevLine(p, n, y) && PrevLine(p, n, y) + n == p + Times(n, y))
            && input[p + Times(n, y)..p + Times(n, y) + n] == Line(image, n, y)
            && LineAt(input, PrevLine(p, n, y), n) == Above(image, n, y)
  {
    hide Times, Rows, Chosen;
    var y := |types|;
    RowsSize(now, before, o, input[p..], n, bytewidth, types);
    TimesGrows(n, y + 1, h);
    TimesGrows(n + 1, y + 1, h);
    OneMore(n, y);
    OneMore(n + 1, y);
    if y > 0 {
      OneMore(n, y - 1);
      TailSlice(input, p, Times(n, y - 1), Times(n, y - 1) + n);
    }
    TailSlice(input, p, Times(n, y), Times(n, y) + n);
  }

  lemma TailSlice<T>(s: seq<T>, p: nat, i: nat, j: nat)
    requires p <= |s| && i <= j <= |s| - p
    ensures s[p..][i..j] == s[p + i..p + j]
  {
    SliceOfSlice(s, p, |s|, i, j);
    assert s[p..] == s[p..|s|];
  }

  /** One more row, with a type its strategy may choose. */
  lemma FilterStep(now: seq<byte>, before: seq<byte>, o: nat, image: seq<byte>, n: nat, bytewidth: nat, h: nat,
                   types: seq<byte>, strategy: nat, predefined: seq<byte>, t: byte, row: seq<byte>)
    requires FilteredSoFar(now, before, o, image, n, bytewidth, h, types, strategy, predefined) && |types| < h
    requires Times(n, |types|) + n <= |image| && |row| == n && 0 < bytewidth <= n
    requires t <= 4 ==> row == Filtered(Line(image, n, |types|), Above(image, n, |types|), bytewidth, t)
    requires strategy <= LFS_FOUR ==> t == strategy
    requires strategy == LFS_PREDEFINED ==> |types| < |predefined| && t == predefined[|types|]
    requires LFS_MINSUM <= strategy <= LFS_BRUTE_FORCE ==> t <= 4
    requires Scored(strategy) ==> LeastSum(strategy, image, n, bytewidth, |types|, t)
    ensures o + Times(n + 1, |types|) + 1 + n <= |now|
    ensures FilteredSoFar(Overwritten(now, o + Times(n + 1, |types|), [t] + row), before, o, image, n, bytewidth, h,
                          types + [t], strategy, predefined)
  {
    hide Times, Rows, Overwritten, LeastSum, Filtered;
    var y := |types|;
    TimesGrows(n + 1, y + 1, h);
    TimesGrows(n, y + 1, h);
    OneMore(n, y);
    OneMore(n + 1, y);
    RowsSize(now, before, o, image, n, bytewidth, types);
    RowsStep(now, before, o, image, n, bytewidth, types, t, row);
    assert strategy == LFS_PREDEFINED ==> types + [t] <= predefined by {
      if strategy == LFS_PREDEFINED {
        assert types + [t] == predefined[..y + 1];
      }
    }
  }

  lemma RowsSize(now: seq<byte>, before: seq<byte>, o: nat, image: seq<byte>, n: nat, bytewidth: nat, types: seq<byte>)
    requires Rows(now, before, o, image, n, bytewidth, types)
    ensures |now| == |before|
  {
  }

  /** The lines of an image filtered with a fixed or a predefined type each. */
  method FilterGiven(out: array<byte>, o: nat, input: array<byte>, p: nat, linebytes: nat, bytewidth: nat, h: nat,
                     strategy: nat, predefined: seq<byte>)
    returns (ghost types: seq<byte>)
    requires out != input && (h > 0 ==> 0 < bytewidth <= linebytes)
    requires o + Times(linebytes + 1, h) <= out.Length && p + Times(linebytes, h) <= input.Length
    requires strategy <= LFS_FOUR || (strategy == LFS_PREDEFINED && h <= |predefined|)
    modifies out
    ensures |types| == h
    ensures FilteredSoFar(out[..], old(out[..]), o, input[p..], linebytes, bytewidth, h, types, strategy, predefined)
  {
    hide FilteredSoFar, Overwritten, FilteredLine, Line, Above, LineAt, Times, Filtered;
    ghost var before, all := out[..], input[..];
    types := [];
    NothingFiltered(before, o, input[p..], linebytes, bytewidth, h, strategy, predefined);
    var prevline := NULL;
    for y := 0 to h
      invariant |types| == y && prevline == PrevLine(p, linebytes, y) && input[..] == all
      invariant FilteredSoFar(out[..], before, o, input[p..], linebytes, bytewidth, h, types, strategy, predefined)
    {
      FilterRow(out[..], before, o, input[..], p, linebytes, bytewidth, h, types, strategy, predefined);
      TimesIs(linebytes, y);
      TimesIs(linebytes + 1, y);
      var outindex := o + (1 + linebytes) * y;
      var inindex := p + linebytes * y;
      var filterType: byte := if strategy <= LFS_FOUR then strategy else predefined[y];
      ghost var row := if filterType > 4 then out[outindex + 1..outindex + 1 + linebytes]
                       else FilteredLine(input[..], inindex, prevline, linebytes, bytewidth, filterType);
      LineOfBuffer(input[..], inindex, prevline, linebytes, bytewidth, filterType);
      FilterStep(out[..], before, o, input[p..], linebytes, bytewidth, h, types, strategy, predefined, filterType, row);
      WriteRow(out, outindex, input, inindex, prevline, linebytes, bytewidth, filterType);
      types := types + [filterType];
      prevline := inindex;
    }
  }

  lemma LineOfBuffer(buffer: seq<byte>, s: nat, prevline: int, length: nat, bytewidth: nat, filterType: nat)
    requires s + length <= |buffer| && 0 < bytewidth <= length
    requires prevline == NULL || 0 <= prevline <= prevline + length <= |buffer|
    ensures FilteredLine(buffer, s, prevline, length, bytewidth, filterType)
         == Filtered(buffer[s..s + length], LineAt(buffer, prevline, length), bytewidth, filterType)
  {
  }

  /** The lines of an image, each filtered with the type that does best. */
  method FilterAdaptive(out: array<byte>, o: nat, input: array<byte>, p: nat, linebytes: nat, bytewidth: nat, h: nat,
                        strategy: nat, zlib: Deflate.Settings)
    returns (ghost types: seq<byte>)
    requires out != input && (h > 0 ==> 0 < bytewidth <= linebytes)
    requires o + Times(linebytes + 1, h) <= out.Length && p + Times(linebytes, h) <= input.Length
    requires LFS_MINSUM <= strategy <= LFS_BRUTE_FORCE
    modifies out
    ensures |types| == h
    ensures FilteredSoFar(out[..], old(out[..]), o, input[p..], linebytes, bytewidth, h, types, strategy, [])
  {
    hide FilteredSoFar, Overwritten, FilteredLine, Line, Above, LineAt, Times, Filtered, SmallestSum, Attempts;
    ghost var before, all := out[..], input[..];
    var a0, a1, a2, a3, a4 := new byte[linebytes], new byte[linebytes], new byte[linebytes], new byte[linebytes],
                              new byte[linebytes];
    var attempts := [a0, a1, a2, a3, a4];
    types := [];
    NothingFiltered(before, o, input[p..], linebytes, bytewidth, h, strategy, []);
    var prevline := NULL;
    for y := 0 to h
      invariant |types| == y && prevline == PrevLine(p, linebytes, y) && input[..] == all
      invariant FilteredSoFar(out[..], before, o, input[p..], linebytes, bytewidth, h, types, strategy, [])
    {
      FilterRow(out[..], before, o, input[..], p, linebytes, bytewidth, h, types, strategy, []);
      TimesIs(linebytes, y);
      TimesIs(linebytes + 1, y);
      var outindex := o + (linebytes + 1) * y;
      var inindex := p + linebytes * y;
      ghost var now := out[..];
      var bestType := WriteBestRow(out, outindex, attempts, input, inindex, prevline, linebytes, bytewidth, strategy, zlib);
      LineOfBuffer(input[..], inindex, prevline, linebytes, bytewidth, bestType);
      FilterStep(now, before, o, input[p..], linebytes, bytewidth, h, types, strategy, [], bestType,
                 FilteredLine(input[..], inindex, prevline, linebytes, bytewidth, bestType));
      types := types + [bestType];
      prevline := inindex;
    }
  }

  const INVALID_COLOR: nat := 31
  const UNKNOWN_STRATEGY: nat := 88

  lemma PixelFitsLine(w: nat, bpp: nat)
    requires w > 0 && bpp > 0
    ensures 0 < ByteWidth(bpp) <= LineBytes(w, bpp)
  {
    if w >= 8 {
      Modular.MulAtLeast(bpp, w / 8);
    } else {
      Modular.MulAtLeast(bpp, w % 8);
    }
  }

  /** The error of filtering. */
  function FilterError(color: ColorMode, settings: FilterSettings): nat {
    if Bpp(color) == 0 then INVALID_COLOR
    else if Strategy(color, settings) > LFS_PREDEFINED then UNKNOWN_STRATEGY
    else 0
  }

  /** Filters an image, or a reduced one, with the strategy of the settings. */
  method Filter(out: array<byte>, o: nat, input: array<byte>, p: nat, w: nat, h: nat, color: ColorMode, settings: FilterSettings)
    returns (error: nat, ghost types: seq<byte>)
    requires out != input && (h > 0 ==> w > 0)
    requires o + Times(LineBytes(w, Bpp(color)) + 1, h) <= out.Length && p + Times(LineBytes(w, Bpp(color)), h) <= input.Length
    requires settings.strategy == LFS_PREDEFINED ==> h <= |settings.predefined|
    modifies out
    ensures error == FilterError(color, settings)
    ensures error == 0 ==>
              && |types| == h
              && FilteredSoFar(out[..], old(out[..]), o, input[p..], LineBytes(w, Bpp(color)), ByteWidth(Bpp(color)), h, types,
                               Strategy(color, settings),
                               if Strategy(color, settings) <= LFS_BRUTE_FORCE then [] else settings.predefined)
  {
    hide FilteredSoFar, Times, LineBytes;
    types := [];
    var bpp := Bpp(color);
    var linebytes := LineBytes(w, bpp);
    var bytewidth := (bpp + 7) / 8;
    var strategy := settings.strategy;
    if settings.paletteZero && (color.colortype == LCT_PALETTE || color.bitdepth < 8) {
      strategy := 0;
    }
    if bpp == 0 {
      return INVALID_COLOR, types;
    }
    if h > 0 {
      PixelFitsLine(w, bpp);
    }
    if strategy <= LFS_FOUR {
      types := FilterGiven(out, o, input, p, linebytes, bytewidth, h, strategy, []);
    } else if strategy <= LFS_BRUTE_FORCE {
      types := FilterAdaptive(out, o, input, p, linebytes, bytewidth, h, strategy, settings.zlib);
    } else if strategy == LFS_PREDEFINED {
      types := FilterGiven(out, o, input, p, linebytes, bytewidth, h, strategy, settings.predefined);
    } else {
      return UNKNOWN_STRATEGY, types;
    }
    error := 0;
  }

  /**
    What filtering leaves for unfiltering: with valid types, the image; with an invalid
    one, an error.
   */
  lemma FilterUnfilters(now: seq<byte>, before: seq<byte>, o: nat, image: seq<byte>, n: nat, bytewidth: nat, types: seq<byte>)
    requires Rows(now, before, o, image, n, bytewidth, types)
    ensures var h := |types|;
            && Times(n, h) <= |image| && o + Times(n + 1, h) <= |now|
            && UnfilteredImage(now[o..o + Times(n + 1, h)], n, bytewidth, h)
               == if AllValid(types) then Some(image[..Times(n, h)]) else None
  {
    hide UnfilteredImage, FilteredImage, Times;
    var h := |types|;
    var data := now[o..o + Times(n + 1, h)];
    if AllValid(types) {
      UnfilterFilterImage(image, n, bytewidth, types, h);
    } else {
      var y :| 0 <= y < h && types[y] > 4;
      assert TypeAt(data, n, h, y) == types[y];
      assert SomeInvalid(data, n, h, h);
      UnfilterFails(data, n, bytewidth, h, h);
    }
  }
}
