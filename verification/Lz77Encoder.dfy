/**
  The LZ77 encoder: a circular window with hash chains over three bytes and over
  runs of zeros, lazy matching, and the skipping of zeros both runs begin with.
 */
module Lz77Encoder {
  import opened Bits
  import opened Lz77
  import opened Modular

  const HASH_NUM_VALUES: nat := 65536

  /** From position `q` on there are `z` zero bytes. */
  ghost predicate ZerosAt(data: seq<byte>, q: nat, z: nat) {
    q + z <= |data| && forall k :: q <= k < q + z ==> data[k] == 0
  }

  /** Slot `w` of the window holds position `at[w]`, the last visited one that belongs there. */
  ghost predicate WindowOk(at: seq<nat>, v: nat) {
    |at| > 0 && forall w :: 0 <= w < |at| && w < v ==> SlotHolds(at[w], w, v, |at|)
  }

  ghost predicate SlotHolds(q: nat, w: nat, v: nat, windowsize: nat)
    requires windowsize > 0
  {
    q < v <= q + windowsize && q % windowsize == w
  }

  /** Visiting the next position replaces the oldest one in its slot. */
  lemma VisitNext(at: seq<nat>, v: nat)
    requires WindowOk(at, v)
    ensures v % |at| < |at| && WindowOk(at[v % |at| := v], v + 1)
  {
    var w, at' := v % |at|, at[v % |at| := v];
    forall u | 0 <= u < |at'| && u < v + 1
      ensures SlotHolds(at'[u], u, v + 1, |at'|)
    {
      if u != w {
        if u == v {
          SmallMod(v, |at|);
        }
        assert SlotHolds(at[u], u, v, |at|);
        AddModulus(at[u], |at|);
      }
    }
  }

  /** Entering the next position, or the last one again. */
  lemma EnterPosition(at: seq<nat>, v: nat, pos: nat)
    requires WindowOk(at, v) && (pos == v || pos + 1 == v)
    ensures pos % |at| < |at| && pos % |at| <= pos && WindowOk(at[pos % |at| := pos], pos + 1)
  {
    if pos == v {
      VisitNext(at, v);
    } else {
      var w := pos % |at|;
      SlotOfLast(at, v);
      assert at[w := pos] == at;
    }
    ModAtMost(pos, |at|);
  }

  lemma ModAtMost(a: nat, m: nat)
    requires m > 0
    ensures a % m <= a
  {
    var q := a / m;
    assert a == m * q + a % m;
    assert m * q >= 0;
  }

  lemma SlotOfLast(at: seq<nat>, v: nat)
    requires WindowOk(at, v) && v > 0
    ensures at[(v - 1) % |at|] == v - 1
  {
    var m, w := |at|, (v - 1) % |at|;
    ModAtMost(v - 1, m);
    var q := at[w];
    assert SlotHolds(q, w, v, m);
    var i, j := q / m, (v - 1) / m;
    assert q == m * i + w && v - 1 == m * j + w;
    MulSub(m, j, i);
    NoWrap(m, j - i, v - 1 - q, 0);
  }

  /** The circular distance between slots is the distance between positions. */
  lemma OffsetIsDistance(at: seq<nat>, pos: nat, slot: nat)
    requires WindowOk(at, pos + 1) && slot < |at| && slot < pos + 1
    ensures var wpos := pos % |at|;
            var offset := if slot <= wpos then wpos - slot else wpos - slot + |at|;
            offset <= pos && pos - offset == at[slot] && offset < |at|
  {
    var m, wpos := |at|, pos % |at|;
    var q := at[slot];
    assert SlotHolds(q, slot, pos + 1, m);
    var offset := if slot <= wpos then wpos - slot else wpos - slot + m;
    var i, j := q / m, pos / m;
    assert q == m * i + slot && pos == m * j + wpos;
    MulSub(m, j, i);
    if slot <= wpos {
      assert m * (j - i) == (pos - q) - offset;
      NoWrap(m, j - i, pos - q, offset);
    } else {
      MulSub(m, j - i, 1);
      assert m * (j - i - 1) == (pos - q) - offset;
      NoWrap(m, j - i - 1, pos - q, offset);
    }
  }

  /** A hash of the next three bytes, or of fewer at the end. */
  function GetHash(data: seq<byte>, size: nat, pos: nat): (h: nat)
    requires size <= |data|
    ensures h < HASH_NUM_VALUES
  {
    if pos + 2 < size then
      ((data[pos] as bv16) ^ ((data[pos + 1] as bv16) << 4) ^ ((data[pos + 2] as bv16) << 8)) as nat
    else if pos + 1 < size then
      ((data[pos] as bv16) ^ ((data[pos + 1] as bv16) << 8)) as nat
    else if pos < size then
      data[pos]
    else
      0
  }

  /** The number of zero bytes at a position, as far as a match could use them. */
  method CountZeros(data: seq<byte>, size: nat, pos: nat) returns (count: nat)
    requires pos <= size <= |data|
    ensures count <= MAX_MATCH && ZerosAt(data[..size], pos, count)
    ensures count == MAX_MATCH || pos + count == size || data[pos + count] != 0
  {
    var end := if pos + MAX_MATCH > size then size else pos + MAX_MATCH;
    var p := pos;
    while p != end && data[p] == 0
      invariant pos <= p <= end
      invariant ZerosAt(data[..size], pos, p - pos)
      decreases end - p
    {
      p := p + 1;
    }
    count := p - pos;
  }

  /** How many zeros are known at the next position, given what is known at this or the previous one. */
  method UpdateZeros(data: seq<byte>, insize: nat, pos: nat, hashval: nat, numzeros: nat) returns (r: nat)
    requires pos < insize <= |data| && numzeros <= MAX_MATCH
    requires ZerosAt(data[..insize], pos, numzeros) || (pos > 0 && ZerosAt(data[..insize], pos - 1, numzeros))
    ensures r <= MAX_MATCH && ZerosAt(data[..insize], pos, r)
  {
    r := numzeros;
    if hashval == 0 {
      if numzeros == 0 {
        r := CountZeros(data, insize, pos);
      } else if pos + numzeros > insize || data[pos + numzeros - 1] != 0 {
        r := numzeros - 1;
      }
    } else {
      r := 0;
    }
  }

  /** The byte at `pos` and those after it up to some end repeat those at an earlier position. */
  method ExtendMatch(data: seq<byte>, pos: nat, back: nat, skip: nat, last: nat) returns (length: nat)
    requires back < pos && pos + skip <= last <= |data|
    requires Repeats(data, pos, pos + skip, pos - back)
    ensures skip <= length && pos + length <= last && Repeats(data, pos, pos + length, pos - back)
    ensures pos + length == last || data[back + length] != data[pos + length]
  {
    var foreptr, backptr := pos + skip, back + skip;
    while foreptr != last && data[backptr] == data[foreptr]
      invariant pos + skip <= foreptr <= last && backptr == foreptr - (pos - back)
      invariant Repeats(data, pos, foreptr, pos - back)
      decreases last - foreptr
    {
      backptr := backptr + 1;
      foreptr := foreptr + 1;
    }
    length := foreptr - pos;
  }

  /** Two runs of zeros agree as far as both go. */
  lemma ZerosRepeat(data: seq<byte>, pos: nat, back: nat, skip: nat, z: nat, y: nat)
    requires back < pos && ZerosAt(data, pos, z) && ZerosAt(data, back, y) && skip <= z && skip <= y
    ensures Repeats(data, pos, pos + skip, pos - back)
  {
  }

  /** A match the decoder can follow, and that could not be longer, or none. */
  ghost predicate MatchOk(data: seq<byte>, insize: nat, pos: nat, length: nat, offset: nat, windowsize: nat) {
    length > 0 ==>
      && length <= MAX_MATCH && pos + length <= insize <= |data|
      && 1 <= offset < windowsize && offset <= pos && Repeats(data, pos, pos + length, offset)
      && Maximal(data, insize, pos + length, length, offset)
  }

  /** A match that ends at `e` could not be longer. */
  ghost predicate Maximal(data: seq<byte>, insize: nat, e: nat, length: nat, offset: nat) {
    e == insize || length == 258 || (offset <= e < |data| && data[e] != data[e - offset])
  }

  class Hash {
    const windowsize: nat
    const head: array<int>   // hash value to slot, or -1
    const chain: array<nat>  // slot to an earlier slot with the same hash value
    const val: array<int>    // slot to hash value
    const headz: array<int>  // the same for runs of zeros
    const chainz: array<nat>
    const zeros: array<nat>  // slot to length of the run of zeros there
    ghost var visited: nat   // positions below this one are in the window
    ghost var at: seq<nat>   // slot to the last visited position there

    ghost predicate Shape()
      reads this
    {
      && windowsize > 0
      && head.Length == HASH_NUM_VALUES && headz.Length == MAX_MATCH + 1
      && chain.Length == val.Length == chainz.Length == zeros.Length == windowsize == |at|
      && head != headz && head != val && headz != val
      && chain != chainz && chain != zeros && chainz != zeros
    }

    /** Links lead to visited slots, and the runs of zeros recorded there are real. */
    ghost predicate Valid(data: seq<byte>)
      reads this, head, chain, val, headz, chainz, zeros
    {
      && Shape() && visited <= |data| && WindowOk(at, visited)
      && HeadsOk(head[..], visited, windowsize) && HeadsOk(headz[..], visited, windowsize)
      && LinksOk(chain[..], visited) && LinksOk(chainz[..], visited)
      && RunsOk(data, zeros[..], at, visited)
    }

    constructor (windowsize: nat)
      ensures this.windowsize == windowsize && visited == 0
      ensures windowsize > 0 ==> forall data :: Valid(data)
      ensures fresh(head) && fresh(chain) && fresh(val) && fresh(headz) && fresh(chainz) && fresh(zeros)
    {
      this.windowsize := windowsize;
      head := new int[HASH_NUM_VALUES](i => -1);
      val := new int[windowsize](i => -1);
      chain := new nat[windowsize](i => i);  // its own index marks an unused entry
      zeros := new nat[windowsize](i => 0);
      headz := new int[MAX_MATCH + 1](i => -1);
      chainz := new nat[windowsize](i => i);
      visited := 0;
      at := seq(windowsize, i => 0);
    }

    /**
      Enters a position into both chains: the next one, or the last one again.
     */
    method UpdateHashChain(data: seq<byte>, pos: nat, wpos: nat, hashval: nat, numzeros: nat)
      requires Valid(data) && pos < |data| && (pos == visited || pos + 1 == visited)
      requires wpos == pos % windowsize && hashval < HASH_NUM_VALUES
      requires numzeros <= MAX_MATCH && ZerosAt(data, pos, numzeros)
      modifies this`visited, this`at, head, chain, val, headz, chainz, zeros
      ensures Valid(data) && visited == pos + 1
    {
      hide WindowOk, HeadsOk, LinksOk, RunsOk;
      EnterPosition(at, visited, pos);
      LinkStep(head[..], chain[..], visited, pos, wpos, hashval);
      LinkStep(headz[..], chainz[..], visited, pos, wpos, numzeros);
      RunsStep(data, zeros[..], at, visited, pos, numzeros);
      val[wpos] := hashval;
      Link(head, chain, hashval, wpos);
      zeros[wpos] := numzeros;
      Link(headz, chainz, numzeros, wpos);
      at := at[wpos := pos];
      visited := pos + 1;
    }
  }

  /** Empties the chains a position was just entered into; it will be entered again. */
  method Forget(hash: Hash, data: seq<byte>, hashval: nat, numzeros: nat)
    requires hash.Valid(data) && hashval < HASH_NUM_VALUES && numzeros <= MAX_MATCH
    modifies hash.head, hash.headz
    ensures hash.Valid(data)
  {
    hash.head[hashval] := -1;
    hash.headz[numzeros] := -1;
  }

  /** Puts a slot at the front of the chain for a value. */
  method Link(head: array<int>, chain: array<nat>, value: nat, wpos: nat)
    requires value < head.Length && wpos < chain.Length && (head[value] != -1 ==> head[value] >= 0)
    modifies head, chain
    ensures head[..] == old(head[..])[value := wpos]
    ensures chain[..] == old(chain[..])[wpos := if old(head[value]) != -1 then old(head[value]) else old(chain[wpos])]
  {
    if head[value] != -1 {
      chain[wpos] := head[value];
    }
    head[value] := wpos;
  }

  lemma LinkStep(head: seq<int>, chain: seq<nat>, v: nat, pos: nat, wpos: nat, value: nat)
    requires HeadsOk(head, v, |chain|) && LinksOk(chain, v) && (pos == v || pos + 1 == v)
    requires wpos < |chain| && wpos <= pos && value < |head|
    ensures head[value] != -1 ==> head[value] >= 0
    ensures HeadsOk(head[value := wpos], pos + 1, |chain|)
    ensures LinksOk(chain[wpos := if head[value] != -1 then head[value] else chain[wpos]], pos + 1)
  {
  }

  lemma RunsStep(data: seq<byte>, zeros: seq<nat>, at: seq<nat>, v: nat, pos: nat, z: nat)
    requires |zeros| == |at| > 0 && RunsOk(data, zeros, at, v) && WindowOk(at, v) && (pos == v || pos + 1 == v)
    requires z <= MAX_MATCH && ZerosAt(data, pos, z)
    ensures pos % |at| < |at| && RunsOk(data, zeros[pos % |at| := z], at[pos % |at| := pos], pos + 1)
  {
    var w := pos % |at|;
    var zeros', at' := zeros[w := z], at[w := pos];
    forall u | 0 <= u < |at'| && u < pos + 1
      ensures zeros'[u] <= MAX_MATCH && ZerosAt(data, at'[u], zeros'[u])
    {
      if u != w && u == pos {
        SmallMod(pos, |at|);
      }
    }
  }

  ghost predicate HeadsOk(head: seq<int>, visited: nat, windowsize: nat) {
    forall h :: 0 <= h < |head| ==> head[h] == -1 || (0 <= head[h] < windowsize && head[h] < visited)
  }

  ghost predicate LinksOk(chain: seq<nat>, visited: nat) {
    forall w :: 0 <= w < |chain| ==> chain[w] < |chain| && (chain[w] == w || chain[w] < visited)
  }

  ghost predicate RunsOk(data: seq<byte>, zeros: seq<nat>, at: seq<nat>, visited: nat)
    requires |zeros| == |at|
  {
    forall w :: 0 <= w < |zeros| && w < visited ==> zeros[w] <= MAX_MATCH && ZerosAt(data, at[w], zeros[w])
  }

  /** The earlier position that a visited slot stands for, and the zeros known there. */
  lemma SlotFacts(hash: Hash, data: seq<byte>, pos: nat, slot: nat)
    requires hash.Valid(data) && hash.visited == pos + 1 && slot < hash.windowsize && slot < pos + 1
    ensures var wpos := pos % hash.windowsize;
            var offset := if slot <= wpos then wpos - slot else wpos - slot + hash.windowsize;
            && offset <= pos && offset < hash.windowsize
            && ZerosAt(data, pos - offset, hash.zeros[slot])
    ensures hash.chain[slot] < hash.windowsize && hash.chain[slot] < pos + 1
    ensures hash.chainz[slot] < hash.windowsize && hash.chainz[slot] < pos + 1
  {
    OffsetIsDistance(hash.at, pos, slot);
    assert LinksOk(hash.chain[..], pos + 1) && hash.chain[..][slot] == hash.chain[slot];
    assert LinksOk(hash.chainz[..], pos + 1) && hash.chainz[..][slot] == hash.chainz[slot];
    assert RunsOk(data, hash.zeros[..], hash.at, pos + 1) && hash.zeros[..][slot] == hash.zeros[slot];
  }

  /** The length of the match with the position a slot stands for. */
  method MatchAt(hash: Hash, data: seq<byte>, insize: nat, pos: nat, numzeros: nat, hashpos: nat, currentOffset: nat)
    returns (length: nat)
    requires hash.Valid(data) && hash.visited == pos + 1 && hashpos < hash.windowsize && hashpos < pos + 1
    requires pos < insize <= |data| && numzeros <= MAX_MATCH && ZerosAt(data[..insize], pos, numzeros)
    requires var wpos := pos % hash.windowsize;
             currentOffset == (if hashpos <= wpos then wpos - hashpos else wpos - hashpos + hash.windowsize) > 0
    ensures MatchOk(data, insize, pos, length, currentOffset, hash.windowsize)
    ensures NoLonger(data, insize, pos, length, currentOffset)
  {
    SlotFacts(hash, data, pos, hashpos);
    hide Hash.Valid;
    var last := if insize < pos + MAX_MATCH then insize else pos + MAX_MATCH;
    var skip := 0;
    if numzeros >= 3 {
      skip := hash.zeros[hashpos];
      if skip > numzeros {
        skip := numzeros;
      }
      ZerosRepeat(data, pos, pos - currentOffset, skip, numzeros, hash.zeros[hashpos]);
    }
    length := ExtendMatch(data, pos, pos - currentOffset, skip, last);
  }

  /**
    Follows the hash chain, or the chain of equal zero runs, to the longest match
    for a position.
   */
  method FindMatch(hash: Hash, data: seq<byte>, insize: nat, pos: nat, hashval: nat, numzeros: nat,
                   nicematch: nat, maxchainlength: nat)
    returns (length: nat, offset: nat, ghost tried: seq<nat>)
    requires hash.Valid(data) && hash.visited == pos + 1
    requires pos < insize <= |data| && numzeros <= MAX_MATCH && ZerosAt(data[..insize], pos, numzeros)
    ensures MatchOk(data, insize, pos, length, offset, hash.windowsize)
    ensures BestOf(data, insize, pos, length, offset, tried)
    ensures maxchainlength > 0 ==> FirstTried(hash.chain[..], pos % hash.windowsize, tried)
  {
    var wpos := pos % hash.windowsize;
    tried := [];
    EnterPosition(hash.at, pos + 1, pos);
    SlotFacts(hash, data, pos, wpos);
    hide Hash.Valid, WindowOk, ZerosAt, Repeats, BestOf, NoLonger, MatchOk, SlotOffset, FirstTried;
    NothingTried(data, insize, pos);
    length, offset := 0, 0;
    ghost var links := hash.chain[..];
    var hashpos: nat := hash.chain[wpos];
    var chainlength, prevOffset := 0, 0;
    while chainlength < maxchainlength
      invariant hashpos < hash.windowsize && hashpos < pos + 1
      invariant MatchOk(data, insize, pos, length, offset, hash.windowsize)
      invariant BestOf(data, insize, pos, length, offset, tried)
      invariant chainlength == 0 ==> hashpos == links[wpos] && prevOffset == 0 && tried == []
      invariant chainlength > 0 ==> FirstTried(links, wpos, tried)
      decreases maxchainlength - chainlength
    {
      chainlength := chainlength + 1;
      SlotFacts(hash, data, pos, hashpos);
      var currentOffset := if hashpos <= wpos then wpos - hashpos else wpos - hashpos + hash.windowsize;
      OffsetOfFirst(links, wpos, tried, hashpos, currentOffset);
      if currentOffset < prevOffset {
        break;
      }
      prevOffset := currentOffset;
      if currentOffset > 0 {
        var currentLength := MatchAt(hash, data, insize, pos, numzeros, hashpos, currentOffset);
        TryOne(data, insize, pos, length, offset, tried, currentLength, currentOffset, hash.windowsize);
        FirstOrLater(links, wpos, tried, currentOffset, chainlength == 1);
        tried := tried + [currentOffset];
        if currentLength > length {
          length, offset := currentLength, currentOffset;
          if currentLength >= nicematch {
            break;
          }
        }
      }
      if hashpos == hash.chain[hashpos] {
        break;
      }
      if numzeros >= 3 && length > numzeros {
        hashpos := hash.chainz[hashpos];
        if hash.zeros[hashpos] != numzeros {
          break;
        }
      } else {
        hashpos := hash.chain[hashpos];
        if hash.val[hashpos] != hashval {
          break;
        }
      }
    }
  }

  /** How far back the first position is that the chain leads to; zero if there is none. */
  function SlotOffset(chain: seq<nat>, wpos: nat): int
    requires wpos < |chain|
  {
    if chain[wpos] <= wpos then wpos - chain[wpos] else wpos - chain[wpos] + |chain|
  }

  ghost predicate FirstTried(chain: seq<nat>, wpos: nat, tried: seq<nat>) {
    wpos < |chain| && (SlotOffset(chain, wpos) > 0 ==> tried != [] && tried[0] == SlotOffset(chain, wpos))
  }

  lemma OffsetOfFirst(chain: seq<nat>, wpos: nat, tried: seq<nat>, hashpos: nat, current: int)
    requires wpos < |chain| && current == if hashpos <= wpos then wpos - hashpos else wpos - hashpos + |chain|
    ensures hashpos == chain[wpos] ==> SlotOffset(chain, wpos) == current
    ensures hashpos == chain[wpos] && current <= 0 ==> FirstTried(chain, wpos, tried)
  {
  }

  lemma FirstOrLater(chain: seq<nat>, wpos: nat, tried: seq<nat>, current: nat, first: bool)
    requires wpos < |chain|
    requires if first then tried == [] && SlotOffset(chain, wpos) == current else FirstTried(chain, wpos, tried)
    ensures FirstTried(chain, wpos, tried + [current])
  {
  }

  /** The bytes so far back do not repeat for longer. */
  ghost predicate NoLonger(data: seq<byte>, insize: nat, pos: nat, length: nat, offset: nat) {
    pos + length >= insize || length >= 258 || insize > |data| || offset > pos || !Repeats(data, pos, pos + length + 1, offset)
  }

  /** Of the distances tried, the one found is among them, and nothing tried gives a longer one. */
  ghost predicate BestOf(data: seq<byte>, insize: nat, pos: nat, length: nat, offset: nat, tried: seq<nat>) {
    && (length > 0 ==> offset in tried)
    && forall k :: 0 <= k < |tried| ==> NoLonger(data, insize, pos, length, tried[k])
  }

  lemma NothingTried(data: seq<byte>, insize: nat, pos: nat)
    ensures BestOf(data, insize, pos, 0, 0, []) && forall windowsize :: MatchOk(data, insize, pos, 0, 0, windowsize)
  {
  }

  lemma LongerStill(data: seq<byte>, insize: nat, pos: nat, length: nat, more: nat, offset: nat)
    requires NoLonger(data, insize, pos, length, offset) && length <= more
    ensures NoLonger(data, insize, pos, more, offset)
  {
  }

  lemma TryOne(data: seq<byte>, insize: nat, pos: nat, length: nat, offset: nat, tried: seq<nat>, more: nat, current: nat,
               windowsize: nat)
    requires BestOf(data, insize, pos, length, offset, tried) && MatchOk(data, insize, pos, more, current, windowsize)
    requires NoLonger(data, insize, pos, more, current)
    ensures more > length ==> BestOf(data, insize, pos, more, current, tried + [current])
    ensures more <= length ==> BestOf(data, insize, pos, length, offset, tried + [current])
  {
    hide NoLonger, MatchOk;
    forall k | 0 <= k < |tried|
      ensures more > length ==> NoLonger(data, insize, pos, more, tried[k])
    {
      if more > length {
        LongerStill(data, insize, pos, length, more, tried[k]);
      }
    }
    if more <= length {
      LongerStill(data, insize, pos, more, length, current);
    }
  }

  // ----- the encoder loop

  /** The tokens stand for the bytes from `inpos` up to `e`. */
  ghost predicate TokensUpTo(data: seq<byte>, inpos: nat, tokens: seq<Token>, e: nat) {
    && inpos <= e <= |data|
    && ValidTokens(tokens) && Expandable(tokens, inpos)
    && Expand(tokens, data[..inpos]) == data[..e]
  }

  lemma NoTokens(data: seq<byte>, inpos: nat)
    requires inpos <= |data|
    ensures TokensUpTo(data, inpos, [], inpos) && ValidTokens([]) && CodesOf([]) == []
  {
  }

  lemma EmitLiteral(data: seq<byte>, inpos: nat, tokens: seq<Token>, e: nat)
    requires TokensUpTo(data, inpos, tokens, e) && e < |data|
    ensures TokensUpTo(data, inpos, tokens + [Literal(data[e])], e + 1) && ValidTokens(tokens + [Literal(data[e])])
    ensures CodesOf(tokens + [Literal(data[e])]) == CodesOf(tokens) + [data[e]]
  {
    hide Expand, Expandable, CodesOf;
    ExpandAppend(tokens, Literal(data[e]), data[..inpos]);
    CodesAppend(tokens, Literal(data[e]));
    assert data[..e] + [data[e]] == data[..e + 1];
  }

  lemma EmitMatch(data: seq<byte>, insize: nat, inpos: nat, tokens: seq<Token>, e: nat, length: nat, offset: nat, windowsize: nat)
    requires TokensUpTo(data, inpos, tokens, e) && insize <= |data|
    requires length >= 3 && windowsize <= MAX_DISTANCE && MatchOk(data, insize, e, length, offset, windowsize)
    ensures TokensUpTo(data, inpos, tokens + [Match(length, offset)], e + length)
    ensures ValidTokens(tokens + [Match(length, offset)])
    ensures CodesOf(tokens + [Match(length, offset)]) == CodesOf(tokens) + Codes(Match(length, offset))
  {
    hide Expand, Expandable, CodesOf, Codes, CopyMatch, Repeats;
    CopyMatchIs(data, e, offset, length);
    ExpandAppend(tokens, Match(length, offset), data[..inpos]);
    CodesAppend(tokens, Match(length, offset));
  }

  /** Enters the positions covered by a match into the hash chains. */
  method SkipMatch(hash: Hash, data: seq<byte>, insize: nat, start: nat, length: nat, numzeros0: nat)
    returns (numzeros: nat)
    requires length >= 3 && start + length <= insize <= |data|
    requires hash.Valid(data) && (hash.visited == start + 1 || hash.visited == start + 2)
    requires numzeros0 <= MAX_MATCH && ZerosAt(data[..insize], hash.visited - 1, numzeros0)
    modifies hash, hash.head, hash.chain, hash.val, hash.headz, hash.chainz, hash.zeros
    ensures hash.Valid(data) && hash.visited == start + length
    ensures numzeros <= MAX_MATCH && ZerosAt(data[..insize], hash.visited - 1, numzeros)
  {
    hide Hash.Valid, ZerosAt;
    numzeros := numzeros0;
    var pos := start;
    for i := 1 to length
      invariant hash.Valid(data) && pos == start + i - 1
      invariant hash.visited == pos + 1 || (i == 1 && hash.visited == pos + 2)
      invariant numzeros <= MAX_MATCH && ZerosAt(data[..insize], hash.visited - 1, numzeros)
    {
      pos := pos + 1;
      var hashval;
      numzeros, hashval := VisitPosition(hash, data, insize, pos, numzeros);
    }
  }

  lemma ZerosOfPrefix(data: seq<byte>, insize: nat, q: nat, z: nat)
    requires insize <= |data| && ZerosAt(data[..insize], q, z)
    ensures ZerosAt(data, q, z)
  {
    forall k | q <= k < q + z
      ensures data[k] == 0
    {
      assert data[..insize][k] == 0;
    }
  }

  /** Hashes a position and enters it, updating the count of zeros there. */
  method VisitPosition(hash: Hash, data: seq<byte>, insize: nat, pos: nat, numzeros: nat)
    returns (r: nat, hashval: nat)
    requires hash.Valid(data) && pos < insize <= |data| && (hash.visited == pos || hash.visited == pos + 1)
    requires numzeros <= MAX_MATCH
    requires hash.visited > 0 ==> ZerosAt(data[..insize], hash.visited - 1, numzeros)
    requires hash.visited == 0 ==> numzeros == 0
    modifies hash, hash.head, hash.chain, hash.val, hash.headz, hash.chainz, hash.zeros
    ensures hash.Valid(data) && hash.visited == pos + 1
    ensures r <= MAX_MATCH && ZerosAt(data[..insize], pos, r) && hashval < HASH_NUM_VALUES
  {
    NoZeros(data[..insize], pos);
    hide Hash.Valid, ZerosAt;
    hashval := GetHash(data, insize, pos);
    r := UpdateZeros(data, insize, pos, hashval, numzeros);
    ZerosOfPrefix(data, insize, pos, r);
    hash.UpdateHashChain(data, pos, pos % hash.windowsize, hashval, r);
  }

  lemma NoZeros(data: seq<byte>, pos: nat)
    requires pos <= |data|
    ensures ZerosAt(data, pos, 0)
  {
  }

  /** n & (n - 1) is zero. */
  predicate IsPowerOfTwo(n: nat) {
    n == 1 || (n > 0 && n % 2 == 0 && IsPowerOfTwo(n / 2))
  }

  const BAD_WINDOW_SIZE: nat := 60
  const WINDOW_NOT_POWER_OF_TWO: nat := 90

  /** Whether the window size is usable, as an error code. */
  function WindowError(windowsize: nat): nat {
    if windowsize == 0 || windowsize > MAX_DISTANCE then BAD_WINDOW_SIZE
    else if !IsPowerOfTwo(windowsize) then WINDOW_NOT_POWER_OF_TWO
    else 0
  }

  /** What lazy matching has found at the previous position. */
  ghost predicate LazyOk(data: seq<byte>, insize: nat, pos: nat, lazy: bool, lazylength: nat, lazyoffset: nat, windowsize: nat) {
    lazy ==> pos > 0 && lazylength >= 3 && MatchOk(data, insize, pos - 1, lazylength, lazyoffset, windowsize)
  }

  lemma OffsetInWindow(data: seq<byte>, insize: nat, pos: nat, length: nat, offset: nat, windowsize: nat)
    requires MatchOk(data, insize, pos, length, offset, windowsize)
    ensures length > 0 ==> 1 <= offset < windowsize && length <= MAX_MATCH && pos + length <= insize
  {
  }

  /** A match that is taken: within the window, as long as it can be, and long enough for its distance. */
  ghost predicate WorthTaking(data: seq<byte>, insize: nat, e: nat, length: nat, distance: nat, windowsize: nat,
                              minmatch: nat) {
    && distance < windowsize && 3 <= length && minmatch <= length && (distance > 4096 ==> length > 3)
    && Maximal(data, insize, e, length, distance)
  }

  /** All matches of tokens that end at `e` are worth taking. */
  ghost predicate WellChosen(data: seq<byte>, insize: nat, e: nat, tokens: seq<Token>, windowsize: nat, minmatch: nat)
    decreases |tokens|
  {
    tokens == []
    || (var last := |tokens| - 1;
        match tokens[last]
        case Literal(_) => e >= 1 && WellChosen(data, insize, e - 1, tokens[..last], windowsize, minmatch)
        case Match(length, distance) =>
          && e >= length && WorthTaking(data, insize, e, length, distance, windowsize, minmatch)
          && WellChosen(data, insize, e - length, tokens[..last], windowsize, minmatch))
  }

  lemma OneTokenMore(data: seq<byte>, insize: nat, e: nat, tokens: seq<Token>, token: Token, windowsize: nat, minmatch: nat)
    requires WellChosen(data, insize, e, tokens, windowsize, minmatch)
    ensures var e' := e + if token.Literal? then 1 else token.length;
            (token.Match? ==> WorthTaking(data, insize, e', token.length, token.distance, windowsize, minmatch)) ==>
              WellChosen(data, insize, e', tokens + [token], windowsize, minmatch)
  {
    hide WorthTaking;
    assert (tokens + [token])[..|tokens|] == tokens;
  }

  /** The tokens, and the codes of them, for the bytes from `inpos` up to `e`. */
  ghost predicate Written(data: seq<byte>, insize: nat, inpos: nat, tokens: seq<Token>, out: seq<nat>, e: nat,
                          windowsize: nat, minmatch: nat) {
    && TokensUpTo(data, inpos, tokens, e) && out == CodesOf(tokens)
    && WellChosen(data, insize, e, tokens, windowsize, minmatch)
  }

  lemma WriteLiteral(data: seq<byte>, insize: nat, inpos: nat, tokens: seq<Token>, out: seq<nat>, e: nat, windowsize: nat,
                     minmatch: nat)
    requires Written(data, insize, inpos, tokens, out, e, windowsize, minmatch) && e < |data|
    ensures Written(data, insize, inpos, tokens + [Literal(data[e])], out + [data[e]], e + 1, windowsize, minmatch)
  {
    hide TokensUpTo, CodesOf, WellChosen, WorthTaking;
    OneTokenMore(data, insize, e, tokens, Literal(data[e]), windowsize, minmatch);
    EmitLiteral(data, inpos, tokens, e);
  }

  lemma WriteMatch(data: seq<byte>, insize: nat, inpos: nat, tokens: seq<Token>, out: seq<nat>, e: nat,
                   length: nat, offset: nat, windowsize: nat, minmatch: nat)
    requires Written(data, insize, inpos, tokens, out, e, windowsize, minmatch) && insize <= |data|
    requires length >= 3 && windowsize <= MAX_DISTANCE && MatchOk(data, insize, e, length, offset, windowsize)
    requires minmatch <= length && !(length == 3 && offset > 4096)
    ensures var t := Match(length, offset);
            Written(data, insize, inpos, tokens + [t], out + Codes(t), e + length, windowsize, minmatch) && ValidTokens([t])
  {
    hide TokensUpTo, CodesOf, Codes, Repeats, WellChosen, Maximal;
    EmitMatch(data, insize, inpos, tokens, e, length, offset, windowsize);
    OneTokenMore(data, insize, e, tokens, Match(length, offset), windowsize, minmatch);
  }

  /** Writes a match, or a literal if the match is too short, and enters the positions of the match. */
  method WriteToken(hash: Hash, data: seq<byte>, inpos: nat, insize: nat, windowsize: nat, minmatch: nat,
                    length: nat, offset: nat, pos0: nat, numzeros0: nat, out0: seq<nat>, ghost tokens0: seq<Token>)
    returns (pos: nat, numzeros: nat, out: seq<nat>, ghost tokens: seq<Token>)
    requires pos0 < insize <= |data| && 0 < windowsize <= MAX_DISTANCE && hash.windowsize == windowsize
    requires MatchOk(data, insize, pos0, length, offset, windowsize)
    requires Written(data, insize, inpos, tokens0, out0, pos0, windowsize, minmatch)
    requires hash.Valid(data) && (hash.visited == pos0 + 1 || (hash.visited == pos0 + 2 && length >= 3))
    requires hash.visited <= insize
    requires numzeros0 <= MAX_MATCH && ZerosAt(data[..insize], hash.visited - 1, numzeros0)
    modifies hash, hash.head, hash.chain, hash.val, hash.headz, hash.chainz, hash.zeros
    ensures pos0 < pos <= insize && Written(data, insize, inpos, tokens, out, pos, windowsize, minmatch)
    ensures hash.Valid(data) && (hash.visited == pos || hash.visited == pos + 1) && hash.visited <= insize
    ensures numzeros <= MAX_MATCH && ZerosAt(data[..insize], hash.visited - 1, numzeros)
  {
    hide MatchOk, Hash.Valid, ZerosAt, Written, Codes;
    OffsetInWindow(data, insize, pos0, length, offset, windowsize);  // so error 86 cannot arise
    if length < 3 || length < minmatch || (length == 3 && offset > 4096) {
      WriteLiteral(data, insize, inpos, tokens0, out0, pos0, windowsize, minmatch);
      tokens, out, numzeros, pos := tokens0 + [Literal(data[pos0])], out0 + [data[pos0]], numzeros0, pos0;
    } else {
      WriteMatch(data, insize, inpos, tokens0, out0, pos0, length, offset, windowsize, minmatch);
      tokens := tokens0 + [Match(length, offset)];
      out := AddLengthDistance(out0, length, offset);
      numzeros := SkipMatch(hash, data, insize, pos0, length, numzeros0);
      pos := pos0 + length - 1;
    }
    pos := pos + 1;
  }

  /**
    Tokens for the bytes from `inpos` to `insize`.  The positions before `inpos` are
    those the hash chains know already, from earlier blocks.
   */
  method EncodeLZ77(hash: Hash, data: seq<byte>, inpos: nat, insize: nat, windowsize: nat,
                    minmatch: nat, nicematch0: nat, lazymatching: bool)
    returns (error: nat, out: seq<nat>, ghost tokens: seq<Token>)
    requires inpos <= insize <= |data| && hash.windowsize == windowsize
    requires WindowError(windowsize) == 0 ==> hash.Valid(data) && hash.visited == inpos
    modifies hash, hash.head, hash.chain, hash.val, hash.headz, hash.chainz, hash.zeros
    ensures error == WindowError(windowsize)
    ensures error == 0 ==> hash.Valid(data) && hash.visited == insize
    ensures error == 0 ==> TokensUpTo(data, inpos, tokens, insize) && out == CodesOf(tokens)
    ensures error == 0 ==> WellChosen(data, insize, insize, tokens, windowsize, minmatch)
  {
    hide IsPowerOfTwo, MatchOk;
    hide Hash.Valid, ZerosAt, TokensUpTo, CodesOf, Codes, WellChosen;
    out, tokens := [], [];
    error := WindowError(windowsize);
    if error != 0 {
      return;
    }
    var maxchainlength := if windowsize >= 8192 then windowsize else windowsize / 8;
    var maxlazymatch := if windowsize >= 8192 then MAX_MATCH else 64;
    var nicematch := if nicematch0 > MAX_MATCH then MAX_MATCH else nicematch0;
    NoTokens(data, inpos);
    NothingChosen(data, insize, inpos, windowsize, minmatch);
    NoZerosYet(data[..insize], inpos);
    var numzeros: nat := 0;
    var lazy, lazylength: nat, lazyoffset: nat := false, 0, 0;
    var pos := inpos;
    while pos < insize
      invariant inpos <= pos <= insize && hash.Valid(data) && hash.visited <= insize
      invariant hash.visited == pos || (hash.visited == pos + 1 && !lazy)
      invariant numzeros <= MAX_MATCH
      invariant if hash.visited == 0 then numzeros == 0 else ZerosAt(data[..insize], hash.visited - 1, numzeros)
      invariant LazyOk(data, insize, pos, lazy, lazylength, lazyoffset, windowsize) && (lazy ==> inpos < pos < insize)
      invariant Written(data, insize, inpos, tokens, out, if lazy then pos - 1 else pos, windowsize, minmatch)
      invariant lazy ==> lazymatching
      decreases 2 * (insize - pos) + if lazy then 1 else 0
    {
      hide Written;
      var hashval;
      numzeros, hashval := VisitPosition(hash, data, insize, pos, numzeros);
      var length, offset, _ := FindMatch(hash, data, insize, pos, hashval, numzeros, nicematch, maxchainlength);
      OffsetInWindow(data, insize, pos, length, offset, windowsize);
      if lazymatching {
        if !lazy && length >= 3 && length <= maxlazymatch && length < MAX_MATCH {
          lazy, lazylength, lazyoffset := true, length, offset;
          pos := pos + 1;
          continue;  // try the next byte
        }
        if lazy {
          lazy := false;
          assert pos > 0;  // a lazy match is never pending at position 0, so error 81 cannot arise
          if length > lazylength + 1 {
            WriteLiteral(data, insize, inpos, tokens, out, pos - 1, windowsize, minmatch);
            tokens := tokens + [Literal(data[pos - 1])];
            out := out + [data[pos - 1]];
          } else {
            length, offset := lazylength, lazyoffset;
            Forget(hash, data, hashval, numzeros);
            pos := pos - 1;
          }
        }
      }
      pos, numzeros, out, tokens :=
        WriteToken(hash, data, inpos, insize, windowsize, minmatch, length, offset, pos, numzeros, out, tokens);
    }
  }

  lemma NothingChosen(data: seq<byte>, insize: nat, e: nat, windowsize: nat, minmatch: nat)
    ensures WellChosen(data, insize, e, [], windowsize, minmatch)
  {
  }

  lemma NoZerosYet(data: seq<byte>, pos: nat)
    requires pos <= |data|
    ensures pos > 0 ==> ZerosAt(data, pos - 1, 0)
  {
  }
}
