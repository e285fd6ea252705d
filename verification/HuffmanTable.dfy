/**
  The two-level decode table.  A slot of the head table stands for the streams
  whose first nine bits, read as a number, are its index; a slot of a secondary
  table stands for a head index and some more bits.  A table is right when every
  slot holds a symbol whose code begins every stream the slot stands for.
 */
module HuffmanTable {
  import opened Bits
  import opened HuffmanCode

  const FIRST_BITS: nat := 9
  const HEAD_SIZE: nat := 512

  /** Marks a table entry that no symbol uses. */
  const UNUSED: nat := 16

  /** The code of `n` as the bit reader sees it: the first bit is the least significant. */
  function Reversed(lengths: seq<nat>, n: nat): (r: nat)
    requires n < |lengths|
    ensures r < Pow2(lengths[n])
  {
    Lsb(CodeBits(lengths, n))
  }

  /** The code of `n` begins the stream whose next bits are the number `x`. */
  ghost predicate Hits(lengths: seq<nat>, n: nat, x: nat) {
    n < |lengths| && lengths[n] > 0 && Low(x, lengths[n]) == Reversed(lengths, n)
  }

  lemma HitsIsMatch(lengths: seq<nat>, n: nat, w: seq<bit>)
    requires Bounded(lengths) && |w| == MAX_CODE_BITS
    ensures Hits(lengths, n, Lsb(w)) <==> Matches(lengths, n, w)
  {
    if n < |lengths| {
      LsbSplit(w, lengths[n]);
      if Lsb(w[..lengths[n]]) == Reversed(lengths, n) {
        LsbInjective(w[..lengths[n]], CodeBits(lengths, n));
      }
    }
  }

  /** Completeness and prefix freedom in terms of numbers. */
  lemma SomeHit(lengths: seq<nat>, x: nat) returns (n: nat)
    requires Bounded(lengths) && Complete(lengths)
    ensures Hits(lengths, n, x)
  {
    var w := LsbBits(x, MAX_CODE_BITS);
    n := SomeMatch(lengths, w);
    HitsIsMatch(lengths, n, w);
    LsbOfLsbBits(x, MAX_CODE_BITS);
    LowLow(x, MAX_CODE_BITS, lengths[n]);
  }

  lemma UniqueHit(lengths: seq<nat>, n: nat, m: nat, x: nat)
    requires Bounded(lengths) && Hits(lengths, n, x) && Hits(lengths, m, x)
    requires Decodable(lengths)
    ensures n == m
  {
    if Complete(lengths) {
      var w := LsbBits(x, MAX_CODE_BITS);
      LsbOfLsbBits(x, MAX_CODE_BITS);
      LowLow(x, MAX_CODE_BITS, lengths[n]);
      LowLow(x, MAX_CODE_BITS, lengths[m]);
      HitsIsMatch(lengths, n, w);
      HitsIsMatch(lengths, m, w);
      PrefixFree(lengths, n, m, w);
    } else {
      OnlyOne(lengths, n, m);
    }
  }

  lemma {:induction false} PresentSymbol(lengths: seq<nat>, n: nat)
    requires n < |lengths| && lengths[n] > 0
    ensures Present(lengths) >= 1
  {
    if n < |lengths| - 1 {
      PresentSymbol(lengths[..|lengths| - 1], n);
    }
  }

  lemma {:induction false} OnlyOne(lengths: seq<nat>, n: nat, m: nat)
    requires Present(lengths) < 2
    requires n < |lengths| && m < |lengths| && lengths[n] > 0 && lengths[m] > 0
    ensures n == m
  {
    var front := lengths[..|lengths| - 1];
    if n < |front| && m < |front| {
      OnlyOne(front, n, m);
    } else if n < |front| {
      PresentSymbol(front, n);
    } else if m < |front| {
      PresentSymbol(front, m);
    }
  }

  // ----- layout

  /** Size of the secondary table behind a head entry of `l` bits. */
  function Extra(l: nat): nat {
    if l > FIRST_BITS then Pow2(l - FIRST_BITS) else 0
  }

  /** Where the secondary table of head index `i` starts. */
  function Start(maxlens: seq<nat>, i: nat): nat
    requires i <= |maxlens|
  {
    if i == 0 then HEAD_SIZE else Start(maxlens, i - 1) + Extra(maxlens[i - 1])
  }

  /** The head index and the further bits that each slot behind the head table stands for. */
  ghost function Slots(maxlens: seq<nat>, i: nat): (slots: seq<(nat, nat)>)
    requires i <= |maxlens|
    ensures |slots| == Start(maxlens, i)
  {
    if i == 0 then seq(HEAD_SIZE, k => (0, 0))
    else Slots(maxlens, i - 1) + seq(Extra(maxlens[i - 1]), s => (i - 1, s))
  }

  lemma {:induction false} SlotAt(maxlens: seq<nat>, i: nat, s: nat, top: nat)
    requires i < top <= |maxlens| && s < Extra(maxlens[i])
    ensures Start(maxlens, i) + s < Start(maxlens, top) && Start(maxlens, i) + s >= HEAD_SIZE
    ensures Slots(maxlens, top)[Start(maxlens, i) + s] == (i, s)
  {
    if i < top - 1 {
      SlotAt(maxlens, i, s, top - 1);
    } else {
      StartGrows(maxlens, i);
    }
  }

  lemma {:induction false} StartGrows(maxlens: seq<nat>, i: nat)
    requires i <= |maxlens|
    ensures Start(maxlens, i) >= HEAD_SIZE
  {
    if i > 0 {
      StartGrows(maxlens, i - 1);
    }
  }

  lemma {:induction false} SlotOf(maxlens: seq<nat>, k: nat, top: nat)
    requires top <= |maxlens| && HEAD_SIZE <= k < Start(maxlens, top)
    ensures var (i, s) := Slots(maxlens, top)[k];
            i < top && s < Extra(maxlens[i]) && k == Start(maxlens, i) + s
  {
    StartGrows(maxlens, top - 1);
    if k < Start(maxlens, top - 1) {
      SlotOf(maxlens, k, top - 1);
    }
  }

  /** For each head index, the longest code beginning with it, and a symbol that has it. */
  ghost predicate LongestBehind(lengths: seq<nat>, n: nat, maxlens: seq<nat>, owner: seq<nat>) {
    && n <= |lengths| && |maxlens| == |owner| == HEAD_SIZE
    && (forall m :: 0 <= m < n && lengths[m] > FIRST_BITS ==>
          LongestCovers(lengths, maxlens, m))
    && (forall i :: 0 <= i < HEAD_SIZE && maxlens[i] > 0 ==>
          && FIRST_BITS < maxlens[i] <= MAX_CODE_BITS
          && owner[i] < n && lengths[owner[i]] == maxlens[i]
          && Low(Reversed(lengths, owner[i]), FIRST_BITS) == i)
  }

  ghost predicate LongestCovers(lengths: seq<nat>, maxlens: seq<nat>, m: nat)
    requires m < |lengths| && |maxlens| == HEAD_SIZE
  {
    var i := Low(Reversed(lengths, m), FIRST_BITS);
    i < HEAD_SIZE && lengths[m] <= maxlens[i]
  }

  // ----- contents

  /** Symbol `m` belongs into slot `k`. */
  ghost predicate Covers(lengths: seq<nat>, slots: seq<(nat, nat)>, k: nat, m: nat)
    requires m < |lengths| && HEAD_SIZE <= |slots| && k < |slots|
  {
    if k < HEAD_SIZE then
      0 < lengths[m] <= FIRST_BITS && Low(k, lengths[m]) == Reversed(lengths, m)
    else
      && lengths[m] > FIRST_BITS
      && Low(Reversed(lengths, m), FIRST_BITS) == slots[k].0
      && Low(slots[k].1, lengths[m] - FIRST_BITS) == Shr(Reversed(lengths, m), FIRST_BITS)
  }

  /** The number of the copy of symbol `m` in slot `k`: the bits there beyond its code. */
  ghost function Copy(lengths: seq<nat>, slots: seq<(nat, nat)>, k: nat, m: nat): nat
    requires m < |lengths| && HEAD_SIZE <= |slots| && k < |slots|
  {
    if k < HEAD_SIZE then Shr(k, lengths[m])
    else Shr(slots[k].1, if lengths[m] > FIRST_BITS then lengths[m] - FIRST_BITS else 0)
  }

  ghost predicate IsPointer(maxlens: seq<nat>, k: nat) {
    k < HEAD_SIZE == |maxlens| && maxlens[k] > FIRST_BITS
  }

  /** What one slot may hold once the symbols below `n` and `j` copies of `n` are in place. */
  ghost predicate SlotOk(lengths: seq<nat>, maxlens: seq<nat>, slots: seq<(nat, nat)>,
                         n: nat, j: nat, tlen: seq<nat>, tval: seq<nat>, k: nat)
    requires HEAD_SIZE == |maxlens| <= |slots| == |tlen| == |tval| && k < |slots|
  {
    if IsPointer(maxlens, k) then tlen[k] == maxlens[k] && tval[k] == Start(maxlens, k)
    else
      || tlen[k] == UNUSED
      || (&& tval[k] < |lengths| && tlen[k] == lengths[tval[k]] && Covers(lengths, slots, k, tval[k])
          && (tval[k] < n || (tval[k] == n && Copy(lengths, slots, k, n) < j)))
  }

  /** Symbol `m` has reached slot `k`. */
  ghost predicate Reached(lengths: seq<nat>, maxlens: seq<nat>, tlen: seq<nat>, tval: seq<nat>, k: nat, m: nat)
    requires |tlen| == |tval| && k < |tlen|
  {
    tlen[k] != UNUSED && (k < HEAD_SIZE ==> !IsPointer(maxlens, k) && tval[k] == m)
  }

  /** Every symbol below `n`, and the first `j` copies of `n`, are where they belong. */
  ghost predicate AllReached(lengths: seq<nat>, maxlens: seq<nat>, slots: seq<(nat, nat)>,
                             n: nat, j: nat, tlen: seq<nat>, tval: seq<nat>)
    requires HEAD_SIZE == |maxlens| <= |slots| == |tlen| == |tval|
  {
    forall m, k ::
      0 <= m < |lengths| && 0 <= k < |slots| && Covers(lengths, slots, k, m)
      && (m < n || (m == n && Copy(lengths, slots, k, m) < j)) ==>
        Reached(lengths, maxlens, tlen, tval, k, m)
  }

  ghost predicate Filled(lengths: seq<nat>, maxlens: seq<nat>, owner: seq<nat>, slots: seq<(nat, nat)>,
                         n: nat, j: nat, tlen: seq<nat>, tval: seq<nat>)
  {
    && LongestBehind(lengths, |lengths|, maxlens, owner)
    && slots == Slots(maxlens, HEAD_SIZE)
    && HEAD_SIZE <= |slots| == |tlen| == |tval|
    && (forall k :: 0 <= k < |slots| ==> SlotOk(lengths, maxlens, slots, n, j, tlen, tval, k))
    && AllReached(lengths, maxlens, slots, n, j, tlen, tval)
  }

  // ----- looking up

  /** The symbol and code length found for a stream whose next bits are the number `x`. */
  ghost function Lookup(tlen: seq<nat>, tval: seq<nat>, x: nat): (nat, nat)
    requires |tlen| == |tval| >= HEAD_SIZE
  {
    LowSmallIndex(x);
    var i := Low(x, FIRST_BITS);
    if tlen[i] <= FIRST_BITS then (tval[i], tlen[i])
    else
      var k := tval[i] + Low(Shr(x, FIRST_BITS), tlen[i] - FIRST_BITS);
      if k < |tlen| then (tval[k], tlen[k]) else (0, 0)
  }

  lemma LowSmallIndex(x: nat)
    ensures Low(x, FIRST_BITS) < HEAD_SIZE
  {
    SplitAt(x, FIRST_BITS);
    Pow2Values();
  }

  /** The table answers every stream with the symbol whose code it begins with. */
  ghost predicate TableOk(lengths: seq<nat>, tlen: seq<nat>, tval: seq<nat>) {
    && |tlen| == |tval| >= HEAD_SIZE
    && forall x: nat :: LookupOk(lengths, tlen, tval, x)
  }

  ghost predicate LookupOk(lengths: seq<nat>, tlen: seq<nat>, tval: seq<nat>, x: nat)
    requires |tlen| == |tval| >= HEAD_SIZE
  {
    var i := (LowSmallIndex(x); Low(x, FIRST_BITS));
    var (value, length) := Lookup(tlen, tval, x);
    && 0 < tlen[i] <= MAX_CODE_BITS
    && (tlen[i] > FIRST_BITS ==>
          && tval[i] + Low(Shr(x, FIRST_BITS), tlen[i] - FIRST_BITS) < |tlen|
          && FIRST_BITS < length <= MAX_CODE_BITS)
    && (|| (Hits(lengths, value, x) && length == lengths[value])
        || (value == INVALID_SYMBOL && forall n: nat :: !Hits(lengths, n, x)))
  }

  // ----- from slots to streams

  lemma {:induction false} LowParts(x: nat, a: nat, b: nat)
    ensures Low(x, a + b) == Low(x, a) + Shl(Low(Shr(x, a), b), a)
  {
    if a > 0 {
      LowParts(x / 2, a - 1, b);
    }
  }

  /** A long code begins the stream when its head index and its remaining bits agree. */
  lemma LongHit(lengths: seq<nat>, n: nat, x: nat)
    requires n < |lengths| && lengths[n] > FIRST_BITS
    ensures Hits(lengths, n, x) <==>
              && Low(x, FIRST_BITS) == Low(Reversed(lengths, n), FIRST_BITS)
              && Low(Shr(x, FIRST_BITS), lengths[n] - FIRST_BITS) == Shr(Reversed(lengths, n), FIRST_BITS)
  {
    var r, b := Reversed(lengths, n), lengths[n] - FIRST_BITS;
    LowParts(x, FIRST_BITS, b);
    SplitAt(r, FIRST_BITS);
    SplitAt(x, FIRST_BITS);
    if Hits(lengths, n, x) {
      SplitUnique(Low(Shr(x, FIRST_BITS), b), Low(x, FIRST_BITS), FIRST_BITS);
    }
  }

  /** The head slot of a stream is covered by exactly the short codes that begin the stream. */
  lemma HeadCover(lengths: seq<nat>, slots: seq<(nat, nat)>, n: nat, x: nat)
    requires n < |lengths| && 0 < lengths[n] <= FIRST_BITS && HEAD_SIZE <= |slots|
    ensures Low(x, FIRST_BITS) < HEAD_SIZE
    ensures Covers(lengths, slots, Low(x, FIRST_BITS), n) <==> Hits(lengths, n, x)
  {
    LowSmallIndex(x);
    LowLow(x, FIRST_BITS, lengths[n]);
  }

  /** The slot behind a pointer that a stream leads to. */
  ghost function TailSlot(maxlens: seq<nat>, x: nat): nat
    requires |maxlens| == HEAD_SIZE
  {
    LowSmallIndex(x);
    var i := Low(x, FIRST_BITS);
    Start(maxlens, i) + if maxlens[i] > FIRST_BITS then Low(Shr(x, FIRST_BITS), maxlens[i] - FIRST_BITS) else 0
  }

  lemma TailSlotIs(maxlens: seq<nat>, x: nat)
    requires |maxlens| == HEAD_SIZE
    requires (LowSmallIndex(x); maxlens[Low(x, FIRST_BITS)] > FIRST_BITS)
    ensures var i := Low(x, FIRST_BITS);
            && i < HEAD_SIZE
            && HEAD_SIZE <= TailSlot(maxlens, x) < Start(maxlens, HEAD_SIZE)
            && Slots(maxlens, HEAD_SIZE)[TailSlot(maxlens, x)] == (i, Low(Shr(x, FIRST_BITS), maxlens[i] - FIRST_BITS))
  {
    LowSmallIndex(x);
    var i := Low(x, FIRST_BITS);
    SplitAt(Shr(x, FIRST_BITS), maxlens[i] - FIRST_BITS);
    SlotAt(maxlens, i, Low(Shr(x, FIRST_BITS), maxlens[i] - FIRST_BITS), HEAD_SIZE);
  }

  /** The tail slot of a stream is covered by exactly the long codes that begin the stream. */
  lemma TailCover(lengths: seq<nat>, maxlens: seq<nat>, n: nat, x: nat)
    requires n < |lengths| && |maxlens| == HEAD_SIZE && lengths[n] > FIRST_BITS
    requires (LowSmallIndex(x); maxlens[Low(x, FIRST_BITS)] > FIRST_BITS)
    requires LongestCovers(lengths, maxlens, n)
    ensures HEAD_SIZE <= TailSlot(maxlens, x) < |Slots(maxlens, HEAD_SIZE)|
    ensures Covers(lengths, Slots(maxlens, HEAD_SIZE), TailSlot(maxlens, x), n) <==> Hits(lengths, n, x)
  {
    TailSlotIs(maxlens, x);
    LongHit(lengths, n, x);
    var i := Low(x, FIRST_BITS);
    if Low(Reversed(lengths, n), FIRST_BITS) == i {
      LowLow(Shr(x, FIRST_BITS), maxlens[i] - FIRST_BITS, lengths[n] - FIRST_BITS);
    }
  }

  // ----- what a filled table says about the lengths

  lemma Reaches(lengths: seq<nat>, maxlens: seq<nat>, owner: seq<nat>, slots: seq<(nat, nat)>,
                tlen: seq<nat>, tval: seq<nat>, k: nat, m: nat)
    requires Filled(lengths, maxlens, owner, slots, |lengths|, 0, tlen, tval)
    requires m < |lengths| && k < |slots| && Covers(lengths, slots, k, m)
    ensures Reached(lengths, maxlens, tlen, tval, k, m)
  {
  }

  lemma LongestOf(lengths: seq<nat>, maxlens: seq<nat>, owner: seq<nat>, m: nat)
    requires LongestBehind(lengths, |lengths|, maxlens, owner)
    requires m < |lengths| && lengths[m] > FIRST_BITS
    ensures LongestCovers(lengths, maxlens, m)
  {
  }

  /** Nothing begins the stream that leads to an unused slot. */
  lemma UnusedHead(lengths: seq<nat>, maxlens: seq<nat>, owner: seq<nat>, slots: seq<(nat, nat)>,
                   tlen: seq<nat>, tval: seq<nat>, x: nat, n: nat)
    requires Filled(lengths, maxlens, owner, slots, |lengths|, 0, tlen, tval)
    requires (LowSmallIndex(x); tlen[Low(x, FIRST_BITS)] == UNUSED)
    ensures !Hits(lengths, n, x)
  {
    LowSmallIndex(x);
    var i := Low(x, FIRST_BITS);
    assert SlotOk(lengths, maxlens, slots, |lengths|, 0, tlen, tval, i);
    if Hits(lengths, n, x) {
      if lengths[n] <= FIRST_BITS {
        HeadCover(lengths, slots, n, x);
        Reaches(lengths, maxlens, owner, slots, tlen, tval, i, n);
      } else {
        LongHit(lengths, n, x);
        LongestOf(lengths, maxlens, owner, n);
      }
    }
  }

  lemma UnusedTail(lengths: seq<nat>, maxlens: seq<nat>, owner: seq<nat>, slots: seq<(nat, nat)>,
                   tlen: seq<nat>, tval: seq<nat>, x: nat, n: nat)
    requires Filled(lengths, maxlens, owner, slots, |lengths|, 0, tlen, tval)
    requires (LowSmallIndex(x); IsPointer(maxlens, Low(x, FIRST_BITS)))
    requires (TailSlotIs(maxlens, x); tlen[TailSlot(maxlens, x)] == UNUSED)
    ensures !Hits(lengths, n, x)
  {
    TailSlotIs(maxlens, x);
    LowSmallIndex(x);
    if Hits(lengths, n, x) {
      if lengths[n] <= FIRST_BITS {
        HeadCover(lengths, slots, n, x);
        Reaches(lengths, maxlens, owner, slots, tlen, tval, Low(x, FIRST_BITS), n);
      } else {
        LongestOf(lengths, maxlens, owner, n);
        TailCover(lengths, maxlens, n, x);
        Reaches(lengths, maxlens, owner, slots, tlen, tval, TailSlot(maxlens, x), n);
      }
    }
  }

  /** The lengths of a used slot and the symbol in it. */
  lemma UsedSlot(lengths: seq<nat>, maxlens: seq<nat>, owner: seq<nat>, slots: seq<(nat, nat)>,
                 tlen: seq<nat>, tval: seq<nat>, k: nat)
    requires Bounded(lengths) && Filled(lengths, maxlens, owner, slots, |lengths|, 0, tlen, tval)
    requires k < |slots| && tlen[k] != UNUSED && !IsPointer(maxlens, k)
    ensures tval[k] < |lengths| && tlen[k] == lengths[tval[k]] && Covers(lengths, slots, k, tval[k])
    ensures 0 < tlen[k] <= MAX_CODE_BITS && (k < HEAD_SIZE <==> tlen[k] <= FIRST_BITS)
  {
    assert SlotOk(lengths, maxlens, slots, |lengths|, 0, tlen, tval, k);
  }

  /** The last step: unused entries answer with the invalid symbol. */
  ghost predicate Finished(tlen: seq<nat>, tval: seq<nat>, tlen': seq<nat>, tval': seq<nat>) {
    && |tlen| == |tval| == |tlen'| == |tval'|
    && forall k :: 0 <= k < |tlen| ==>
         if tlen[k] == UNUSED then
           tlen'[k] == (if k < HEAD_SIZE then 1 else FIRST_BITS + 1) && tval'[k] == INVALID_SYMBOL
         else
           tlen'[k] == tlen[k] && tval'[k] == tval[k]
  }

  lemma FinishedHead(lengths: seq<nat>, maxlens: seq<nat>, owner: seq<nat>, slots: seq<(nat, nat)>,
                     tlen: seq<nat>, tval: seq<nat>, tlen': seq<nat>, tval': seq<nat>, x: nat)
    requires Bounded(lengths) && Filled(lengths, maxlens, owner, slots, |lengths|, 0, tlen, tval)
    requires Finished(tlen, tval, tlen', tval')
    requires (LowSmallIndex(x); !IsPointer(maxlens, Low(x, FIRST_BITS)))
    ensures LookupOk(lengths, tlen', tval', x)
  {
    LowSmallIndex(x);
    var i := Low(x, FIRST_BITS);
    if tlen[i] == UNUSED {
      forall n: nat
        ensures !Hits(lengths, n, x)
      {
        UnusedHead(lengths, maxlens, owner, slots, tlen, tval, x, n);
      }
    } else {
      UsedSlot(lengths, maxlens, owner, slots, tlen, tval, i);
      HeadCover(lengths, slots, tval[i], x);
    }
  }

  lemma PointerLookup(maxlens: seq<nat>, tlen: seq<nat>, tval: seq<nat>, x: nat)
    requires |maxlens| == HEAD_SIZE <= |tlen| == |tval| == Start(maxlens, HEAD_SIZE)
    requires (LowSmallIndex(x); IsPointer(maxlens, Low(x, FIRST_BITS)))
    requires (LowSmallIndex(x); var i := Low(x, FIRST_BITS); tlen[i] == maxlens[i] && tval[i] == Start(maxlens, i))
    ensures HEAD_SIZE <= TailSlot(maxlens, x) < |tlen|
    ensures Lookup(tlen, tval, x) == (tval[TailSlot(maxlens, x)], tlen[TailSlot(maxlens, x)])
  {
    TailSlotIs(maxlens, x);
  }

  lemma FinishedTail(lengths: seq<nat>, maxlens: seq<nat>, owner: seq<nat>, slots: seq<(nat, nat)>,
                     tlen: seq<nat>, tval: seq<nat>, tlen': seq<nat>, tval': seq<nat>, x: nat)
    requires Bounded(lengths) && Filled(lengths, maxlens, owner, slots, |lengths|, 0, tlen, tval)
    requires Finished(tlen, tval, tlen', tval')
    requires (LowSmallIndex(x); IsPointer(maxlens, Low(x, FIRST_BITS)))
    ensures LookupOk(lengths, tlen', tval', x)
  {
    LowSmallIndex(x);
    assert SlotOk(lengths, maxlens, slots, |lengths|, 0, tlen, tval, Low(x, FIRST_BITS));
    PointerLookup(maxlens, tlen', tval', x);
    var k := TailSlot(maxlens, x);
    if tlen[k] == UNUSED {
      forall n: nat
        ensures !Hits(lengths, n, x)
      {
        UnusedTail(lengths, maxlens, owner, slots, tlen, tval, x, n);
      }
    } else {
      UsedSlot(lengths, maxlens, owner, slots, tlen, tval, k);
      LongestOf(lengths, maxlens, owner, tval[k]);
      TailCover(lengths, maxlens, tval[k], x);
    }
  }

  lemma FinishedLookup(lengths: seq<nat>, maxlens: seq<nat>, owner: seq<nat>, slots: seq<(nat, nat)>,
                       tlen: seq<nat>, tval: seq<nat>, tlen': seq<nat>, tval': seq<nat>, x: nat)
    requires Bounded(lengths) && Filled(lengths, maxlens, owner, slots, |lengths|, 0, tlen, tval)
    requires Finished(tlen, tval, tlen', tval')
    ensures LookupOk(lengths, tlen', tval', x)
  {
    LowSmallIndex(x);
    if IsPointer(maxlens, Low(x, FIRST_BITS)) {
      FinishedTail(lengths, maxlens, owner, slots, tlen, tval, tlen', tval', x);
    } else {
      FinishedHead(lengths, maxlens, owner, slots, tlen, tval, tlen', tval', x);
    }
  }

  /** A table without unused entries comes from a complete code. */
  lemma FullIsComplete(lengths: seq<nat>, maxlens: seq<nat>, owner: seq<nat>, slots: seq<(nat, nat)>,
                       tlen: seq<nat>, tval: seq<nat>)
    requires Bounded(lengths) && |lengths| <= 1024
    requires Filled(lengths, maxlens, owner, slots, |lengths|, 0, tlen, tval)
    requires forall k :: 0 <= k < |tlen| ==> tlen[k] != UNUSED
    ensures Complete(lengths)
  {
    if Kraft(lengths, MAX_CODE_BITS) < Pow2(MAX_CODE_BITS) {
      var w := Incomplete(lengths);
      FinishedLookup(lengths, maxlens, owner, slots, tlen, tval, tlen, tval, Lsb(w));
      HitsIsMatch(lengths, Lookup(tlen, tval, Lsb(w)).0, w);
      NoInvalid(lengths, maxlens, owner, slots, tlen, tval, Lsb(w));
    } else if Kraft(lengths, MAX_CODE_BITS) > Pow2(MAX_CODE_BITS) {
      var n, m := Oversubscribed(lengths);
      Collision(lengths, maxlens, owner, slots, tlen, tval, n, m);
    }
  }

  lemma NoInvalid(lengths: seq<nat>, maxlens: seq<nat>, owner: seq<nat>, slots: seq<(nat, nat)>,
                  tlen: seq<nat>, tval: seq<nat>, x: nat)
    requires Bounded(lengths) && |lengths| <= 1024
    requires Filled(lengths, maxlens, owner, slots, |lengths|, 0, tlen, tval)
    requires forall k :: 0 <= k < |tlen| ==> tlen[k] != UNUSED
    ensures Lookup(tlen, tval, x).0 < |lengths|
  {
    LowSmallIndex(x);
    var i := Low(x, FIRST_BITS);
    if IsPointer(maxlens, i) {
      assert SlotOk(lengths, maxlens, slots, |lengths|, 0, tlen, tval, i);
      PointerLookup(maxlens, tlen, tval, x);
      UsedSlot(lengths, maxlens, owner, slots, tlen, tval, TailSlot(maxlens, x));
    } else {
      UsedSlot(lengths, maxlens, owner, slots, tlen, tval, i);
    }
  }

  /** A short code that begins another code cannot have reached its slots. */
  lemma Collision(lengths: seq<nat>, maxlens: seq<nat>, owner: seq<nat>, slots: seq<(nat, nat)>,
                  tlen: seq<nat>, tval: seq<nat>, n: nat, m: nat)
    requires Bounded(lengths) && Filled(lengths, maxlens, owner, slots, |lengths|, 0, tlen, tval)
    requires n < |lengths| && m < |lengths| && n != m && 0 < lengths[n] <= FIRST_BITS && lengths[n] <= lengths[m]
    ensures CodeBits(lengths, m)[..lengths[n]] != CodeBits(lengths, n)
  {
    var x := Reversed(lengths, m);
    LsbSplit(CodeBits(lengths, m), lengths[n]);
    LowSmall(x, lengths[m]);
    if CodeBits(lengths, m)[..lengths[n]] == CodeBits(lengths, n) {
      HeadCover(lengths, slots, n, x);
      Reaches(lengths, maxlens, owner, slots, tlen, tval, Low(x, FIRST_BITS), n);
      if lengths[m] <= FIRST_BITS {
        HeadCover(lengths, slots, m, x);
        Reaches(lengths, maxlens, owner, slots, tlen, tval, Low(x, FIRST_BITS), m);
      } else {
        LongestOf(lengths, maxlens, owner, m);
      }
    }
  }

  /** A stream that leads to a given slot. */
  lemma StreamTo(maxlens: seq<nat>, k: nat) returns (x: nat)
    requires |maxlens| == HEAD_SIZE && k < Start(maxlens, HEAD_SIZE)
    ensures Low(x, FIRST_BITS) < HEAD_SIZE
    ensures k < HEAD_SIZE ==> Low(x, FIRST_BITS) == k
    ensures k >= HEAD_SIZE ==> IsPointer(maxlens, Low(x, FIRST_BITS)) && TailSlot(maxlens, x) == k
  {
    Pow2Values();
    if k < HEAD_SIZE {
      x := k;
      LowSmall(k, FIRST_BITS);
    } else {
      SlotOf(maxlens, k, HEAD_SIZE);
      var (i, s) := Slots(maxlens, HEAD_SIZE)[k];
      x := i + Shl(s, FIRST_BITS);
      SplitUnique(s, i, FIRST_BITS);
      LowSmall(s, maxlens[i] - FIRST_BITS);
    }
  }

  /** A table with an unused entry does not come from a complete code. */
  lemma UnusedIsIncomplete(lengths: seq<nat>, maxlens: seq<nat>, owner: seq<nat>, slots: seq<(nat, nat)>,
                           tlen: seq<nat>, tval: seq<nat>, k: nat)
    requires Bounded(lengths) && Filled(lengths, maxlens, owner, slots, |lengths|, 0, tlen, tval)
    requires k < |slots| && tlen[k] == UNUSED
    ensures !Complete(lengths)
  {
    if Complete(lengths) {
      var x := StreamTo(maxlens, k);
      var m := SomeHit(lengths, x);
      if k < HEAD_SIZE {
        UnusedHead(lengths, maxlens, owner, slots, tlen, tval, x, m);
      } else {
        UnusedTail(lengths, maxlens, owner, slots, tlen, tval, x, m);
      }
    }
  }

  /** A short symbol that finds its slot taken is not alone in beginning some stream. */
  lemma TakenSlot(lengths: seq<nat>, maxlens: seq<nat>, owner: seq<nat>, slots: seq<(nat, nat)>,
                  n: nat, j: nat, tlen: seq<nat>, tval: seq<nat>, k: nat)
    requires Bounded(lengths) && Filled(lengths, maxlens, owner, slots, n, j, tlen, tval)
    requires n < |lengths| && k < HEAD_SIZE && Covers(lengths, slots, k, n) && Copy(lengths, slots, k, n) >= j
    requires tlen[k] != UNUSED
    ensures !Decodable(lengths)
  {
    assert SlotOk(lengths, maxlens, slots, n, j, tlen, tval, k);
    Pow2Values();
    LowSmall(k, FIRST_BITS);
    HeadCover(lengths, slots, n, k);
    if Decodable(lengths) {
      if IsPointer(maxlens, k) {
        var m := owner[k];
        var x := Reversed(lengths, m);
        LowSmall(x, lengths[m]);
        HeadCover(lengths, slots, n, x);
        UniqueHit(lengths, n, m, x);
      } else {
        var m := tval[k];
        HeadCover(lengths, slots, m, k);
        UniqueHit(lengths, n, m, k);
      }
    }
  }

  // ----- steps of the filling loops

  lemma SkipAbsent(lengths: seq<nat>, maxlens: seq<nat>, owner: seq<nat>, slots: seq<(nat, nat)>,
                   n: nat, tlen: seq<nat>, tval: seq<nat>)
    requires Filled(lengths, maxlens, owner, slots, n, 0, tlen, tval)
    requires n < |lengths| && lengths[n] == 0
    ensures Filled(lengths, maxlens, owner, slots, n + 1, 0, tlen, tval)
  {
    var n' := n + 1;
    forall k | 0 <= k < |slots|
      ensures SlotOk(lengths, maxlens, slots, n', 0, tlen, tval, k)
    {
      assert SlotOk(lengths, maxlens, slots, n, 0, tlen, tval, k);
    }
  }

  /** Moving on to the next symbol once all copies of this one are in place. */
  lemma NextSymbol(lengths: seq<nat>, maxlens: seq<nat>, owner: seq<nat>, slots: seq<(nat, nat)>,
                   n: nat, j: nat, tlen: seq<nat>, tval: seq<nat>)
    requires Filled(lengths, maxlens, owner, slots, n, j, tlen, tval) && n < |lengths|
    requires forall k :: 0 <= k < |slots| && Covers(lengths, slots, k, n) ==> Copy(lengths, slots, k, n) < j
    ensures Filled(lengths, maxlens, owner, slots, n + 1, 0, tlen, tval)
  {
    var n' := n + 1;
    forall k | 0 <= k < |slots|
      ensures SlotOk(lengths, maxlens, slots, n', 0, tlen, tval, k)
    {
      assert SlotOk(lengths, maxlens, slots, n, j, tlen, tval, k);
    }
  }

  /** Writing copy `j` of symbol `n` into the one slot it belongs to. */
  lemma PlaceCopy(lengths: seq<nat>, maxlens: seq<nat>, owner: seq<nat>, slots: seq<(nat, nat)>,
                  n: nat, j: nat, tlen: seq<nat>, tval: seq<nat>, k: nat)
    requires Filled(lengths, maxlens, owner, slots, n, j, tlen, tval) && Bounded(lengths)
    requires n < |lengths| && k < |slots| && Covers(lengths, slots, k, n) && Copy(lengths, slots, k, n) == j
    requires k < HEAD_SIZE ==> tlen[k] == UNUSED && !IsPointer(maxlens, k)
    requires forall i :: 0 <= i < |slots| && Covers(lengths, slots, i, n) && Copy(lengths, slots, i, n) == j ==> i == k
    ensures Filled(lengths, maxlens, owner, slots, n, j + 1, tlen[k := lengths[n]], tval[k := n])
  {
    var tlen', tval' := tlen[k := lengths[n]], tval[k := n];
    var j' := j + 1;
    forall i | 0 <= i < |slots|
      ensures SlotOk(lengths, maxlens, slots, n, j', tlen', tval', i)
    {
      assert SlotOk(lengths, maxlens, slots, n, j, tlen, tval, i);
    }
    forall m, i | 0 <= m < |lengths| && 0 <= i < |slots| && Covers(lengths, slots, i, m)
                  && (m < n || (m == n && Copy(lengths, slots, i, m) < j + 1))
      ensures Reached(lengths, maxlens, tlen', tval', i, m)
    {
      if m < n || Copy(lengths, slots, i, m) < j {
        assert Reached(lengths, maxlens, tlen, tval, i, m);
      }
    }
  }

  /** The `j`-th copy of a short symbol. */
  lemma ShortCopy(lengths: seq<nat>, slots: seq<(nat, nat)>, n: nat, j: nat)
    requires n < |lengths| && 0 < lengths[n] <= FIRST_BITS && HEAD_SIZE <= |slots|
    requires j < Pow2(FIRST_BITS - lengths[n])
    ensures var k := Reversed(lengths, n) + Shl(j, lengths[n]);
            && k < HEAD_SIZE && Covers(lengths, slots, k, n) && Copy(lengths, slots, k, n) == j
            && forall i :: 0 <= i < |slots| && Covers(lengths, slots, i, n) && Copy(lengths, slots, i, n) == j ==> i == k
  {
    var l := lengths[n];
    var k := Reversed(lengths, n) + Shl(j, l);
    SplitUnique(j, Reversed(lengths, n), l);
    ShlStep(j, Pow2(FIRST_BITS - l), l);
    ShlPow2(FIRST_BITS - l, l);
    Pow2Values();
    forall i: nat | i < |slots| && Covers(lengths, slots, i, n) && Copy(lengths, slots, i, n) == j
      ensures i == k
    {
      SplitAt(i, l);
    }
  }

  lemma ShortCopies(lengths: seq<nat>, slots: seq<(nat, nat)>, n: nat)
    requires n < |lengths| && 0 < lengths[n] <= FIRST_BITS && HEAD_SIZE <= |slots|
    ensures forall k :: 0 <= k < |slots| && Covers(lengths, slots, k, n) ==>
              Copy(lengths, slots, k, n) < Pow2(FIRST_BITS - lengths[n])
  {
    forall k: nat | k < |slots| && Covers(lengths, slots, k, n)
      ensures Copy(lengths, slots, k, n) < Pow2(FIRST_BITS - lengths[n])
    {
      Pow2Values();
      ShrBound(k, lengths[n], FIRST_BITS - lengths[n]);
    }
  }

  /** The `j`-th copy of a long symbol, in the secondary table its first nine bits lead to. */
  lemma LongCopy(lengths: seq<nat>, maxlens: seq<nat>, n: nat, j: nat)
    requires |maxlens| == HEAD_SIZE && n < |lengths| && lengths[n] > FIRST_BITS && LongestCovers(lengths, maxlens, n)
    requires j < Pow2(maxlens[Low(Reversed(lengths, n), FIRST_BITS)] - lengths[n])
    ensures var slots := Slots(maxlens, HEAD_SIZE);
            var k := Start(maxlens, Low(Reversed(lengths, n), FIRST_BITS))
                     + (Shr(Reversed(lengths, n), FIRST_BITS) + Shl(j, lengths[n] - FIRST_BITS));
            && HEAD_SIZE <= k < |slots| && Covers(lengths, slots, k, n) && Copy(lengths, slots, k, n) == j
            && forall i :: 0 <= i < |slots| && Covers(lengths, slots, i, n) && Copy(lengths, slots, i, n) == j ==> i == k
  {
    hide Shl, Shr, Low, Start, Slots, Reversed, Pow2;
    var slots := Slots(maxlens, HEAD_SIZE);
    var i, b, r := Low(Reversed(lengths, n), FIRST_BITS), lengths[n] - FIRST_BITS, Shr(Reversed(lengths, n), FIRST_BITS);
    var s := r + Shl(j, b);
    ShrBound(Reversed(lengths, n), FIRST_BITS, b);
    SplitUnique(j, r, b);
    ShlStep(j, Pow2(maxlens[i] - lengths[n]), b);
    ShlPow2(maxlens[i] - lengths[n], b);
    SlotAt(maxlens, i, s, HEAD_SIZE);
    forall h: nat | h < |slots| && Covers(lengths, slots, h, n) && Copy(lengths, slots, h, n) == j
      ensures h == Start(maxlens, i) + s
    {
      SlotOf(maxlens, h, HEAD_SIZE);
      SplitAt(slots[h].1, b);
    }
  }

  lemma LongCopies(lengths: seq<nat>, maxlens: seq<nat>, n: nat)
    requires |maxlens| == HEAD_SIZE && n < |lengths| && lengths[n] > FIRST_BITS && LongestCovers(lengths, maxlens, n)
    requires Start(maxlens, HEAD_SIZE) >= HEAD_SIZE
    ensures var slots := Slots(maxlens, HEAD_SIZE);
            forall k :: 0 <= k < |slots| && Covers(lengths, slots, k, n) ==>
              Copy(lengths, slots, k, n) < Pow2(maxlens[Low(Reversed(lengths, n), FIRST_BITS)] - lengths[n])
  {
    hide Shl, Shr, Low, Start, Slots, Reversed, Pow2;
    var slots := Slots(maxlens, HEAD_SIZE);
    var i := Low(Reversed(lengths, n), FIRST_BITS);
    forall k: nat | k < |slots| && Covers(lengths, slots, k, n)
      ensures Copy(lengths, slots, k, n) < Pow2(maxlens[i] - lengths[n])
    {
      SlotOf(maxlens, k, HEAD_SIZE);
      ShrBound(slots[k].1, lengths[n] - FIRST_BITS, maxlens[i] - lengths[n]);
    }
  }

  // ----- the empty table

  lemma NoneLongest(lengths: seq<nat>, maxlens: seq<nat>, owner: seq<nat>)
    requires |maxlens| == |owner| == HEAD_SIZE && forall i :: 0 <= i < HEAD_SIZE ==> maxlens[i] == 0
    ensures LongestBehind(lengths, 0, maxlens, owner)
  {
  }

  /** Accounting for one more symbol among the longest codes. */
  lemma KeepLongest(lengths: seq<nat>, n: nat, maxlens: seq<nat>, owner: seq<nat>)
    requires n < |lengths| && LongestBehind(lengths, n, maxlens, owner)
    requires lengths[n] > FIRST_BITS ==> LongestCovers(lengths, maxlens, n)
    ensures LongestBehind(lengths, n + 1, maxlens, owner)
  {
  }

  lemma RaiseLongest(lengths: seq<nat>, n: nat, maxlens: seq<nat>, owner: seq<nat>, i: nat)
    requires Bounded(lengths) && n < |lengths| && LongestBehind(lengths, n, maxlens, owner)
    requires lengths[n] > FIRST_BITS && i == Low(Reversed(lengths, n), FIRST_BITS) < HEAD_SIZE
    requires maxlens[i] < lengths[n]
    ensures LongestBehind(lengths, n + 1, maxlens[i := lengths[n]], owner[i := n])
  {
    forall m | 0 <= m < n && lengths[m] > FIRST_BITS
      ensures LongestCovers(lengths, maxlens[i := lengths[n]], m)
    {
      assert LongestCovers(lengths, maxlens, m);
    }
  }

  /** Pointers to the secondary tables, everything else unused. */
  ghost predicate LaidOut(maxlens: seq<nat>, tlen: seq<nat>, tval: seq<nat>) {
    && |maxlens| == HEAD_SIZE && |tlen| == |tval| == Start(maxlens, HEAD_SIZE)
    && forall k :: 0 <= k < |tlen| ==>
         if IsPointer(maxlens, k) then tlen[k] == maxlens[k] && tval[k] == Start(maxlens, k) else tlen[k] == UNUSED
  }

  lemma LaidOutIsFilled(lengths: seq<nat>, maxlens: seq<nat>, owner: seq<nat>, tlen: seq<nat>, tval: seq<nat>)
    requires LongestBehind(lengths, |lengths|, maxlens, owner) && LaidOut(maxlens, tlen, tval)
    ensures Filled(lengths, maxlens, owner, Slots(maxlens, HEAD_SIZE), 0, 0, tlen, tval)
  {
    StartGrows(maxlens, HEAD_SIZE);
  }

}
