/**
  Canonical Huffman codes as section 3.2.2 of RFC 1951 defines them from the
  code lengths alone, and what makes them decodable: a code whose Kraft sum is
  one is prefix-free and complete.
 */
module HuffmanCode {
  import opened Bits

  const MAX_CODE_BITS: nat := 15

  /** A symbol value too big to be one: what decoding yields when no code matches. */
  const INVALID_SYMBOL: nat := 65535

  /** How many symbols have code length `l`. */
  function Count(lengths: seq<nat>, l: nat): nat {
    if lengths == [] then 0
    else Count(lengths[..|lengths| - 1], l) + if lengths[|lengths| - 1] == l then 1 else 0
  }

  /** The code of the first symbol of length `l`. */
  function FirstCode(lengths: seq<nat>, l: nat): nat {
    if l <= 1 then 0 else 2 * (FirstCode(lengths, l - 1) + Count(lengths, l - 1))
  }

  /** Codes of one length are consecutive, in symbol order. */
  function Code(lengths: seq<nat>, n: nat): nat
    requires n < |lengths|
  {
    FirstCode(lengths, lengths[n]) + Count(lengths[..n], lengths[n])
  }

  /** The bits of a symbol's code, in the order they appear in the stream. */
  function CodeBits(lengths: seq<nat>, n: nat): (bits: seq<bit>)
    requires n < |lengths|
    ensures |bits| == lengths[n]
  {
    MsbBits(Code(lengths, n), lengths[n])
  }

  /** The Kraft sum of the codes of at most `l` bits, in units of 2^-l. */
  function Kraft(lengths: seq<nat>, l: nat): nat {
    if lengths == [] then 0
    else
      var last := lengths[|lengths| - 1];
      Kraft(lengths[..|lengths| - 1], l) + if 0 < last <= l then Pow2(l - last) else 0
  }

  ghost predicate Complete(lengths: seq<nat>) {
    Kraft(lengths, MAX_CODE_BITS) == Pow2(MAX_CODE_BITS)
  }

  ghost predicate Bounded(lengths: seq<nat>) {
    forall n :: 0 <= n < |lengths| ==> lengths[n] <= MAX_CODE_BITS
  }

  /** How many symbols have a code at all. */
  function Present(lengths: seq<nat>): nat {
    if lengths == [] then 0
    else Present(lengths[..|lengths| - 1]) + if lengths[|lengths| - 1] > 0 then 1 else 0
  }

  /** The trees DEFLATE allows: complete ones, and those of at most one symbol. */
  ghost predicate Decodable(lengths: seq<nat>) {
    Present(lengths) < 2 || Complete(lengths)
  }

  /** The code of symbol `n` is the beginning of `w`. */
  ghost predicate Matches(lengths: seq<nat>, n: nat, w: seq<bit>) {
    n < |lengths| && 0 < lengths[n] <= |w| && w[..lengths[n]] == CodeBits(lengths, n)
  }

  /** The symbol whose code the bits `w` begin with. */
  ghost function DecodeSymbol(lengths: seq<nat>, w: seq<bit>): (s: nat)
    ensures s == INVALID_SYMBOL || Matches(lengths, s, w)
  {
    if n: nat :| Matches(lengths, n, w) then n else INVALID_SYMBOL
  }

  // ----- counting

  lemma {:induction false} KraftStep(lengths: seq<nat>, l: nat)
    ensures Kraft(lengths, l + 1) == 2 * Kraft(lengths, l) + Count(lengths, l + 1)
  {
    if lengths != [] {
      KraftStep(lengths[..|lengths| - 1], l);
    }
  }

  lemma {:induction false} KraftZero(lengths: seq<nat>)
    ensures Kraft(lengths, 0) == 0
  {
    if lengths != [] {
      KraftZero(lengths[..|lengths| - 1]);
    }
  }

  /** First codes and Kraft sums are two accounts of the same thing. */
  lemma {:induction false} FirstCodeIsKraft(lengths: seq<nat>, l: nat)
    requires l > 0
    ensures FirstCode(lengths, l) == 2 * Kraft(lengths, l - 1)
    ensures FirstCode(lengths, l) + Count(lengths, l) == Kraft(lengths, l)
  {
    KraftStep(lengths, l - 1);
    if l == 1 {
      KraftZero(lengths);
    } else {
      FirstCodeIsKraft(lengths, l - 1);
    }
  }

  lemma {:induction false} CountPrefix(lengths: seq<nat>, n: nat, l: nat)
    requires n <= |lengths|
    ensures Count(lengths[..n], l) <= Count(lengths, l)
    ensures n < |lengths| && lengths[n] == l ==> Count(lengths[..n], l) < Count(lengths, l)
  {
    if n < |lengths| {
      var front := lengths[..|lengths| - 1];
      CountPrefix(front, n, l);
      assert front[..n] == lengths[..n];
      if n == |lengths| - 1 {
        assert front == lengths[..n];
      }
    } else {
      assert lengths[..n] == lengths;
    }
  }

  /** Each rank below the count belongs to some symbol of that length. */
  lemma {:induction false} NthOfLength(lengths: seq<nat>, l: nat, r: nat) returns (n: nat)
    requires r < Count(lengths, l)
    ensures n < |lengths| && lengths[n] == l && Count(lengths[..n], l) == r
  {
    var front := lengths[..|lengths| - 1];
    if r < Count(front, l) {
      n := NthOfLength(front, l, r);
      assert front[..n] == lengths[..n];
    } else {
      n := |lengths| - 1;
    }
  }

  lemma CodeBelowLevel(lengths: seq<nat>, n: nat)
    requires n < |lengths| && lengths[n] > 0
    ensures 2 * Kraft(lengths, lengths[n] - 1) <= Code(lengths, n) < Kraft(lengths, lengths[n])
  {
    FirstCodeIsKraft(lengths, lengths[n]);
    CountPrefix(lengths, n, lengths[n]);
  }

  /** Longer codes only add to the space used by shorter ones. */
  lemma {:induction false} KraftGrows(lengths: seq<nat>, l: nat, m: nat)
    requires l <= m
    ensures Shl(Kraft(lengths, l), m - l) <= Kraft(lengths, m)
  {
    if l < m {
      KraftGrows(lengths, l, m - 1);
      KraftStep(lengths, m - 1);
    }
  }

  lemma {:induction false} KraftBound(lengths: seq<nat>, l: nat, m: nat)
    requires l <= m && Kraft(lengths, m) <= Pow2(m)
    ensures Kraft(lengths, l) <= Pow2(l)
  {
    if l < m {
      KraftStep(lengths, m - 1);
      KraftBound(lengths, l, m - 1);
    }
  }

  lemma CodeFits(lengths: seq<nat>, n: nat)
    requires n < |lengths| && 0 < lengths[n] <= MAX_CODE_BITS
    requires Kraft(lengths, MAX_CODE_BITS) <= Pow2(MAX_CODE_BITS)
    ensures Code(lengths, n) < Pow2(lengths[n])
  {
    CodeBelowLevel(lengths, n);
    KraftBound(lengths, lengths[n], MAX_CODE_BITS);
  }

  // ----- prefix freedom and completeness

  /** A code matches when the number at the start of the stream lies in its interval. */
  lemma MatchIsInterval(lengths: seq<nat>, n: nat, w: seq<bit>)
    requires n < |lengths| && 0 < lengths[n] <= MAX_CODE_BITS <= |w|
    requires Code(lengths, n) < Pow2(lengths[n])
    ensures Matches(lengths, n, w) <==> Shr(Msb(w[..MAX_CODE_BITS]), MAX_CODE_BITS - lengths[n]) == Code(lengths, n)
  {
    var l := lengths[n];
    var head := w[..MAX_CODE_BITS];
    assert w[..l] == head[..l];
    MsbPrefix(head, l);
    MsbOfMsbBits(Code(lengths, n), l);
    LowSmall(Code(lengths, n), l);
    MsbBitsOfMsb(head[..l]);
  }

  /** Where the interval of a code lies among the codes of other lengths. */
  lemma CodeInterval(lengths: seq<nat>, n: nat, v: nat)
    requires n < |lengths| && 0 < lengths[n] <= MAX_CODE_BITS
    requires Shr(v, MAX_CODE_BITS - lengths[n]) == Code(lengths, n)
    ensures Shl(2 * Kraft(lengths, lengths[n] - 1), MAX_CODE_BITS - lengths[n]) <= v
    ensures v < Shl(Kraft(lengths, lengths[n]), MAX_CODE_BITS - lengths[n])
  {
    var k := MAX_CODE_BITS - lengths[n];
    CodeBelowLevel(lengths, n);
    ShrBracket(v, k, Code(lengths, n));
    ShlMono(2 * Kraft(lengths, lengths[n] - 1), Code(lengths, n), k);
    ShlMono(Code(lengths, n) + 1, Kraft(lengths, lengths[n]), k);
  }

  lemma {:induction false} LevelsOrdered(lengths: seq<nat>, l: nat, m: nat)
    requires 0 < l < m <= MAX_CODE_BITS
    ensures Shl(Kraft(lengths, l), MAX_CODE_BITS - l) <= Shl(2 * Kraft(lengths, m - 1), MAX_CODE_BITS - m)
  {
    KraftGrows(lengths, l, m - 1);
    ShlMono(Shl(Kraft(lengths, l), m - 1 - l), Kraft(lengths, m - 1), MAX_CODE_BITS - m + 1);
    ShlShl(Kraft(lengths, l), m - 1 - l, MAX_CODE_BITS - m + 1);
    ShlShl(Kraft(lengths, m - 1), 1, MAX_CODE_BITS - m);
    assert Shl(Kraft(lengths, m - 1), 1) == 2 * Kraft(lengths, m - 1);
  }

  lemma LevelsDisjoint(lengths: seq<nat>, n: nat, m: nat, v: nat)
    requires n < |lengths| && m < |lengths| && 0 < lengths[n] < lengths[m] <= MAX_CODE_BITS
    requires Shr(v, MAX_CODE_BITS - lengths[n]) == Code(lengths, n)
    ensures Shr(v, MAX_CODE_BITS - lengths[m]) != Code(lengths, m)
  {
    if Shr(v, MAX_CODE_BITS - lengths[m]) == Code(lengths, m) {
      LevelsOrdered(lengths, lengths[n], lengths[m]);
      CodeInterval(lengths, n, v);
      CodeInterval(lengths, m, v);
    }
  }

  /** No code is the beginning of another one. */
  lemma PrefixFree(lengths: seq<nat>, n: nat, m: nat, w: seq<bit>)
    requires Bounded(lengths) && Kraft(lengths, MAX_CODE_BITS) <= Pow2(MAX_CODE_BITS)
    requires |w| >= MAX_CODE_BITS && Matches(lengths, n, w) && Matches(lengths, m, w)
    ensures n == m
  {
    hide Kraft, MAX_CODE_BITS;
    var v := Msb(w[..MAX_CODE_BITS]);
    assert Shr(v, MAX_CODE_BITS - lengths[n]) == Code(lengths, n) by {
      CodeFits(lengths, n);
      MatchIsInterval(lengths, n, w);
    }
    assert Shr(v, MAX_CODE_BITS - lengths[m]) == Code(lengths, m) by {
      CodeFits(lengths, m);
      MatchIsInterval(lengths, m, w);
    }
    if lengths[n] < lengths[m] {
      LevelsDisjoint(lengths, n, m, v);
    } else if lengths[m] < lengths[n] {
      LevelsDisjoint(lengths, m, n, v);
    } else {
      RankIsSymbol(lengths, n, m);
    }
  }

  /** Two symbols of the same length have different ranks. */
  lemma RankIsSymbol(lengths: seq<nat>, n: nat, m: nat)
    requires n < |lengths| && m < |lengths| && lengths[n] == lengths[m]
    requires Count(lengths[..n], lengths[n]) == Count(lengths[..m], lengths[m])
    ensures n == m
  {
    if n < m {
      assert lengths[..m][..n] == lengths[..n];
      CountPrefix(lengths[..m], n, lengths[n]);
    } else if m < n {
      assert lengths[..n][..m] == lengths[..m];
      CountPrefix(lengths[..n], m, lengths[m]);
    }
  }

  /** The shortest length at which the number at the start of the stream is below the used space. */
  lemma {:induction false} FindLevel(lengths: seq<nat>, v: nat, top: nat) returns (l: nat)
    requires top <= MAX_CODE_BITS && Shr(v, MAX_CODE_BITS - top) < Kraft(lengths, top)
    ensures 0 < l <= top && Shr(v, MAX_CODE_BITS - l) < Kraft(lengths, l)
    ensures Kraft(lengths, l - 1) <= Shr(v, MAX_CODE_BITS - l + 1)
  {
    KraftZero(lengths);
    if Shr(v, MAX_CODE_BITS - top + 1) < Kraft(lengths, top - 1) {
      l := FindLevel(lengths, v, top - 1);
    } else {
      l := top;
    }
  }

  /** Every number below the Kraft sum lies in the interval of some code. */
  lemma SomeInterval(lengths: seq<nat>, v: nat) returns (n: nat)
    requires v < Kraft(lengths, MAX_CODE_BITS)
    ensures n < |lengths| && 0 < lengths[n] <= MAX_CODE_BITS
    ensures Shr(v, MAX_CODE_BITS - lengths[n]) == Code(lengths, n)
  {
    var l := FindLevel(lengths, v, MAX_CODE_BITS);
    var q := Shr(v, MAX_CODE_BITS - l);
    ShrShr(v, MAX_CODE_BITS - l, 1);
    assert Shr(q, 1) == q / 2;
    FirstCodeIsKraft(lengths, l);
    n := NthOfLength(lengths, l, q - FirstCode(lengths, l));
  }

  /** With a Kraft sum of one, every stream begins with some code. */
  lemma SomeMatch(lengths: seq<nat>, w: seq<bit>) returns (n: nat)
    requires Complete(lengths) && |w| >= MAX_CODE_BITS
    ensures Matches(lengths, n, w)
  {
    n := SomeInterval(lengths, Msb(w[..MAX_CODE_BITS]));
    CodeFits(lengths, n);
    MatchIsInterval(lengths, n, w);
  }

  /** Decoding the code of a symbol, whatever follows it, gives the symbol back. */
  lemma DecodeCode(lengths: seq<nat>, n: nat, w: seq<bit>)
    requires Bounded(lengths) && Complete(lengths) && |w| >= MAX_CODE_BITS
    requires Matches(lengths, n, w)
    ensures DecodeSymbol(lengths, w) == n
  {
    var s := DecodeSymbol(lengths, w);
    assert Matches(lengths, s, w);
    PrefixFree(lengths, n, s, w);
  }

  // ----- canonical order

  /** The bits `a` come before the bits `b`: at the first difference, `a` has a zero and `b` a one. */
  ghost predicate Precedes(a: seq<bit>, b: seq<bit>) {
    exists k :: 0 <= k < |a| && k < |b| && a[..k] == b[..k] && a[k] == 0 && b[k] == 1
  }

  lemma {:induction false} SmallerPrecedes(a: seq<bit>, b: seq<bit>)
    requires |a| == |b| && Msb(a) < Msb(b)
    ensures Precedes(a, b)
  {
    var last := |a| - 1;
    if Msb(a[..last]) < Msb(b[..last]) {
      SmallerPrecedes(a[..last], b[..last]);
      var k :| 0 <= k < last && a[..last][..k] == b[..last][..k] && a[..last][k] == 0 && b[..last][k] == 1;
      assert a[..k] == a[..last][..k] && b[..k] == b[..last][..k];
    } else {
      MsbBitsOfMsb(a[..last]);
      MsbBitsOfMsb(b[..last]);
      assert a[..last] == b[..last] && a[last] == 0 && b[last] == 1;
    }
  }

  lemma LaterOfLonger(lengths: seq<nat>, n: nat, m: nat)
    requires n < |lengths| && m < |lengths| && 0 < lengths[n] < lengths[m]
    ensures Code(lengths, n) < Shr(Code(lengths, m), lengths[m] - lengths[n])
  {
    var l, k := lengths[n], lengths[m] - lengths[n];
    CodeBelowLevel(lengths, n);
    CodeBelowLevel(lengths, m);
    KraftGrows(lengths, l, lengths[m] - 1);
    var x := Kraft(lengths, l);
    assert Shl(x, k) == 2 * Shl(x, k - 1) && Shl(x, k) <= Code(lengths, m);
    var q := Shr(Code(lengths, m), k);
    ShrBracket(Code(lengths, m), k, q);
    if q < x {
      ShlMono(q + 1, x, k);
    }
  }

  /**
    The two rules that define the codes, of section 3.2.2 of RFC 1951: shorter codes come before longer ones, and codes
    of one length are in the order of their symbols.
   */
  lemma Canonical(lengths: seq<nat>, n: nat, m: nat)
    requires Bounded(lengths) && Kraft(lengths, MAX_CODE_BITS) <= Pow2(MAX_CODE_BITS)
    requires n < |lengths| && m < |lengths| && lengths[n] > 0
    requires lengths[n] < lengths[m] || (lengths[n] == lengths[m] && n < m)
    ensures Precedes(CodeBits(lengths, n), CodeBits(lengths, m))
  {
    hide Kraft, FirstCode, Count, Precedes;
    var a, b := CodeBits(lengths, n), CodeBits(lengths, m);
    CodeFits(lengths, n);
    CodeFits(lengths, m);
    MsbOfMsbBits(Code(lengths, n), lengths[n]);
    LowSmall(Code(lengths, n), lengths[n]);
    MsbOfMsbBits(Code(lengths, m), lengths[m]);
    LowSmall(Code(lengths, m), lengths[m]);
    if lengths[n] < lengths[m] {
      LaterOfLonger(lengths, n, m);
      MsbPrefix(b, lengths[n]);
      SmallerPrecedes(a, b[..lengths[n]]);
      PrecedesMore(a, b, lengths[n]);
    } else {
      EarlierRank(lengths, n, m);
      SmallerPrecedes(a, b);
    }
  }

  /** And the first code is all zeros, which also settles trees of one symbol. */
  lemma CanonicalFirst(lengths: seq<nat>, n: nat, i: nat)
    requires n < |lengths| && i < lengths[n]
    requires forall m :: 0 <= m < |lengths| && lengths[m] > 0 ==> lengths[n] < lengths[m] || (lengths[n] == lengths[m] && n <= m)
    ensures CodeBits(lengths, n)[i] == 0
  {
    hide Count;
    NoShorterCode(lengths, lengths[n]);
    NoneOf(lengths[..n], lengths[n]);
    ZeroBits(lengths[n], i);
  }

  lemma {:induction false} NoneOf(lengths: seq<nat>, l: nat)
    requires forall m :: 0 <= m < |lengths| ==> lengths[m] != l
    ensures Count(lengths, l) == 0
  {
    if lengths != [] {
      NoneOf(lengths[..|lengths| - 1], l);
    }
  }

  lemma {:induction false} NoShorterCode(lengths: seq<nat>, l: nat)
    requires forall m :: 0 <= m < |lengths| && lengths[m] > 0 ==> l <= lengths[m]
    ensures FirstCode(lengths, l) == 0
    decreases l
  {
    if l > 1 {
      NoShorterCode(lengths, l - 1);
      NoneOf(lengths, l - 1);
    }
  }

  lemma {:induction false} ZeroBits(n: nat, i: nat)
    requires i < n
    ensures MsbBits(0, n)[i] == 0
  {
    if i < n - 1 {
      ZeroBits(n - 1, i);
    }
  }

  lemma PrecedesMore(a: seq<bit>, b: seq<bit>, k: nat)
    requires k <= |b| && Precedes(a, b[..k])
    ensures Precedes(a, b)
  {
    var i :| 0 <= i < |a| && i < k && a[..i] == b[..k][..i] && a[i] == 0 && b[..k][i] == 1;
    assert b[..k][..i] == b[..i];
  }

  lemma EarlierRank(lengths: seq<nat>, n: nat, m: nat)
    requires n < m < |lengths| && lengths[n] == lengths[m]
    ensures Code(lengths, n) < Code(lengths, m)
  {
    assert lengths[..m][..n] == lengths[..n];
    CountPrefix(lengths[..m], n, lengths[n]);
  }

  // ----- code lengths that do not fill the code space exactly

  /** The first length at which the codes overflow. */
  lemma {:induction false} FindOverflow(lengths: seq<nat>, top: nat) returns (l: nat)
    requires Kraft(lengths, top) > Pow2(top)
    ensures 0 < l <= top && Kraft(lengths, l - 1) <= Pow2(l - 1) && Kraft(lengths, l) > Pow2(l)
  {
    KraftZero(lengths);
    if Kraft(lengths, top - 1) > Pow2(top - 1) {
      l := FindOverflow(lengths, top - 1);
    } else {
      l := top;
    }
  }

  lemma {:induction false} MsbBitsOfZero(l: nat, k: nat)
    requires k <= l
    ensures MsbBits(0, l)[..k] == MsbBits(0, k)
  {
    if k < l {
      MsbBitsOfZero(l - 1, k);
      assert MsbBits(0, l)[..k] == MsbBits(0, l - 1)[..k];
    } else {
      assert MsbBits(0, l)[..k] == MsbBits(0, l);
    }
  }

  lemma {:induction false} MsbBitsOfPow2(l: nat)
    ensures MsbBits(Pow2(l), l) == MsbBits(0, l)
  {
    if l > 0 {
      MsbBitsOfPow2(l - 1);
    }
  }

  /** An alphabet with only long codes cannot overflow. */
  lemma {:induction false} LongCodesFit(lengths: seq<nat>)
    requires Bounded(lengths) && forall n :: 0 <= n < |lengths| ==> lengths[n] == 0 || lengths[n] > 9
    ensures Kraft(lengths, MAX_CODE_BITS) <= 32 * |lengths|
  {
    if lengths != [] {
      LongCodesFit(lengths[..|lengths| - 1]);
      var last := lengths[|lengths| - 1];
      if last > 0 {
        Pow2Mono(MAX_CODE_BITS - last, 5);
        Pow2Values();
      }
    }
  }

  /** The first code in canonical order is all zeros. */
  lemma FirstIsZero(lengths: seq<nat>, top: nat) returns (n: nat)
    requires Kraft(lengths, top) > 0
    ensures n < |lengths| && 0 < lengths[n] <= top && Code(lengths, n) == 0
    ensures forall m :: 0 <= m < |lengths| && lengths[m] > 0 ==> lengths[n] <= lengths[m]
  {
    var l := 0;
    while Kraft(lengths, l) == 0
      invariant l <= top && (l > 0 ==> Kraft(lengths, l - 1) == 0)
      invariant forall m :: 0 <= m < |lengths| && lengths[m] > 0 ==> l <= lengths[m]
      decreases top - l
    {
      forall m | 0 <= m < |lengths| && lengths[m] > 0
        ensures l + 1 <= lengths[m]
      {
        CodeBelowLevel(lengths, m);
      }
      l := l + 1;
    }
    KraftZero(lengths);
    FirstCodeIsKraft(lengths, l);
    n := NthOfLength(lengths, l, 0);
  }

  /** Too many codes: a code of at most 9 bits is the beginning of another one. */
  lemma Oversubscribed(lengths: seq<nat>) returns (n: nat, m: nat)
    requires Bounded(lengths) && |lengths| <= 1024 && Kraft(lengths, MAX_CODE_BITS) > Pow2(MAX_CODE_BITS)
    ensures n < |lengths| && m < |lengths| && n != m && 0 < lengths[n] <= 9 && lengths[n] <= lengths[m]
    ensures CodeBits(lengths, m)[..lengths[n]] == CodeBits(lengths, n)
  {
    hide Kraft, FirstCode, MsbBits, Count;
    n := FirstIsZero(lengths, MAX_CODE_BITS);
    if lengths[n] > 9 {
      LongCodesFit(lengths);
      Pow2Values();
      assert false;
    }
    var l := FindOverflow(lengths, MAX_CODE_BITS);
    FirstCodeIsKraft(lengths, l);
    m := NthOfLength(lengths, l, Pow2(l) - FirstCode(lengths, l));
    assert Code(lengths, m) == Pow2(l);
    MsbBitsOfPow2(l);
    MsbBitsOfZero(l, lengths[n]);
  }

  /** Too few codes: some stream begins with none of them. */
  lemma Incomplete(lengths: seq<nat>) returns (w: seq<bit>)
    requires Bounded(lengths) && Kraft(lengths, MAX_CODE_BITS) < Pow2(MAX_CODE_BITS)
    ensures |w| == MAX_CODE_BITS && forall n: nat :: !Matches(lengths, n, w)
  {
    hide Shl, Shr, Pow2, Kraft, Code;
    var v := Kraft(lengths, MAX_CODE_BITS);
    w := MsbBits(v, MAX_CODE_BITS);
    MsbOfMsbBits(v, MAX_CODE_BITS);
    LowSmall(v, MAX_CODE_BITS);
    assert w[..MAX_CODE_BITS] == w;
    forall n: nat | Matches(lengths, n, w)
      ensures false
    {
      CodeFits(lengths, n);
      MatchIsInterval(lengths, n, w);
      CodeInterval(lengths, n, v);
      KraftGrows(lengths, lengths[n], MAX_CODE_BITS);
    }
  }

  // ----- zero lengths added at the end

  lemma {:induction false} PadCounts(lengths: seq<nat>, k: nat, l: nat)
    ensures l > 0 ==> Count(lengths + seq(k, i => 0), l) == Count(lengths, l)
    ensures Kraft(lengths + seq(k, i => 0), l) == Kraft(lengths, l)
  {
    var padded := lengths + seq(k, i => 0);
    if k == 0 {
      assert padded == lengths;
    } else {
      PadCounts(lengths, k - 1, l);
      assert padded[..|padded| - 1] == lengths + seq(k - 1, i => 0);
    }
  }

  lemma {:induction false} PadFirstCode(lengths: seq<nat>, k: nat, l: nat)
    ensures FirstCode(lengths + seq(k, i => 0), l) == FirstCode(lengths, l)
  {
    if l > 1 {
      PadFirstCode(lengths, k, l - 1);
      PadCounts(lengths, k, l - 1);
    }
  }

  /** Encoder and decoder may size their alphabets differently. */
  lemma PadCode(lengths: seq<nat>, k: nat, n: nat)
    requires n < |lengths| && lengths[n] > 0
    ensures CodeBits(lengths + seq(k, i => 0), n) == CodeBits(lengths, n)
  {
    PadFirstCode(lengths, k, lengths[n]);
    assert (lengths + seq(k, i => 0))[..n] == lengths[..n];
  }
}
