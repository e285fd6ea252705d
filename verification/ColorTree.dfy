/**
  The tree that finds the index of a colour: one level for each bit of the channels, sixteen children for the four bits
  of a level.
 */
module ColorTrees {
  import opened Bits

  datatype Pixel = Pixel(r: byte, g: byte, b: byte, a: byte)

  datatype ColorTree = Absent | Node(children: seq<ColorTree>, index: int)

  const EMPTY_NODE: ColorTree :=
    Node([Absent, Absent, Absent, Absent, Absent, Absent, Absent, Absent,
          Absent, Absent, Absent, Absent, Absent, Absent, Absent, Absent], -1)

  predicate TreeOk(t: ColorTree) {
    t.Node? ==> |t.children| == 16 && forall i :: 0 <= i < 16 ==> TreeOk(t.children[i])
  }

  /** The child for one bit of each channel. */
  function ChildOf(c: Pixel, bit: nat): (i: nat)
    ensures i < 16
  {
    8 * (Shr(c.r, bit) % 2) + 4 * (Shr(c.g, bit) % 2) + 2 * (Shr(c.b, bit) % 2) + Shr(c.a, bit) % 2
  }

  /** The index of a colour in a tree whose root is for this bit, -1 if it is not there. */
  function Get(t: ColorTree, c: Pixel, bit: nat): int
    requires bit <= 8 && TreeOk(t)
    decreases 8 - bit
  {
    if t.Absent? then -1
    else if bit == 8 then t.index
    else Get(t.children[ChildOf(c, bit)], c, bit + 1)
  }

  function Add(t: ColorTree, c: Pixel, bit: nat, index: int): (r: ColorTree)
    requires bit <= 8 && TreeOk(t)
    ensures r.Node? && TreeOk(r)
    decreases 8 - bit
  {
    var n := if t.Absent? then EMPTY_NODE else t;
    if bit == 8 then n.(index := index)
    else
      var i := ChildOf(c, bit);
      var child := Add(n.children[i], c, bit + 1, index);
      n.(children := n.children[i := child])
  }

  lemma EmptyGet(c: Pixel, bit: nat)
    requires bit <= 8
    ensures TreeOk(EMPTY_NODE) && Get(EMPTY_NODE, c, bit) == -1
  {
  }

  /** Colours that agree in the bits from `bit` on. */
  predicate SameFrom(c: Pixel, c': Pixel, bit: nat) {
    forall i :: bit <= i < 8 ==> ChildOf(c, i) == ChildOf(c', i)
  }

  /** Adding a colour gives it its index and leaves the others theirs. */
  lemma {:induction false} GetAdd(t: ColorTree, c: Pixel, bit: nat, index: int, c': Pixel)
    requires bit <= 8 && TreeOk(t)
    ensures Get(Add(t, c, bit, index), c', bit) == if SameFrom(c, c', bit) then index else Get(t, c', bit)
    decreases 8 - bit
  {
    hide ChildOf;
    if bit < 8 {
      var n := if t.Absent? then EMPTY_NODE else t;
      GetAdd(n.children[ChildOf(c, bit)], c, bit + 1, index, c');
      if t.Absent? {
        EmptyGet(c', bit);
        EmptyGet(c', bit + 1);
      }
      if ChildOf(c, bit) == ChildOf(c', bit) {
        assert SameFrom(c, c', bit) <==> SameFrom(c, c', bit + 1);
      }
    }
  }

  lemma FourBits(a: nat, b: nat, c: nat, d: nat, a': nat, b': nat, c': nat, d': nat)
    requires a < 2 && b < 2 && c < 2 && d < 2 && a' < 2 && b' < 2 && c' < 2 && d' < 2
    requires 8 * a + 4 * b + 2 * c + d == 8 * a' + 4 * b' + 2 * c' + d'
    ensures a == a' && b == b' && c == c' && d == d'
  {
  }

  lemma {:induction false} SameBits(v: nat, v': nat, k: nat)
    requires v < Pow2(k) && v' < Pow2(k) && forall i :: 0 <= i < k ==> Shr(v, i) % 2 == Shr(v', i) % 2
    ensures v == v'
  {
    if k > 0 {
      assert Shr(v, 0) % 2 == Shr(v', 0) % 2;
      forall i | 0 <= i < k - 1
        ensures Shr(v / 2, i) % 2 == Shr(v' / 2, i) % 2
      {
        assert Shr(v, i + 1) % 2 == Shr(v', i + 1) % 2;
      }
      SameBits(v / 2, v' / 2, k - 1);
    }
  }

  /** The paths of different colours differ. */
  lemma SamePath(c: Pixel, c': Pixel)
    ensures SameFrom(c, c', 0) <==> c == c'
  {
    if SameFrom(c, c', 0) {
      forall i | 0 <= i < 8
        ensures Shr(c.r, i) % 2 == Shr(c'.r, i) % 2 && Shr(c.g, i) % 2 == Shr(c'.g, i) % 2
        ensures Shr(c.b, i) % 2 == Shr(c'.b, i) % 2 && Shr(c.a, i) % 2 == Shr(c'.a, i) % 2
      {
        assert ChildOf(c, i) == ChildOf(c', i);
        FourBits(Shr(c.r, i) % 2, Shr(c.g, i) % 2, Shr(c.b, i) % 2, Shr(c.a, i) % 2,
                 Shr(c'.r, i) % 2, Shr(c'.g, i) % 2, Shr(c'.b, i) % 2, Shr(c'.a, i) % 2);
      }
      hide Shr, ChildOf, SameFrom;
      Pow2Values();
      SameBits(c.r, c'.r, 8);
      SameBits(c.g, c'.g, 8);
      SameBits(c.b, c'.b, 8);
      SameBits(c.a, c'.a, 8);
    }
  }

  /** The tree finds the first `n` colours of a palette, and no others. */
  ghost predicate Indexes(t: ColorTree, palette: seq<Pixel>, n: nat) {
    && TreeOk(t) && n <= |palette|
    && forall c: Pixel :: IndexRight(t, palette, n, c)
  }

  /** The index is a place of the colour, or -1 if it has none. */
  ghost predicate IndexRight(t: ColorTree, palette: seq<Pixel>, n: nat, c: Pixel)
    requires TreeOk(t) && n <= |palette|
  {
    var i := Get(t, c, 0);
    if i < 0 then i == -1 && c !in palette[..n] else i < n && palette[i] == c
  }

  lemma EmptyIndexes(palette: seq<Pixel>)
    ensures Indexes(EMPTY_NODE, palette, 0)
  {
    forall c: Pixel
      ensures IndexRight(EMPTY_NODE, palette, 0, c)
    {
      EmptyGet(c, 0);
    }
  }

  lemma AddIndexes(t: ColorTree, palette: seq<Pixel>, n: nat, c: Pixel)
    requires Indexes(t, palette, n) && n < |palette| && palette[n] == c
    ensures Indexes(Add(t, c, 0, n), palette, n + 1)
  {
    hide Get, Add;
    var next := n + 1;
    var t' := Add(t, c, 0, n);
    assert palette[..next] == palette[..n] + [c];
    forall c': Pixel
      ensures IndexRight(t', palette, next, c')
    {
      GetAdd(t, c, 0, n, c');
      SamePath(c, c');
      assert IndexRight(t, palette, n, c');
    }
  }
}
