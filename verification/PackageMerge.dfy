/**
  Boundary package-merge on lists of chains, apart from how the chains are
  stored.  List `c` keeps two lookahead chains; a chain says how many leaves its
  list took, and its tail how many leaves the lists below took for the packages.
 */
module PackageMerge {
  import opened Bits

  datatype Chain = Nil | Link(weight: nat, index: nat, tail: Chain)

  datatype Lists = Lists(chains0: seq<Chain>, chains1: seq<Chain>)

  ghost predicate WellFormed(s: Lists) {
    && |s.chains0| == |s.chains1|
    && forall c :: 0 <= c < |s.chains1| ==> s.chains0[c].Link? && s.chains1[c].Link?
  }

  /** The weight of a package of the two lookahead items of list `c`. */
  function Sum(s: Lists, c: nat): nat
    requires WellFormed(s) && c < |s.chains1|
  {
    s.chains0[c].weight + s.chains1[c].weight
  }

  /** Replaces the lookahead of list `c` by its next item. */
  function Push(s: Lists, c: nat, item: Chain): (r: Lists)
    requires WellFormed(s) && c < |s.chains1| && item.Link?
    ensures WellFormed(r) && |r.chains1| == |s.chains1|
  {
    Lists(s.chains0[c := s.chains1[c]], s.chains1[c := item])
  }

  /** Adds one item to list `c`: a leaf or a package of two items of the list below. */
  function Advance(w: seq<nat>, s: Lists, c: nat, more: bool): (r: Lists)
    requires WellFormed(s) && c < |s.chains1|
    ensures WellFormed(r) && |r.chains1| == |s.chains1|
    ensures forall d :: c < d < |s.chains1| ==> r.chains0[d] == s.chains0[d] && r.chains1[d] == s.chains1[d]
    decreases c
  {
    var last := s.chains1[c].index;
    if c == 0 then
      if last >= |w| then s else Push(s, c, Link(w[last], last + 1, Nil))
    else if last < |w| && Sum(s, c - 1) > w[last] then
      Push(s, c, Link(w[last], last + 1, s.chains1[c].tail))
    else
      var packaged := Push(s, c, Link(Sum(s, c - 1), last, s.chains1[c - 1]));
      if more then Advance(w, Advance(w, packaged, c - 1, more), c - 1, more) else packaged
  }

  ghost predicate SortedPositive(w: seq<nat>) {
    && (forall i :: 0 <= i < |w| ==> w[i] > 0)
    && forall i, j :: 0 <= i <= j < |w| ==> w[i] <= w[j]
  }

  function Depth(chain: Chain): nat {
    if chain.Nil? then 0 else 1 + Depth(chain.tail)
  }

  /** Lists further down in a chain took no more leaves. */
  ghost predicate Nested(chain: Chain, n: nat) {
    chain.Link? ==> chain.index <= n && Nested(chain.tail, chain.index)
  }

  // ----- what every step keeps: the order of the items of each list

  /** List `c` by itself. */
  ghost predicate ListOk(w: seq<nat>, s: Lists, c: nat)
    requires WellFormed(s) && c < |s.chains1|
  {
    var head := s.chains1[c];
    && 0 < s.chains0[c].weight <= head.weight
    && 1 <= head.index <= |w|
    && (head.index < |w| ==> head.weight <= w[head.index])
    && w[head.index - 1] <= head.weight
    && Nested(head, |w|)
    && Depth(head) <= c + 1 && Depth(s.chains0[c]) <= c + 1
  }

  /** List `c` and the package that the list below offers it. */
  ghost predicate OfferOk(w: seq<nat>, s: Lists, c: nat)
    requires WellFormed(s) && 0 < c < |s.chains1|
  {
    var head := s.chains1[c];
    && head.weight <= Sum(s, c - 1)
    && 1 <= head.index <= |w| && w[head.index - 1] < Sum(s, c - 1)
  }

  ghost predicate Ordered(w: seq<nat>, s: Lists) {
    && WellFormed(s)
    && (forall c :: 0 <= c < |s.chains1| ==> ListOk(w, s, c))
    && (forall c :: 0 < c < |s.chains1| ==> OfferOk(w, s, c))
  }

  /** A new item no lighter than the last one keeps all lists in order. */
  lemma PushKeepsOrder(w: seq<nat>, s: Lists, c: nat, item: Chain)
    requires Ordered(w, s) && c < |s.chains1| && item.Link?
    requires s.chains1[c].weight <= item.weight
    requires ListOk(w, Push(s, c, item), c)
    requires c > 0 ==> OfferOk(w, Push(s, c, item), c)
    ensures Ordered(w, Push(s, c, item))
  {
    var r := Push(s, c, item);
    forall d | 0 <= d < |s.chains1|
      ensures ListOk(w, r, d)
    {
      assert ListOk(w, s, d);
    }
    forall d | 0 < d < |s.chains1|
      ensures OfferOk(w, r, d)
    {
      assert OfferOk(w, s, d);
      assert ListOk(w, s, c);
    }
  }

  lemma LeafKeepsOrder(w: seq<nat>, s: Lists, c: nat)
    requires SortedPositive(w) && Ordered(w, s) && c < |s.chains1|
    requires s.chains1[c].index < |w|
    requires c > 0 ==> Sum(s, c - 1) > w[s.chains1[c].index]
    ensures Ordered(w, Push(s, c, Link(w[s.chains1[c].index], s.chains1[c].index + 1,
                                       if c == 0 then Nil else s.chains1[c].tail)))
  {
    var last := s.chains1[c].index;
    assert ListOk(w, s, c);
    var item := Link(w[last], last + 1, if c == 0 then Nil else s.chains1[c].tail);
    if c > 0 && item.tail.Link? {
      NestedWeaken(item.tail, last, last + 1);
    }
    PushKeepsOrder(w, s, c, item);
  }

  lemma NestedWeaken(chain: Chain, n: nat, m: nat)
    requires Nested(chain, n) && n <= m
    ensures Nested(chain, m)
  {
  }

  /** A weight between two leaves tells which of them comes first. */
  lemma HeavierIsLater(w: seq<nat>, i: nat, j: nat, weight: nat)
    requires SortedPositive(w) && i <= |w| && 1 <= j <= |w|
    requires i < |w| ==> weight <= w[i]
    requires w[j - 1] < weight
    ensures j <= i
  {
  }

  lemma PackageKeepsOrder(w: seq<nat>, s: Lists, c: nat)
    requires SortedPositive(w) && Ordered(w, s) && 0 < c < |s.chains1|
    requires s.chains1[c].index < |w| ==> Sum(s, c - 1) <= w[s.chains1[c].index]
    ensures Ordered(w, Push(s, c, Link(Sum(s, c - 1), s.chains1[c].index, s.chains1[c - 1])))
  {
    var last, below := s.chains1[c].index, s.chains1[c - 1];
    assert ListOk(w, s, c) && ListOk(w, s, c - 1) && OfferOk(w, s, c);
    HeavierIsLater(w, last, below.index, Sum(s, c - 1));
    NestedTighten(below, |w|, last);
    PushKeepsOrder(w, s, c, Link(Sum(s, c - 1), last, below));
  }

  lemma NestedTighten(chain: Chain, n: nat, m: nat)
    requires chain.Link? && Nested(chain, n) && chain.index <= m
    ensures Nested(chain, m)
  {
  }

  lemma {:induction false} AdvanceKeepsOrder(w: seq<nat>, s: Lists, c: nat, more: bool)
    requires SortedPositive(w) && Ordered(w, s) && c < |s.chains1|
    ensures Ordered(w, Advance(w, s, c, more))
    decreases c
  {
    var last := s.chains1[c].index;
    if c == 0 {
      if last < |w| {
        LeafKeepsOrder(w, s, c);
      }
    } else if last < |w| && Sum(s, c - 1) > w[last] {
      LeafKeepsOrder(w, s, c);
    } else {
      PackageKeepsOrder(w, s, c);
      var packaged := Push(s, c, Link(Sum(s, c - 1), last, s.chains1[c - 1]));
      if more {
        AdvanceKeepsOrder(w, packaged, c - 1, more);
        AdvanceKeepsOrder(w, Advance(w, packaged, c - 1, more), c - 1, more);
      }
    }
  }

  // ----- counting items

  /** The number of items of its list that a chain stands for: leaves plus packages. */
  function Items(chain: Chain): nat {
    if chain.Nil? then 0 else chain.index + Items(chain.tail) / 2
  }

  /** Every package is made of two items. */
  ghost predicate Paired(chain: Chain) {
    chain.Link? ==> Items(chain.tail) % 2 == 0 && Paired(chain.tail)
  }

  /** How many items list `c` can have when there are `n` leaves. */
  function Capacity(n: nat, c: nat): nat {
    if c == 0 then n else n + Capacity(n, c - 1) / 2
  }

  /** List `c` is intact: its head counts right, and the list below is far enough ahead or exhausted. */
  ghost predicate Intact(n: nat, s: Lists, c: nat)
    requires WellFormed(s) && c < |s.chains1|
  {
    var head := s.chains1[c];
    && Paired(head) && Items(head) <= Capacity(n, c) && head.index <= n
    && Items(head.tail) <= (if c == 0 then 0 else Capacity(n, c - 1))
    && (c > 0 ==>
          var needed := Items(head.tail) + 2;
          if needed <= Capacity(n, c - 1) then
            Intact(n, s, c - 1) && Items(s.chains1[c - 1]) == needed
          else
            s.chains1[c - 1].index == n)
  }

  /** Intactness of a list depends on it and the lists below only. */
  lemma {:induction false} IntactFrame(n: nat, s: Lists, r: Lists, c: nat)
    requires WellFormed(s) && WellFormed(r) && |s.chains1| == |r.chains1| && c < |s.chains1|
    requires forall d :: 0 <= d <= c ==> s.chains1[d] == r.chains1[d]
    requires Intact(n, s, c)
    ensures Intact(n, r, c)
  {
    if c > 0 && Items(s.chains1[c].tail) + 2 <= Capacity(n, c - 1) {
      IntactFrame(n, s, r, c - 1);
    }
  }

  /** A list that has used all leaves stays so. */
  lemma ExhaustedStays(w: seq<nat>, s: Lists, c: nat, more: bool)
    requires WellFormed(s) && c < |s.chains1| && s.chains1[c].index == |w|
    ensures Advance(w, s, c, more).chains1[c].index == |w|
  {
  }

  /** At its capacity a list has used all leaves. */
  lemma FullIsExhausted(n: nat, s: Lists, c: nat)
    requires WellFormed(s) && c < |s.chains1| && Intact(n, s, c)
    requires Items(s.chains1[c]) == Capacity(n, c)
    ensures s.chains1[c].index == n
  {
  }

  /** An exhausted list below only offers packages heavier than every leaf. */
  lemma ExhaustedOffersMore(w: seq<nat>, s: Lists, c: nat, i: nat)
    requires SortedPositive(w) && Ordered(w, s) && c < |s.chains1| && s.chains1[c].index == |w| && i < |w|
    ensures Sum(s, c) > w[i]
  {
    assert ListOk(w, s, c);
  }

  /** The list below, asked twice for an item, delivers two or runs out of leaves. */
  lemma TwoSteps(w: seq<nat>, s: Lists, c: nat, k: nat)
    requires SortedPositive(w) && Ordered(w, s) && c < |s.chains1|
    requires Intact(|w|, s, c) && Items(s.chains1[c]) == k
    requires k < Capacity(|w|, c) ==>
               var r := Advance(w, s, c, true);
               Intact(|w|, r, c) && Items(r.chains1[c]) == k + 1
    requires k + 1 < Capacity(|w|, c) ==>
               var r := Advance(w, Advance(w, s, c, true), c, true);
               Intact(|w|, r, c) && Items(r.chains1[c]) == k + 2
    ensures var r := Advance(w, Advance(w, s, c, true), c, true);
            if k + 2 <= Capacity(|w|, c) then Intact(|w|, r, c) && Items(r.chains1[c]) == k + 2
            else r.chains1[c].index == |w|
  {
    var r := Advance(w, s, c, true);
    if k == Capacity(|w|, c) {
      FullIsExhausted(|w|, s, c);
      ExhaustedStays(w, s, c, true);
      ExhaustedStays(w, r, c, true);
    } else if k + 1 == Capacity(|w|, c) {
      FullIsExhausted(|w|, r, c);
      ExhaustedStays(w, r, c, true);
    }
  }

  ghost predicate TakesLeaf(w: seq<nat>, s: Lists, c: nat)
    requires WellFormed(s) && c < |s.chains1|
  {
    s.chains1[c].index < |w| && (c > 0 ==> Sum(s, c - 1) > w[s.chains1[c].index])
  }

  function Leaf(w: seq<nat>, s: Lists, c: nat): Chain
    requires WellFormed(s) && c < |s.chains1| && s.chains1[c].index < |w|
  {
    Link(w[s.chains1[c].index], s.chains1[c].index + 1, if c == 0 then Nil else s.chains1[c].tail)
  }

  function Package(s: Lists, c: nat): Chain
    requires WellFormed(s) && 0 < c < |s.chains1|
  {
    Link(Sum(s, c - 1), s.chains1[c].index, s.chains1[c - 1])
  }

  lemma LeafStep(w: seq<nat>, s: Lists, c: nat, more: bool)
    requires WellFormed(s) && c < |s.chains1| && TakesLeaf(w, s, c)
    ensures Advance(w, s, c, more) == Push(s, c, Leaf(w, s, c))
  {
  }

  lemma PackageStep(w: seq<nat>, s: Lists, c: nat, more: bool)
    requires WellFormed(s) && 0 < c < |s.chains1| && !TakesLeaf(w, s, c)
    ensures !more ==> Advance(w, s, c, more) == Push(s, c, Package(s, c))
    ensures more ==> Advance(w, s, c, more) == Advance(w, Advance(w, Push(s, c, Package(s, c)), c - 1, true), c - 1, true)
  {
  }

  /** The next item of an intact list with room left counts as one more. */
  ghost predicate CountsOneMore(n: nat, s: Lists, c: nat, item: Chain)
    requires WellFormed(s) && c < |s.chains1| && item.Link?
  {
    && Paired(item) && Items(item) == Items(s.chains1[c]) + 1 && item.index <= n
    && Items(item.tail) <= (if c == 0 then 0 else Capacity(n, c - 1))
  }

  lemma LeafCounts(w: seq<nat>, s: Lists, c: nat)
    requires Ordered(w, s) && c < |s.chains1| && Intact(|w|, s, c) && TakesLeaf(w, s, c)
    ensures CountsOneMore(|w|, s, c, Leaf(w, s, c))
    ensures Leaf(w, s, c).tail == s.chains1[c].tail
  {
    assert ListOk(w, s, c);
    if c == 0 {
      assert Depth(s.chains1[c].tail) == 0;
    }
  }

  /** With room left, a list only takes a package when the list below has two real items for it. */
  lemma PackageAvailable(w: seq<nat>, s: Lists, c: nat)
    requires SortedPositive(w) && Ordered(w, s) && c < |s.chains1|
    requires Intact(|w|, s, c) && Items(s.chains1[c]) < Capacity(|w|, c) && !TakesLeaf(w, s, c)
    ensures c > 0 && Items(s.chains1[c].tail) + 2 <= Capacity(|w|, c - 1)
  {
    var head := s.chains1[c];
    if c > 0 && Items(head.tail) + 2 > Capacity(|w|, c - 1) {
      assert head.index < |w|;
      ExhaustedOffersMore(w, s, c - 1, head.index);
    }
  }

  lemma PackageItem(head: Chain, below: Chain, weight: nat)
    requires head.Link? && Paired(head) && Paired(below) && Items(below) == Items(head.tail) + 2
    ensures Paired(Link(weight, head.index, below)) && Items(Link(weight, head.index, below)) == Items(head) + 1
  {
  }

  lemma PackageCounts(w: seq<nat>, s: Lists, c: nat)
    requires SortedPositive(w) && Ordered(w, s) && c < |s.chains1|
    requires Intact(|w|, s, c) && Items(s.chains1[c]) < Capacity(|w|, c) && !TakesLeaf(w, s, c)
    ensures c > 0 && CountsOneMore(|w|, s, c, Package(s, c))
    ensures Intact(|w|, s, c - 1) && Items(s.chains1[c - 1]) == Items(s.chains1[c].tail) + 2
  {
    PackageAvailable(w, s, c);
    IntactHead(|w|, s, c);
    IntactHead(|w|, s, c - 1);
    PackageItem(s.chains1[c], s.chains1[c - 1], Sum(s, c - 1));
  }

  lemma IntactHead(n: nat, s: Lists, c: nat)
    requires WellFormed(s) && c < |s.chains1| && Intact(n, s, c)
    ensures Paired(s.chains1[c]) && Items(s.chains1[c]) <= Capacity(n, c) && s.chains1[c].index <= n
    ensures c > 0 && Items(s.chains1[c].tail) + 2 <= Capacity(n, c - 1) ==>
              Intact(n, s, c - 1) && Items(s.chains1[c - 1]) == Items(s.chains1[c].tail) + 2
  {
  }

  /** A new package keeps a list intact if the list below delivers. */
  lemma PackageIntact(n: nat, s: Lists, c: nat)
    requires WellFormed(s) && 0 < c < |s.chains1|
    requires Paired(s.chains1[c]) && Items(s.chains1[c]) <= Capacity(n, c) && s.chains1[c].index <= n
    requires Items(s.chains1[c].tail) <= Capacity(n, c - 1)
    requires var needed := Items(s.chains1[c].tail) + 2;
             if needed <= Capacity(n, c - 1) then Intact(n, s, c - 1) && Items(s.chains1[c - 1]) == needed
             else s.chains1[c - 1].index == n
    ensures Intact(n, s, c)
  {
  }

  lemma LeafIntact(w: seq<nat>, s: Lists, c: nat)
    requires Ordered(w, s) && c < |s.chains1| && TakesLeaf(w, s, c)
    requires Intact(|w|, s, c) && Items(s.chains1[c]) < Capacity(|w|, c)
    ensures Intact(|w|, Push(s, c, Leaf(w, s, c)), c)
  {
    LeafCounts(w, s, c);
    var r := Push(s, c, Leaf(w, s, c));
    if c > 0 {
      if Items(s.chains1[c].tail) + 2 <= Capacity(|w|, c - 1) {
        IntactFrame(|w|, s, r, c - 1);
      }
      PackageIntact(|w|, r, c);
    }
  }

  /** Advancing an intact list with room left keeps it intact, however the lists below fare. */
  lemma OrderedShape(w: seq<nat>, s: Lists)
    requires Ordered(w, s)
    ensures WellFormed(s)
  {
  }

  lemma {:induction false} AdvanceIntact(w: seq<nat>, s: Lists, c: nat)
    requires SortedPositive(w) && Ordered(w, s) && c < |s.chains1|
    requires Intact(|w|, s, c) && Items(s.chains1[c]) < Capacity(|w|, c)
    ensures var r := Advance(w, s, c, true);
            Intact(|w|, r, c) && Items(r.chains1[c]) == Items(s.chains1[c]) + 1
    decreases c, 1
  {
    hide Capacity, Ordered, SortedPositive, Items, Paired;
    OrderedShape(w, s);
    if TakesLeaf(w, s, c) {
      LeafIntact(w, s, c);
      LeafCounts(w, s, c);
      LeafStep(w, s, c, true);
    } else {
      PackageCounts(w, s, c);
      PackageKeepsOrder(w, s, c);
      PackageStep(w, s, c, true);
      var packaged := Push(s, c, Package(s, c));
      IntactFrame(|w|, s, packaged, c - 1);
      AdvanceTwice(w, packaged, c - 1);
      PackageIntact(|w|, Advance(w, Advance(w, packaged, c - 1, true), c - 1, true), c);
    }
  }

  lemma {:induction false} AdvanceTwice(w: seq<nat>, s: Lists, c: nat)
    requires SortedPositive(w) && Ordered(w, s) && c < |s.chains1| && Intact(|w|, s, c)
    ensures var k, r := Items(s.chains1[c]), Advance(w, Advance(w, s, c, true), c, true);
            if k + 2 <= Capacity(|w|, c) then Intact(|w|, r, c) && Items(r.chains1[c]) == k + 2
            else r.chains1[c].index == |w|
    decreases c, 2
  {
    var k := Items(s.chains1[c]);
    if k < Capacity(|w|, c) {
      AdvanceIntact(w, s, c);
      AdvanceKeepsOrder(w, s, c, true);
      if k + 1 < Capacity(|w|, c) {
        AdvanceIntact(w, Advance(w, s, c, true), c);
      }
    }
    TwoSteps(w, s, c, k);
  }

  // ----- the whole run

  lemma {:induction false} CapacityIs(n: nat, c: nat)
    requires n > 0
    ensures Capacity(n, c) == 2 * n - 1 - Shr(n - 1, c)
  {
    if c > 0 {
      CapacityIs(n, c - 1);
      ShrShr(n - 1, c - 1, 1);
      assert Shr(n - 1, c) == Shr(n - 1, c - 1) / 2;
    }
  }

  /** With enough code space the last list can have all the items that are needed. */
  lemma EnoughCapacity(n: nat, maxbitlen: nat)
    requires n > 0 && maxbitlen > 0 && n <= Pow2(maxbitlen)
    ensures Capacity(n, maxbitlen - 1) >= 2 * n - 2
  {
    CapacityIs(n, maxbitlen - 1);
    ShrBound(n - 1, maxbitlen - 1, 1);
    Pow2Values();
  }

  /** All lists start with the two lightest leaves. */
  function Start(w: seq<nat>, maxbitlen: nat): (s: Lists)
    requires |w| >= 2
    ensures WellFormed(s) && |s.chains1| == maxbitlen
  {
    Lists(seq(maxbitlen, c => Link(w[0], 1, Nil)), seq(maxbitlen, c => Link(w[1], 2, Nil)))
  }

  /** The state after `i` items are in the last list; each call but the last one looks ahead. */
  function Run(w: seq<nat>, maxbitlen: nat, i: nat): (s: Lists)
    requires |w| >= 2 && maxbitlen > 0
    ensures WellFormed(s) && |s.chains1| == maxbitlen
  {
    if i <= 2 then Start(w, maxbitlen)
    else Advance(w, Run(w, maxbitlen, i - 1), maxbitlen - 1, i < 2 * |w| - 2)
  }

  lemma {:induction false} StartIntact(w: seq<nat>, maxbitlen: nat, c: nat)
    requires |w| >= 2 && c < maxbitlen
    ensures Intact(|w|, Start(w, maxbitlen), c) && Items(Start(w, maxbitlen).chains1[c]) == 2
  {
    if c > 0 {
      StartIntact(w, maxbitlen, c - 1);
    }
  }

  lemma StartOrdered(w: seq<nat>, maxbitlen: nat)
    requires |w| >= 2 && SortedPositive(w)
    ensures Ordered(w, Start(w, maxbitlen))
  {
    var s := Start(w, maxbitlen);
    forall c | 0 <= c < maxbitlen
      ensures ListOk(w, s, c)
    {
      assert s.chains1[c].tail.Nil? && s.chains0[c].tail.Nil?;
    }
  }

  lemma {:induction false} RunOrdered(w: seq<nat>, maxbitlen: nat, i: nat)
    requires |w| >= 2 && maxbitlen > 0 && SortedPositive(w)
    ensures Ordered(w, Run(w, maxbitlen, i))
  {
    if i <= 2 {
      StartOrdered(w, maxbitlen);
    } else {
      RunOrdered(w, maxbitlen, i - 1);
      AdvanceKeepsOrder(w, Run(w, maxbitlen, i - 1), maxbitlen - 1, i < 2 * |w| - 2);
    }
  }

  lemma {:induction false} RunIntact(w: seq<nat>, maxbitlen: nat, i: nat)
    requires |w| >= 2 && maxbitlen > 0 && SortedPositive(w) && |w| <= Pow2(maxbitlen)
    requires 2 <= i < 2 * |w| - 2 || i == 2
    ensures Intact(|w|, Run(w, maxbitlen, i), maxbitlen - 1)
    ensures Items(Run(w, maxbitlen, i).chains1[maxbitlen - 1]) == i
  {
    hide Intact, Advance, Capacity;
    if i == 2 {
      StartIntact(w, maxbitlen, maxbitlen - 1);
    } else {
      var s, c := Run(w, maxbitlen, i - 1), maxbitlen - 1;
      RunIntact(w, maxbitlen, i - 1);
      RunOrdered(w, maxbitlen, i - 1);
      EnoughCapacity(|w|, maxbitlen);
      AdvanceIntact(w, s, c);
      assert Run(w, maxbitlen, i) == Advance(w, s, c, true);
    }
  }

  /** The chain at the end: the right number of items, all accounted for. */
  ghost predicate FinalChain(n: nat, maxbitlen: nat, chain: Chain) {
    Paired(chain) && Nested(chain, n) && Depth(chain) <= maxbitlen && Items(chain) == 2 * n - 2
  }

  lemma RunCounts(w: seq<nat>, maxbitlen: nat, i: nat)
    requires |w| >= 2 && maxbitlen > 0 && SortedPositive(w) && |w| <= Pow2(maxbitlen)
    requires 2 < i == 2 * |w| - 2
    ensures var chain := Run(w, maxbitlen, i).chains1[maxbitlen - 1];
            Paired(chain) && Items(chain) == i
  {
    hide SortedPositive, Advance, WellFormed;
    var s, c := Run(w, maxbitlen, i - 1), maxbitlen - 1;
    RunIntact(w, maxbitlen, i - 1);
    RunOrdered(w, maxbitlen, i - 1);
    EnoughCapacity(|w|, maxbitlen);
    LastItem(w, s, c);
    assert Run(w, maxbitlen, i) == Advance(w, s, c, false);
  }

  lemma RunFinal(w: seq<nat>, maxbitlen: nat)
    requires |w| >= 2 && maxbitlen > 0 && SortedPositive(w) && |w| <= Pow2(maxbitlen)
    ensures FinalChain(|w|, maxbitlen, Run(w, maxbitlen, 2 * |w| - 2).chains1[maxbitlen - 1])
  {
    var i := 2 * |w| - 2;
    RunOrdered(w, maxbitlen, i);
    LastHead(w, Run(w, maxbitlen, i), maxbitlen - 1);
    if i == 2 {
      RunIntact(w, maxbitlen, 2);
    } else {
      RunCounts(w, maxbitlen, i);
    }
  }

  /** The last item need not look ahead. */
  lemma LastItem(w: seq<nat>, s: Lists, c: nat)
    requires SortedPositive(w) && Ordered(w, s) && c < |s.chains1|
    requires Intact(|w|, s, c) && Items(s.chains1[c]) < Capacity(|w|, c)
    ensures var r := Advance(w, s, c, false).chains1[c];
            Paired(r) && Items(r) == Items(s.chains1[c]) + 1
  {
    if TakesLeaf(w, s, c) {
      LeafCounts(w, s, c);
      LeafStep(w, s, c, false);
    } else {
      PackageCounts(w, s, c);
      PackageStep(w, s, c, false);
    }
  }

  lemma LastHead(w: seq<nat>, s: Lists, c: nat)
    requires Ordered(w, s) && c < |s.chains1|
    ensures Nested(s.chains1[c], |w|) && Depth(s.chains1[c]) <= c + 1
  {
    assert ListOk(w, s, c);
  }

  // ----- code lengths

  /** The code length of leaf `i`: how many lists of the chain took it. */
  function LengthOf(chain: Chain, i: nat): nat {
    if chain.Nil? then 0 else (if i < chain.index then 1 else 0) + LengthOf(chain.tail, i)
  }

  lemma {:induction false} LengthAtMostDepth(chain: Chain, i: nat)
    ensures LengthOf(chain, i) <= Depth(chain)
  {
    if chain.Link? {
      LengthAtMostDepth(chain.tail, i);
    }
  }

  lemma {:induction false} NoLengthBeyond(chain: Chain, n: nat, i: nat)
    requires Nested(chain, n) && (chain.Link? ==> chain.index <= i)
    ensures LengthOf(chain, i) == 0
  {
    if chain.Link? {
      NoLengthBeyond(chain.tail, chain.index, i);
    }
  }

  /** The Kraft sum of the first `k` leaves in units of 2^-d. */
  function LeafKraft(chain: Chain, k: nat, d: nat): nat
    requires Depth(chain) <= d
  {
    if k == 0 then 0
    else
      LengthAtMostDepth(chain, k - 1);
      LeafKraft(chain, k - 1, d) + Pow2(d - LengthOf(chain, k - 1))
  }

  /** A list that did not take a leaf leaves it a code one bit shorter. */
  lemma TermOfTail(chain: Chain, n: nat, k: nat, d: nat)
    requires chain.Link? && Nested(chain, n) && Depth(chain) <= d
    ensures LengthOf(chain, k) <= d && LengthOf(chain.tail, k) < d
    ensures Pow2(d - LengthOf(chain, k))
         == Pow2(d - 1 - LengthOf(chain.tail, k)) + (if k >= chain.index then Pow2(d - 1) else 0)
  {
    hide Nested;
    LengthAtMostDepth(chain, k);
    LengthAtMostDepth(chain.tail, k);
    if k >= chain.index {
      NoLengthBeyond(chain, n, k);
    }
  }

  lemma {:induction false} KraftOfTail(chain: Chain, n: nat, k: nat, d: nat)
    requires chain.Link? && Nested(chain, n) && Depth(chain) <= d
    ensures LeafKraft(chain, k, d)
         == LeafKraft(chain.tail, k, d - 1) + Shl(if k > chain.index then k - chain.index else 0, d - 1)
  {
    hide Shl, Nested, LengthOf, Pow2;
    ShlIsPow2(d - 1);
    if k > 0 {
      KraftOfTail(chain, n, k - 1, d);
      TermOfTail(chain, n, k - 1, d);
      if k > chain.index {
        ShlAdd(k - 1 - chain.index, 1, d - 1);
      }
    }
  }

  lemma {:induction false} KraftOfNil(k: nat, d: nat)
    ensures LeafKraft(Nil, k, d) == Shl(k, d)
  {
    ShlIsPow2(d);
    if k > 0 {
      KraftOfNil(k - 1, d);
      ShlAdd(k - 1, 1, d);
    }
  }

  /** A leaf of length l accounts for 2 - 2^(1-l) items. */
  lemma {:induction false} ItemsAndKraft(chain: Chain, n: nat, d: nat)
    requires Paired(chain) && Nested(chain, n) && Depth(chain) <= d
    ensures Shl(Items(chain), d) + 2 * LeafKraft(chain, n, d) == Shl(2 * n, d)
  {
    if chain.Nil? {
      KraftOfNil(n, d);
      ShlIsPow2(d);
      ShlAdd(n, n, d);
    } else {
      NestedWeaken(chain.tail, chain.index, n);
      ItemsAndKraft(chain.tail, n, d - 1);
      KraftOfTail(chain, n, n, d);
      HalvedItems(chain.index, Items(chain.tail) / 2, n, d - 1);
    }
  }

  /** k leaves and p packages, against 2p items one list further down. */
  lemma HalvedItems(k: nat, p: nat, n: nat, d: nat)
    requires k <= n
    ensures Shl(k + p, d + 1) + 2 * Shl(n - k, d) + Shl(2 * n, d) == Shl(2 * n, d + 1) + Shl(2 * p, d)
  {
    ShlAdd(k, p, d + 1);
    ShlAdd(k, n - k, d);
    ShlAdd(n, n, d);
    ShlAdd(p, p, d);
  }

  /** The lengths of all leaves together use up the code space exactly. */
  lemma FinalKraft(n: nat, maxbitlen: nat, chain: Chain)
    requires n >= 2 && FinalChain(n, maxbitlen, chain)
    ensures LeafKraft(chain, n, maxbitlen) == Pow2(maxbitlen)
  {
    ItemsAndKraft(chain, n, maxbitlen);
    ShlAdd(2 * n - 2, 2, maxbitlen);
    ShlAdd(1, 1, maxbitlen);
    ShlIsPow2(maxbitlen);
  }

  lemma {:induction false} KraftAtLeast(chain: Chain, k: nat, d: nat, i: nat)
    requires Depth(chain) <= d && i < k
    ensures LengthOf(chain, i) <= d
    ensures LeafKraft(chain, k, d) >= Pow2(d - LengthOf(chain, i)) + (k - 1)
  {
    LengthAtMostDepth(chain, i);
    LengthAtMostDepth(chain, k - 1);
    if i < k - 1 {
      KraftAtLeast(chain, k - 1, d, i);
    } else {
      KraftAtLeastCount(chain, k - 1, d);
    }
  }

  lemma {:induction false} KraftAtLeastCount(chain: Chain, k: nat, d: nat)
    requires Depth(chain) <= d
    ensures LeafKraft(chain, k, d) >= k
  {
    if k > 0 {
      KraftAtLeastCount(chain, k - 1, d);
    }
  }

  /** Every leaf has a code. */
  lemma EveryLeafHasLength(n: nat, maxbitlen: nat, chain: Chain, i: nat)
    requires n >= 2 && FinalChain(n, maxbitlen, chain) && i < n
    ensures 0 < LengthOf(chain, i) <= maxbitlen
  {
    FinalKraft(n, maxbitlen, chain);
    KraftAtLeast(chain, n, maxbitlen, i);
  }
}
