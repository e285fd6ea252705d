/**
  Why package-merge is right: the final chain costs no more than any other choice of leaves, list by list, and so the
  code lengths it stands for cost no more than those of any other code within the limit.
 */
module OptimalLengths {
  import opened Bits
  import opened PackageMerge

  // ----- the items of all lists, lightest first

  /** Of the `k` lightest items of list `c`, how many are leaves; the others are packages of two items of the list below. */
  ghost function LeavesIn(w: seq<nat>, c: nat, k: nat): (a: nat)
    requires k <= Capacity(|w|, c)
    ensures a <= |w| && a <= k && (c == 0 ==> a == k) && (c > 0 ==> 2 * (k - a) <= Capacity(|w|, c - 1))
    decreases c, k, 0
  {
    if c == 0 then k
    else if k == 0 then 0
    else
      var a := LeavesIn(w, c, k - 1);
      if LeafNext(w, c, a, k - 1 - a) then a + 1 else a
  }

  /** With `a` leaves and `p` packages taken, a leaf comes next if it is lighter than the next package, if there is one. */
  ghost predicate LeafNext(w: seq<nat>, c: nat, a: nat, p: nat)
    requires c > 0 && a + p < Capacity(|w|, c)
    decreases c, a + p, 1
  {
    a < |w| && (2 * p + 2 <= Capacity(|w|, c - 1) ==> PackageWeight(w, c, p + 1) > w[a])
  }

  /** The weight of package `j` of list `c`, counted from 1. */
  ghost function PackageWeight(w: seq<nat>, c: nat, j: nat): nat
    requires c > 0 && 0 < j && 2 * j <= Capacity(|w|, c - 1)
    decreases c, 0, 0
  {
    ItemWeight(w, c - 1, 2 * j - 1) + ItemWeight(w, c - 1, 2 * j)
  }

  /** The weight of item `k` of list `c`, counted from 1. */
  ghost function ItemWeight(w: seq<nat>, c: nat, k: nat): nat
    requires 0 < k <= Capacity(|w|, c)
    decreases c, k, 1
  {
    if c == 0 then w[k - 1]
    else
      var a := LeavesIn(w, c, k - 1);
      if LeafNext(w, c, a, k - 1 - a) then w[a] else PackageWeight(w, c, k - a)
  }

  // ----- they are in order

  ghost predicate InOrder(w: seq<nat>, c: nat) {
    forall j, k :: 0 < j <= k <= Capacity(|w|, c) ==> ItemWeight(w, c, j) <= ItemWeight(w, c, k)
  }

  ghost predicate PackagesInOrder(w: seq<nat>, c: nat)
    requires c > 0
  {
    forall i, j :: 0 < i <= j && 2 * j <= Capacity(|w|, c - 1) ==> PackageWeight(w, c, i) <= PackageWeight(w, c, j)
  }

  lemma PackagesRise(w: seq<nat>, c: nat)
    requires c > 0 && InOrder(w, c - 1)
    ensures PackagesInOrder(w, c)
  {
    hide ItemWeight, Capacity;
    forall i, j | 0 < i <= j && 2 * j <= Capacity(|w|, c - 1)
      ensures PackageWeight(w, c, i) <= PackageWeight(w, c, j)
    {
      assert ItemWeight(w, c - 1, 2 * i - 1) <= ItemWeight(w, c - 1, 2 * j - 1);
      assert ItemWeight(w, c - 1, 2 * i) <= ItemWeight(w, c - 1, 2 * j);
    }
  }

  /** What was taken is no heavier than what comes next. */
  ghost predicate Bracketed(w: seq<nat>, c: nat, a: nat, p: nat)
    requires c > 0 && a <= |w| && 2 * p <= Capacity(|w|, c - 1)
  {
    && (a > 0 && 2 * p + 2 <= Capacity(|w|, c - 1) ==> w[a - 1] <= PackageWeight(w, c, p + 1))
    && (p > 0 && a < |w| ==> PackageWeight(w, c, p) <= w[a])
  }

  lemma {:induction false} TakenBracketed(w: seq<nat>, c: nat, k: nat)
    requires c > 0 && SortedPositive(w) && PackagesInOrder(w, c) && k <= Capacity(|w|, c)
    ensures Bracketed(w, c, LeavesIn(w, c, k), k - LeavesIn(w, c, k))
    decreases k
  {
    hide PackageWeight, Capacity;
    if k > 0 {
      TakenBracketed(w, c, k - 1);
      var a := LeavesIn(w, c, k - 1);
      var p := k - 1 - a;
      if LeafNext(w, c, a, p) {
        assert LeavesIn(w, c, k) == a + 1;
      } else {
        assert LeavesIn(w, c, k) == a;
      }
    }
  }

  /** The last item of the first `k`, if it is a leaf, and if it is a package. */
  lemma LastItemIs(w: seq<nat>, c: nat, k: nat)
    requires c > 0 && 0 < k <= Capacity(|w|, c)
    ensures var a := LeavesIn(w, c, k);
            || (a > 0 && ItemWeight(w, c, k) == w[a - 1] && LeavesIn(w, c, k - 1) == a - 1)
            || (k > a && ItemWeight(w, c, k) == PackageWeight(w, c, k - a) && LeavesIn(w, c, k - 1) == a)
  {
    hide PackageWeight, Capacity;
  }

  lemma NextNoLighter(w: seq<nat>, c: nat, k: nat)
    requires c > 0 && SortedPositive(w) && PackagesInOrder(w, c) && 0 < k < Capacity(|w|, c)
    ensures ItemWeight(w, c, k) <= ItemWeight(w, c, k + 1)
  {
    hide PackageWeight, Capacity, ItemWeight;
    TakenBracketed(w, c, k);
    LastItemIs(w, c, k);
    LastItemIs(w, c, k + 1);
  }

  lemma {:induction false} ItemsInOrder(w: seq<nat>, c: nat)
    requires SortedPositive(w)
    ensures InOrder(w, c) && (c > 0 ==> PackagesInOrder(w, c))
    decreases c
  {
    hide PackageWeight, ItemWeight;
    if c == 0 {
      LeavesInOrder(w);
    } else {
      ItemsInOrder(w, c - 1);
      PackagesRise(w, c);
      forall j, k | 0 < j <= k <= Capacity(|w|, c)
        ensures ItemWeight(w, c, j) <= ItemWeight(w, c, k)
      {
        FromTo(w, c, j, k);
      }
    }
  }

  lemma LeavesInOrder(w: seq<nat>)
    requires SortedPositive(w)
    ensures InOrder(w, 0)
  {
  }

  lemma {:induction false} FromTo(w: seq<nat>, c: nat, j: nat, k: nat)
    requires c > 0 && SortedPositive(w) && PackagesInOrder(w, c) && 0 < j <= k <= Capacity(|w|, c)
    ensures ItemWeight(w, c, j) <= ItemWeight(w, c, k)
    decreases k
  {
    hide PackageWeight, ItemWeight;
    if j < k {
      FromTo(w, c, j, k - 1);
      NextNoLighter(w, c, k - 1);
    }
  }

  // ----- what they cost

  /** The weight of the `k` lightest leaves. */
  function Lightest(w: seq<nat>, k: nat): nat
    requires k <= |w|
  {
    if k == 0 then 0 else Lightest(w, k - 1) + w[k - 1]
  }

  /** The weight of the `k` lightest items of list `c`, leaf by leaf. */
  ghost function Total(w: seq<nat>, c: nat, k: nat): nat
    requires k <= Capacity(|w|, c)
    decreases c
  {
    var a := LeavesIn(w, c, k);
    Lightest(w, a) + if c == 0 then 0 else Total(w, c - 1, 2 * (k - a))
  }

  lemma {:induction false} OneItemMore(w: seq<nat>, c: nat, k: nat)
    requires 0 < k <= Capacity(|w|, c)
    ensures Total(w, c, k) == Total(w, c, k - 1) + ItemWeight(w, c, k)
    decreases c, 0
  {
    hide Capacity, LeafNext;
    if c > 0 {
      var a := LeavesIn(w, c, k);
      LastItemIs(w, c, k);
      if LeavesIn(w, c, k - 1) == a {
        TwoItemsMore(w, c, k - a);
      }
    }
  }

  lemma {:induction false} TwoItemsMore(w: seq<nat>, c: nat, j: nat)
    requires c > 0 && 0 < j && 2 * j <= Capacity(|w|, c - 1)
    ensures Total(w, c - 1, 2 * j) == Total(w, c - 1, 2 * j - 2) + PackageWeight(w, c, j)
    decreases c - 1, 1
  {
    hide Capacity, Total, ItemWeight;
    OneItemMore(w, c - 1, 2 * j);
    OneItemMore(w, c - 1, 2 * j - 1);
  }

  lemma {:induction false} LightestGrows(w: seq<nat>, a: nat, b: nat)
    requires a <= b <= |w|
    ensures Lightest(w, a) <= Lightest(w, b)
  {
    if a < b {
      LightestGrows(w, a, b - 1);
    }
  }

  lemma {:induction false} TotalGrows(w: seq<nat>, c: nat, j: nat, k: nat)
    requires j <= k <= Capacity(|w|, c)
    ensures Total(w, c, j) <= Total(w, c, k)
    decreases k
  {
    hide Total, ItemWeight, Capacity;
    if j < k {
      TotalGrows(w, c, j, k - 1);
      OneItemMore(w, c, k);
    }
  }

  // ----- no other choice costs less

  /** Fewer leaves and more packages cost no less: each package is no lighter than the leaf it replaces. */
  lemma {:induction false} FewerLeaves(w: seq<nat>, c: nat, a: nat, p: nat, b: nat, q: nat)
    requires c > 0 && SortedPositive(w) && PackagesInOrder(w, c)
    requires b <= a <= |w| && a + p <= b + q && 2 * q <= Capacity(|w|, c - 1) && Bracketed(w, c, a, p)
    ensures Lightest(w, a) + Total(w, c - 1, 2 * p) <= Lightest(w, b) + Total(w, c - 1, 2 * q)
    decreases a - b
  {
    hide Capacity, Total, PackageWeight;
    if a == b {
      TotalGrows(w, c - 1, 2 * p, 2 * q);
    } else {
      FewerLeaves(w, c, a, p, b + 1, q - 1);
      TwoItemsMore(w, c, q);
      assert w[b] <= w[a - 1];
      assert PackageWeight(w, c, p + 1) <= PackageWeight(w, c, q);
    }
  }

  /** More leaves and fewer packages cost no less either. */
  lemma {:induction false} MoreLeaves(w: seq<nat>, c: nat, a: nat, p: nat, b: nat, q: nat)
    requires c > 0 && SortedPositive(w) && PackagesInOrder(w, c)
    requires q <= p && a + p <= b + q && b <= |w| && 2 * p <= Capacity(|w|, c - 1) && a <= |w| && Bracketed(w, c, a, p)
    ensures Lightest(w, a) + Total(w, c - 1, 2 * p) <= Lightest(w, b) + Total(w, c - 1, 2 * q)
    decreases p - q
  {
    hide Capacity, Total, PackageWeight;
    if p == q {
      LightestGrows(w, a, b);
    } else {
      MoreLeaves(w, c, a, p, b - 1, q + 1);
      TwoItemsMore(w, c, q + 1);
      assert w[a] <= w[b - 1];
      assert PackageWeight(w, c, q + 1) <= PackageWeight(w, c, p);
    }
  }

  /** How many items a choice of leaves gives: `b[c]` leaves of list `c`, and packages of the items below. */
  function ItemsOf(b: seq<nat>): nat {
    if b == [] then 0 else b[|b| - 1] + ItemsOf(b[..|b| - 1]) / 2
  }

  function CostOf(w: seq<nat>, b: seq<nat>): nat
    requires forall c :: 0 <= c < |b| ==> b[c] <= |w|
  {
    if b == [] then 0 else CostOf(w, b[..|b| - 1]) + Lightest(w, b[|b| - 1])
  }

  lemma {:induction false} ItemsAtMost(w: seq<nat>, b: seq<nat>)
    requires b != [] && forall c :: 0 <= c < |b| ==> b[c] <= |w|
    ensures ItemsOf(b) <= Capacity(|w|, |b| - 1)
    decreases |b|
  {
    var c := |b| - 1;
    if c > 0 {
      ItemsAtMost(w, b[..c]);
    } else {
      assert ItemsOf(b[..0]) == 0;
    }
  }

  /** However many leaves are chosen at the top, the rest being packages. */
  lemma BestSplit(w: seq<nat>, c: nat, k: nat, top: nat, q: nat)
    requires c > 0 && SortedPositive(w) && k <= Capacity(|w|, c) && top <= |w| && 2 * q <= Capacity(|w|, c - 1)
    requires k <= top + q
    ensures Total(w, c, k) <= Lightest(w, top) + Total(w, c - 1, 2 * q)
  {
    hide PackageWeight, ItemWeight, LeafNext, Capacity, LeavesIn, SortedPositive;
    ItemsInOrder(w, c);
    TakenBracketed(w, c, k);
    var a := LeavesIn(w, c, k);
    if top <= a {
      FewerLeaves(w, c, a, k - a, top, q);
    } else if q <= k - a {
      MoreLeaves(w, c, a, k - a, top, q);
    } else {
      LightestGrows(w, a, top);
      TotalGrows(w, c - 1, 2 * (k - a), 2 * q);
    }
  }

  lemma OnlyLeaves(w: seq<nat>, b: seq<nat>, k: nat)
    requires |b| == 1 && b[0] <= |w| && k <= ItemsOf(b)
    ensures k <= Capacity(|w|, 0) && Total(w, 0, k) <= CostOf(w, b)
  {
    hide Lightest;
    assert b[..0] == [] && ItemsOf(b[..0]) == 0;
    LightestGrows(w, k, b[0]);
  }

  /** The lightest items cost no more than any choice that gives as many. */
  lemma {:induction false} LightestIsLeast(w: seq<nat>, b: seq<nat>, k: nat)
    requires SortedPositive(w) && b != [] && forall c :: 0 <= c < |b| ==> b[c] <= |w|
    requires k <= ItemsOf(b)
    ensures k <= Capacity(|w|, |b| - 1) && Total(w, |b| - 1, k) <= CostOf(w, b)
    decreases |b|
  {
    hide LeavesIn, Total, Capacity, Lightest, SortedPositive;
    var c := |b| - 1;
    ItemsAtMost(w, b);
    if c == 0 {
      OnlyLeaves(w, b, k);
    } else {
      var q := ItemsOf(b[..c]) / 2;
      ItemsAtMost(w, b[..c]);
      LightestIsLeast(w, b[..c], 2 * q);
      BestSplit(w, c, k, b[c], q);
    }
  }

  // ----- the chains of the lists

  /** The chain of the `k` lightest items of list `c`. */
  ghost function Canon(w: seq<nat>, c: nat, k: nat): (chain: Chain)
    requires 0 < k <= Capacity(|w|, c)
    ensures chain.Link? && chain.weight == ItemWeight(w, c, k) && chain.index == LeavesIn(w, c, k)
    decreases c
  {
    var a := LeavesIn(w, c, k);
    Link(ItemWeight(w, c, k), a, if c == 0 || k == a then Nil else Canon(w, c - 1, 2 * (k - a)))
  }

  lemma {:induction false} CanonItems(w: seq<nat>, c: nat, k: nat)
    requires 0 < k <= Capacity(|w|, c)
    ensures Items(Canon(w, c, k)) == k
    decreases c
  {
    hide ItemWeight, LeafNext, Capacity;
    var a := LeavesIn(w, c, k);
    if c > 0 && k > a {
      CanonItems(w, c - 1, 2 * (k - a));
    }
  }

  function ChainCost(w: seq<nat>, chain: Chain): nat
    requires Nested(chain, |w|)
    decreases chain
  {
    if chain.Nil? then 0
    else
      NestedWeaken(chain.tail, chain.index, |w|);
      Lightest(w, chain.index) + ChainCost(w, chain.tail)
  }

  lemma {:induction false} NoItems(w: seq<nat>, c: nat)
    ensures Total(w, c, 0) == 0
    decreases c
  {
    hide LeafNext, Capacity;
    if c > 0 {
      NoItems(w, c - 1);
    }
  }

  lemma {:induction false} CanonCost(w: seq<nat>, c: nat, k: nat)
    requires 0 < k <= Capacity(|w|, c) && Nested(Canon(w, c, k), |w|)
    ensures ChainCost(w, Canon(w, c, k)) == Total(w, c, k)
    decreases c
  {
    hide ItemWeight, LeafNext, Capacity;
    var a := LeavesIn(w, c, k);
    if c > 0 {
      if k > a {
        NestedWeaken(Canon(w, c, k).tail, a, |w|);
        CanonCost(w, c - 1, 2 * (k - a));
      } else {
        NoItems(w, c - 1);
      }
    }
  }

  /** The heads of list `c` are its last two items, and those of the list below are the next package, if there is one. */
  ghost predicate Canonical(w: seq<nat>, s: Lists, c: nat, k: nat)
    requires WellFormed(s) && c < |s.chains1|
    decreases c
  {
    && 2 <= k <= Capacity(|w|, c) && s.chains1[c] == Canon(w, c, k) && s.chains0[c] == Canon(w, c, k - 1)
    && (c > 0 ==>
          var needed := 2 * (k - LeavesIn(w, c, k)) + 2;
          needed <= Capacity(|w|, c - 1) ==> Canonical(w, s, c - 1, needed))
  }

  lemma {:induction false} CanonicalFrame(w: seq<nat>, s: Lists, r: Lists, c: nat, k: nat)
    requires WellFormed(s) && WellFormed(r) && |s.chains1| == |r.chains1| && c < |s.chains1|
    requires forall d :: 0 <= d <= c ==> s.chains1[d] == r.chains1[d] && s.chains0[d] == r.chains0[d]
    requires Canonical(w, s, c, k)
    ensures Canonical(w, r, c, k)
    decreases c
  {
    hide Capacity, LeavesIn, Canon;
    if c > 0 {
      var needed := 2 * (k - LeavesIn(w, c, k)) + 2;
      if needed <= Capacity(|w|, c - 1) {
        CanonicalFrame(w, s, r, c - 1, needed);
      }
    }
  }

  lemma {:induction false} FirstItems(w: seq<nat>, c: nat)
    requires |w| >= 2 && SortedPositive(w)
    ensures Capacity(|w|, c) >= 2
    ensures LeavesIn(w, c, 1) == 1 && LeavesIn(w, c, 2) == 2
    ensures ItemWeight(w, c, 1) == w[0] && ItemWeight(w, c, 2) == w[1]
    decreases c
  {
    if c > 0 {
      FirstItems(w, c - 1);
      assert PackageWeight(w, c, 1) == w[0] + w[1];
      assert LeavesIn(w, c, 0) == 0 && LeafNext(w, c, 0, 0);
      assert LeafNext(w, c, 1, 0);
    }
  }

  lemma {:induction false} StartCanonical(w: seq<nat>, maxbitlen: nat, c: nat)
    requires |w| >= 2 && c < maxbitlen && SortedPositive(w)
    ensures Canonical(w, Start(w, maxbitlen), c, 2)
    decreases c
  {
    hide Capacity, LeavesIn, ItemWeight, SortedPositive;
    FirstItems(w, c);
    if c > 0 {
      StartCanonical(w, maxbitlen, c - 1);
    }
  }

  /** The list takes a leaf exactly if a leaf is the lighter item. */
  lemma TakesAsItShould(w: seq<nat>, s: Lists, c: nat, k: nat)
    requires SortedPositive(w) && Ordered(w, s) && c < |s.chains1| && Intact(|w|, s, c) && Canonical(w, s, c, k)
    requires c > 0 && k < Capacity(|w|, c)
    ensures TakesLeaf(w, s, c) <==> LeafNext(w, c, LeavesIn(w, c, k), k - LeavesIn(w, c, k))
    ensures !TakesLeaf(w, s, c) ==>
              var needed := 2 * (k - LeavesIn(w, c, k)) + 2;
              needed <= Capacity(|w|, c - 1) && Sum(s, c - 1) == PackageWeight(w, c, k - LeavesIn(w, c, k) + 1)
              && Canonical(w, s, c - 1, needed)
  {
    hide Capacity, LeavesIn, ItemWeight, SortedPositive, Ordered;
    var a := LeavesIn(w, c, k);
    var p := k - a;
    CanonItems(w, c, k);
    TailItems(w, c, k);
    if 2 * p + 2 > Capacity(|w|, c - 1) {
      NextWithinCapacity(w, c, k);
      ExhaustedOffersMore(w, s, c - 1, a);
    }
  }

  lemma TailItems(w: seq<nat>, c: nat, k: nat)
    requires c > 0 && 0 < k <= Capacity(|w|, c)
    ensures Items(Canon(w, c, k).tail) == 2 * (k - LeavesIn(w, c, k))
  {
    hide Capacity, LeavesIn, ItemWeight;
    var a := LeavesIn(w, c, k);
    if k > a {
      CanonItems(w, c - 1, 2 * (k - a));
    }
  }

  /** With room left, either a leaf or a package is. */
  lemma NextWithinCapacity(w: seq<nat>, c: nat, k: nat)
    requires c > 0 && k < Capacity(|w|, c)
    ensures 2 * (k - LeavesIn(w, c, k)) + 2 > Capacity(|w|, c - 1) ==> LeavesIn(w, c, k) < |w|
  {
    hide LeavesIn;
  }

  lemma LeafIsNext(w: seq<nat>, c: nat, k: nat)
    requires k < Capacity(|w|, c) && (c > 0 ==> LeafNext(w, c, LeavesIn(w, c, k), k - LeavesIn(w, c, k)))
    ensures var a := LeavesIn(w, c, k);
            a < |w| && LeavesIn(w, c, k + 1) == a + 1 && ItemWeight(w, c, k + 1) == w[a]
  {
    hide PackageWeight;
  }

  lemma PackageIsNext(w: seq<nat>, c: nat, k: nat)
    requires c > 0 && k < Capacity(|w|, c) && !LeafNext(w, c, LeavesIn(w, c, k), k - LeavesIn(w, c, k))
    ensures var a := LeavesIn(w, c, k);
            && LeavesIn(w, c, k + 1) == a && 2 * (k + 1 - a) <= Capacity(|w|, c - 1)
            && ItemWeight(w, c, k + 1) == PackageWeight(w, c, k + 1 - a)
  {
    hide PackageWeight;
  }

  lemma LeafCanonical(w: seq<nat>, s: Lists, c: nat, k: nat)
    requires SortedPositive(w) && Ordered(w, s) && c < |s.chains1| && Canonical(w, s, c, k)
    requires k < Capacity(|w|, c) && TakesLeaf(w, s, c)
    requires c > 0 ==> LeafNext(w, c, LeavesIn(w, c, k), k - LeavesIn(w, c, k))
    ensures Canonical(w, Push(s, c, Leaf(w, s, c)), c, k + 1)
  {
    hide Capacity, LeavesIn, ItemWeight, SortedPositive, Ordered, LeafNext;
    OrderedShape(w, s);
    LeafIsNext(w, c, k);
    var r, a := Push(s, c, Leaf(w, s, c)), LeavesIn(w, c, k);
    if c > 0 && 2 * (k - a) + 2 <= Capacity(|w|, c - 1) {
      CanonicalFrame(w, s, r, c - 1, 2 * (k - a) + 2);
    }
  }

  /** A step of the algorithm adds the next lightest item. */
  lemma {:induction false} AdvanceCanonical(w: seq<nat>, s: Lists, c: nat, k: nat)
    requires SortedPositive(w) && Ordered(w, s) && c < |s.chains1| && Intact(|w|, s, c) && Canonical(w, s, c, k)
    requires k < Capacity(|w|, c)
    ensures Canonical(w, Advance(w, s, c, true), c, k + 1)
    decreases c, 0
  {
    hide Capacity, LeavesIn, ItemWeight, SortedPositive, Ordered, LeafNext, Intact, Items, PackageWeight, Canonical;
    OrderedShape(w, s);
    if c == 0 {
      FirstListTakesLeaf(w, s, k);
    } else {
      TakesAsItShould(w, s, c, k);
    }
    if TakesLeaf(w, s, c) {
      LeafCanonical(w, s, c, k);
      LeafStep(w, s, c, true);
    } else {
      PackageStep(w, s, c, true);
      PackageAdvances(w, s, c, k);
    }
  }

  lemma {:induction false} PackageAdvances(w: seq<nat>, s: Lists, c: nat, k: nat)
    requires SortedPositive(w) && Ordered(w, s) && 0 < c < |s.chains1| && Intact(|w|, s, c) && Canonical(w, s, c, k)
    requires k < Capacity(|w|, c) && !TakesLeaf(w, s, c)
    ensures Canonical(w, Advance(w, Advance(w, Push(s, c, Package(s, c)), c - 1, true), c - 1, true), c, k + 1)
    decreases c - 1, 2
  {
    hide Capacity, LeavesIn, ItemWeight, SortedPositive, Ordered, LeafNext, Intact, Items, PackageWeight, Canonical, Advance;
    OrderedShape(w, s);
    HeadsAre(w, s, c, k);
    TakesAsItShould(w, s, c, k);
    var needed := 2 * (k - LeavesIn(w, c, k)) + 2;
    CanonItems(w, c, k);
    PackageCounts(w, s, c);
    PackageKeepsOrder(w, s, c);
    var packaged := Push(s, c, Package(s, c));
    IntactFrame(|w|, s, packaged, c - 1);
    CanonicalFrame(w, s, packaged, c - 1, needed);
    AdvanceTwiceCanonical(w, packaged, c - 1, needed);
    PackageCanonical(w, s, c, k, Advance(w, Advance(w, packaged, c - 1, true), c - 1, true));
  }

  lemma HeadsAre(w: seq<nat>, s: Lists, c: nat, k: nat)
    requires WellFormed(s) && c < |s.chains1| && Canonical(w, s, c, k)
    ensures 2 <= k <= Capacity(|w|, c) && s.chains1[c] == Canon(w, c, k) && s.chains0[c] == Canon(w, c, k - 1)
  {
    hide Capacity, LeavesIn, Canon;
  }

  /** A package on top, and the list below advanced for the next one. */
  lemma PackageCanonical(w: seq<nat>, s: Lists, c: nat, k: nat, r: Lists)
    requires WellFormed(s) && 0 < c < |s.chains1| && Canonical(w, s, c, k) && k < Capacity(|w|, c)
    requires WellFormed(r) && |r.chains1| == |s.chains1|
    requires r.chains1[c] == Package(s, c) && r.chains0[c] == s.chains1[c]
    requires !LeafNext(w, c, LeavesIn(w, c, k), k - LeavesIn(w, c, k))
    requires var needed := 2 * (k - LeavesIn(w, c, k)) + 2;
             && needed <= Capacity(|w|, c - 1) && Canonical(w, s, c - 1, needed)
             && Sum(s, c - 1) == PackageWeight(w, c, k - LeavesIn(w, c, k) + 1)
             && (needed + 2 <= Capacity(|w|, c - 1) ==> Canonical(w, r, c - 1, needed + 2))
    ensures Canonical(w, r, c, k + 1)
  {
    hide Capacity, LeavesIn, ItemWeight, LeafNext, PackageWeight;
    PackageIsNext(w, c, k);
    HeadsAre(w, s, c - 1, 2 * (k - LeavesIn(w, c, k)) + 2);
  }

  lemma FirstListTakesLeaf(w: seq<nat>, s: Lists, k: nat)
    requires WellFormed(s) && 0 < |s.chains1| && Canonical(w, s, 0, k) && k < Capacity(|w|, 0)
    ensures TakesLeaf(w, s, 0)
  {
  }

  lemma {:induction false} AdvanceTwiceCanonical(w: seq<nat>, s: Lists, c: nat, k: nat)
    requires SortedPositive(w) && Ordered(w, s) && c < |s.chains1| && Intact(|w|, s, c) && Canonical(w, s, c, k)
    ensures k + 2 <= Capacity(|w|, c) ==> Canonical(w, Advance(w, Advance(w, s, c, true), c, true), c, k + 2)
    decreases c, 1
  {
    hide Capacity, LeavesIn, ItemWeight, SortedPositive, Ordered, Intact, Items, Advance;
    OrderedShape(w, s);
    if k + 2 <= Capacity(|w|, c) {
      CanonItems(w, c, k);
      AdvanceCanonical(w, s, c, k);
      AdvanceIntact(w, s, c);
      AdvanceKeepsOrder(w, s, c, true);
      AdvanceCanonical(w, Advance(w, s, c, true), c, k + 1);
    }
  }

  lemma {:induction false} RunCanonical(w: seq<nat>, maxbitlen: nat, i: nat)
    requires |w| >= 2 && maxbitlen > 0 && SortedPositive(w) && |w| <= Pow2(maxbitlen)
    requires 2 <= i < 2 * |w| - 2 || i == 2
    ensures Canonical(w, Run(w, maxbitlen, i), maxbitlen - 1, i)
  {
    hide Capacity, LeavesIn, ItemWeight, SortedPositive, Ordered, Intact, Items, Advance;
    if i == 2 {
      StartCanonical(w, maxbitlen, maxbitlen - 1);
    } else {
      var s, c := Run(w, maxbitlen, i - 1), maxbitlen - 1;
      RunCanonical(w, maxbitlen, i - 1);
      RunIntact(w, maxbitlen, i - 1);
      RunOrdered(w, maxbitlen, i - 1);
      EnoughCapacity(|w|, maxbitlen);
      AdvanceCanonical(w, s, c, i - 1);
      assert Run(w, maxbitlen, i) == Advance(w, s, c, true);
    }
  }

  /** The last step, which does not look ahead. */
  lemma LastCanonical(w: seq<nat>, s: Lists, c: nat, k: nat)
    requires SortedPositive(w) && Ordered(w, s) && c < |s.chains1| && Intact(|w|, s, c) && Canonical(w, s, c, k)
    requires k < Capacity(|w|, c)
    ensures Advance(w, s, c, false).chains1[c] == Canon(w, c, k + 1)
  {
    hide Capacity, LeavesIn, ItemWeight, SortedPositive, Ordered, LeafNext, Intact, Items, PackageWeight;
    OrderedShape(w, s);
    if c == 0 {
      FirstListTakesLeaf(w, s, k);
    } else {
      TakesAsItShould(w, s, c, k);
    }
    if TakesLeaf(w, s, c) {
      LeafCanonical(w, s, c, k);
      LeafStep(w, s, c, false);
    } else {
      PackageStep(w, s, c, false);
      PackageIsNext(w, c, k);
    }
  }

  /** The final chain is that of the lightest items. */
  lemma FinalIsCanon(w: seq<nat>, maxbitlen: nat)
    requires |w| >= 2 && maxbitlen > 0 && SortedPositive(w) && |w| <= Pow2(maxbitlen)
    ensures 2 * |w| - 2 <= Capacity(|w|, maxbitlen - 1)
    ensures Run(w, maxbitlen, 2 * |w| - 2).chains1[maxbitlen - 1] == Canon(w, maxbitlen - 1, 2 * |w| - 2)
  {
    hide Capacity, LeavesIn, ItemWeight, SortedPositive, Ordered, Intact, Advance, Canon, Canonical, Items, Pow2;
    var i, c := 2 * |w| - 2, maxbitlen - 1;
    EnoughCapacity(|w|, maxbitlen);
    if i == 2 {
      RunCanonical(w, maxbitlen, 2);
      HeadsAre(w, Run(w, maxbitlen, 2), c, 2);
    } else {
      RunCanonical(w, maxbitlen, i - 1);
      RunIntact(w, maxbitlen, i - 1);
      RunOrdered(w, maxbitlen, i - 1);
      LastCanonical(w, Run(w, maxbitlen, i - 1), c, i - 1);
      assert Run(w, maxbitlen, i) == Advance(w, Run(w, maxbitlen, i - 1), c, false);
    }
  }

  /** The final chain costs no more than any choice of leaves that gives as many items. */
  lemma FinalIsLeast(w: seq<nat>, maxbitlen: nat, b: seq<nat>)
    requires |w| >= 2 && maxbitlen > 0 && SortedPositive(w) && |w| <= Pow2(maxbitlen)
    requires |b| == maxbitlen && (forall c :: 0 <= c < |b| ==> b[c] <= |w|) && ItemsOf(b) >= 2 * |w| - 2
    ensures var chain := Run(w, maxbitlen, 2 * |w| - 2).chains1[maxbitlen - 1];
            Nested(chain, |w|) && ChainCost(w, chain) <= CostOf(w, b)
  {
    hide Capacity, LeavesIn, ItemWeight, SortedPositive, Ordered, Advance, Canon, Run, Total, ItemsOf, CostOf, Items;
    FinalIsCanon(w, maxbitlen);
    RunFinal(w, maxbitlen);
    CanonCost(w, maxbitlen - 1, 2 * |w| - 2);
    LightestIsLeast(w, b, 2 * |w| - 2);
  }

  // ----- any code lengths as a choice of leaves

  /** How many leaves have at least, or exactly, this length. */
  function AtLeast(l: seq<nat>, j: nat): (n: nat)
    ensures n <= |l|
  {
    if l == [] then 0 else AtLeast(l[..|l| - 1], j) + if l[|l| - 1] >= j then 1 else 0
  }

  function Exactly(l: seq<nat>, j: nat): nat {
    if l == [] then 0 else Exactly(l[..|l| - 1], j) + if l[|l| - 1] == j then 1 else 0
  }

  /** A leaf of length `x` is taken from the last `x` of the lists. */
  function Choice(l: seq<nat>, maxbitlen: nat, m: nat): (b: seq<nat>)
    requires m <= maxbitlen
    ensures |b| == m && forall c :: 0 <= c < m ==> b[c] == AtLeast(l, maxbitlen - c)
  {
    seq(m, c requires 0 <= c < m => AtLeast(l, maxbitlen - c))
  }

  lemma ChoiceLess(l: seq<nat>, maxbitlen: nat, m: nat)
    requires 0 < m <= maxbitlen
    ensures Choice(l, maxbitlen, m)[..m - 1] == Choice(l, maxbitlen, m - 1)
    ensures Choice(l, maxbitlen, m)[m - 1] == AtLeast(l, maxbitlen - m + 1)
  {
  }

  lemma {:induction false} LongerOrEqual(l: seq<nat>, j: nat)
    ensures AtLeast(l, j) == AtLeast(l, j + 1) + Exactly(l, j)
  {
    if l != [] {
      LongerOrEqual(l[..|l| - 1], j);
    }
  }

  lemma {:induction false} NoneLonger(l: seq<nat>, j: nat)
    requires forall i :: 0 <= i < |l| ==> l[i] < j
    ensures AtLeast(l, j) == 0
  {
    if l != [] {
      NoneLonger(l[..|l| - 1], j);
    }
  }

  lemma {:induction false} AllAtLeast(l: seq<nat>, j: nat)
    requires forall i :: 0 <= i < |l| ==> l[i] >= j
    ensures AtLeast(l, j) == |l|
  {
    if l != [] {
      AllAtLeast(l[..|l| - 1], j);
    }
  }

  // ----- how many items it gives

  /** The nodes at depth `j` that a code tree with these lengths needs. */
  function TreeNodes(l: seq<nat>, maxbitlen: nat, j: nat): nat
    decreases maxbitlen + 1 - j
  {
    if j > maxbitlen then 0 else Exactly(l, j) + (TreeNodes(l, maxbitlen, j + 1) + 1) / 2
  }

  lemma {:induction false} ItemsAndNodes(l: seq<nat>, maxbitlen: nat, m: nat)
    requires m <= maxbitlen && forall i :: 0 <= i < |l| ==> l[i] <= maxbitlen
    ensures ItemsOf(Choice(l, maxbitlen, m)) + TreeNodes(l, maxbitlen, maxbitlen - m + 1) == 2 * AtLeast(l, maxbitlen - m + 1)
    decreases m
  {
    hide AtLeast, Exactly;
    if m == 0 {
      NoneLonger(l, maxbitlen + 1);
    } else {
      var j := maxbitlen - m + 1;
      ItemsAndNodes(l, maxbitlen, m - 1);
      ChoiceLess(l, maxbitlen, m);
      LongerOrEqual(l, j);
      Halved(ItemsOf(Choice(l, maxbitlen, m - 1)), TreeNodes(l, maxbitlen, j + 1), AtLeast(l, j + 1));
    }
  }

  lemma Halved(k: nat, m: nat, a: nat)
    requires k + m == 2 * a
    ensures k / 2 + (m + 1) / 2 == a
  {
  }

  /** The Kraft sum of the leaves of length at least `j`, in units of 2^-maxbitlen. */
  function KraftFrom(l: seq<nat>, maxbitlen: nat, j: nat): nat
    requires forall i :: 0 <= i < |l| ==> l[i] <= maxbitlen
  {
    if l == [] then 0
    else
      var last := |l| - 1;
      KraftFrom(l[..last], maxbitlen, j) + if l[last] >= j then Pow2(maxbitlen - l[last]) else 0
  }

  lemma {:induction false} KraftOfDepth(l: seq<nat>, maxbitlen: nat, j: nat)
    requires j <= maxbitlen && forall i :: 0 <= i < |l| ==> l[i] <= maxbitlen
    ensures KraftFrom(l, maxbitlen, j) == KraftFrom(l, maxbitlen, j + 1) + Shl(Exactly(l, j), maxbitlen - j)
  {
    hide Shl, Pow2;
    ShlIsPow2(maxbitlen - j);
    if l != [] {
      var last := |l| - 1;
      KraftOfDepth(l[..last], maxbitlen, j);
      ShlAdd(Exactly(l[..last], j), 1, maxbitlen - j);
    }
  }

  lemma ShlGrows(a: nat, b: nat, k: nat)
    requires a <= b
    ensures Shl(a, k) <= Shl(b, k) && (a < b ==> Shl(a, k) < Shl(b, k))
  {
    hide Shl;
    ShlAdd(a, b - a, k);
    ShlPositive(b - a, k);
  }

  lemma {:induction false} ShlPositive(a: nat, k: nat)
    ensures a > 0 ==> Shl(a, k) > 0
  {
    if k > 0 {
      ShlPositive(a, k - 1);
    }
  }

  /** All nodes but one are full: the Kraft sum leaves no other way. */
  lemma {:induction false} NodesAndKraft(l: seq<nat>, maxbitlen: nat, j: nat)
    requires j <= maxbitlen + 1 && forall i :: 0 <= i < |l| ==> l[i] <= maxbitlen
    ensures j <= maxbitlen && TreeNodes(l, maxbitlen, j) > 0 ==>
              Shl(TreeNodes(l, maxbitlen, j) - 1, maxbitlen - j) < KraftFrom(l, maxbitlen, j)
    decreases maxbitlen + 1 - j
  {
    hide Shl, KraftFrom, Exactly;
    if j <= maxbitlen && TreeNodes(l, maxbitlen, j) > 0 {
      NodesAndKraft(l, maxbitlen, j + 1);
      KraftOfDepth(l, maxbitlen, j);
      var e, m, d := Exactly(l, j), TreeNodes(l, maxbitlen, j + 1), maxbitlen - j;
      if m == 0 {
        ShlGrows(e - 1, e, d);
      } else {
        ShlAdd(e, (m - 1) / 2, d);
        ShlOfHalf(m - 1, d);
      }
    }
  }

  lemma ShlOfHalf(m: nat, d: nat)
    requires d > 0
    ensures Shl(m / 2, d) <= Shl(m, d - 1)
  {
    ShlAdd(m / 2, m / 2, d - 1);
    ShlGrows(2 * (m / 2), m, d - 1);
  }

  /** Lengths that leave no code out, and fit the code space, give enough items. */
  lemma EnoughItems(l: seq<nat>, maxbitlen: nat)
    requires maxbitlen > 0 && forall i :: 0 <= i < |l| ==> 1 <= l[i] <= maxbitlen
    requires KraftFrom(l, maxbitlen, 1) <= Pow2(maxbitlen)
    ensures ItemsOf(Choice(l, maxbitlen, maxbitlen)) >= 2 * |l| - 2
  {
    hide Shl, KraftFrom, ItemsOf, TreeNodes;
    ItemsAndNodes(l, maxbitlen, maxbitlen);
    AllAtLeast(l, 1);
    NodesAndKraft(l, maxbitlen, 1);
    var nodes := TreeNodes(l, maxbitlen, 1);
    if nodes > 2 {
      ShlGrows(2, nodes - 1, maxbitlen - 1);
      ShlAdd(1, 1, maxbitlen - 1);
      ShlIsPow2(maxbitlen - 1);
    }
  }

  // ----- what it costs

  /** The weight of the leaves of length at least `j`. */
  function WeightAtLeast(w: seq<nat>, l: seq<nat>, j: nat): nat
    requires |w| == |l|
  {
    if l == [] then 0
    else
      var last := |l| - 1;
      WeightAtLeast(w[..last], l[..last], j) + if l[last] >= j then w[last] else 0
  }

  lemma {:induction false} LightestOf(w: seq<nat>, n: nat, k: nat)
    requires k <= n <= |w|
    ensures Lightest(w[..n], k) == Lightest(w, k)
  {
    if k > 0 {
      LightestOf(w, n, k - 1);
    }
  }

  /** So many leaves weigh at least as much as the lightest ones. */
  lemma {:induction false} NoLighterChoice(w: seq<nat>, l: seq<nat>, j: nat)
    requires |w| == |l| && SortedPositive(w)
    ensures Lightest(w, AtLeast(l, j)) <= WeightAtLeast(w, l, j)
    decreases |l|
  {
    hide Lightest, AtLeast;
    if l == [] {
      NothingChosen(w, l, j);
    } else {
      var last := |l| - 1;
      var k := AtLeast(l[..last], j);
      assert SortedPositive(w[..last]);
      NoLighterChoice(w[..last], l[..last], j);
      LightestOf(w, last, k);
      LastChosen(w, l, j);
      LightestMore(w, k);
    }
  }

  lemma NothingChosen(w: seq<nat>, l: seq<nat>, j: nat)
    requires l == []
    ensures AtLeast(l, j) == 0 && Lightest(w, 0) == 0
  {
  }

  lemma LastChosen(w: seq<nat>, l: seq<nat>, j: nat)
    requires |w| == |l| && l != []
    ensures AtLeast(l, j) == AtLeast(l[..|l| - 1], j) + if l[|l| - 1] >= j then 1 else 0
  {
  }

  lemma LightestMore(w: seq<nat>, k: nat)
    requires k < |w|
    ensures Lightest(w, k + 1) == Lightest(w, k) + w[k]
  {
  }

  /** Bits that a message with these frequencies takes beyond `d` bits for each symbol. */
  function Excess(w: seq<nat>, l: seq<nat>, d: nat): nat
    requires |w| == |l|
  {
    if l == [] then 0
    else
      var last := |l| - 1;
      Excess(w[..last], l[..last], d) + w[last] * if l[last] > d then l[last] - d else 0
  }

  lemma {:induction false} ExcessStep(w: seq<nat>, l: seq<nat>, d: nat)
    requires |w| == |l|
    ensures Excess(w, l, d) == Excess(w, l, d + 1) + WeightAtLeast(w, l, d + 1)
    decreases |l|
  {
    if l != [] {
      var last := |l| - 1;
      ExcessStep(w[..last], l[..last], d);
      if l[last] > d {
        OneTimeMore(w[last], l[last] - d - 1);
      }
    }
  }

  lemma OneTimeMore(v: nat, x: nat)
    ensures v * (x + 1) == v * x + v
  {
  }

  lemma {:induction false} NoExcess(w: seq<nat>, l: seq<nat>, d: nat)
    requires |w| == |l| && forall i :: 0 <= i < |l| ==> l[i] <= d
    ensures Excess(w, l, d) == 0
    decreases |l|
  {
    if l != [] {
      NoExcess(w[..|l| - 1], l[..|l| - 1], d);
    }
  }

  lemma {:induction false} ChoiceCostsNoMore(w: seq<nat>, l: seq<nat>, maxbitlen: nat, m: nat)
    requires |w| == |l| && SortedPositive(w) && m <= maxbitlen && forall i :: 0 <= i < |l| ==> l[i] <= maxbitlen
    ensures CostOf(w, Choice(l, maxbitlen, m)) <= Excess(w, l, maxbitlen - m)
    decreases m
  {
    hide Excess, WeightAtLeast, Lightest, AtLeast, SortedPositive;
    if m == 0 {
      NoExcess(w, l, maxbitlen);
    } else {
      ChoiceCostsNoMore(w, l, maxbitlen, m - 1);
      ChoiceLess(l, maxbitlen, m);
      NoLighterChoice(w, l, maxbitlen - m + 1);
      ExcessStep(w, l, maxbitlen - m);
    }
  }

  /** The bits of the code lengths that a chain stands for. */
  function ChainLength(w: seq<nat>, chain: Chain, k: nat): nat
    requires k <= |w|
  {
    if k == 0 then 0 else ChainLength(w, chain, k - 1) + w[k - 1] * LengthOf(chain, k - 1)
  }

  lemma {:induction false} BitsOfLink(w: seq<nat>, chain: Chain, k: nat)
    requires k <= |w| && chain.Link? && chain.index <= |w|
    ensures ChainLength(w, chain, k) == Lightest(w, if k < chain.index then k else chain.index) + ChainLength(w, chain.tail, k)
  {
    if k > 0 {
      BitsOfLink(w, chain, k - 1);
      if k - 1 < chain.index {
        OneTimeMore(w[k - 1], LengthOf(chain.tail, k - 1));
      }
    }
  }

  lemma {:induction false} BitsOfNil(w: seq<nat>, k: nat)
    requires k <= |w|
    ensures ChainLength(w, Nil, k) == 0
  {
    if k > 0 {
      BitsOfNil(w, k - 1);
    }
  }

  lemma {:induction false} CostIsLength(w: seq<nat>, chain: Chain)
    requires Nested(chain, |w|)
    ensures ChainLength(w, chain, |w|) == ChainCost(w, chain)
    decreases chain
  {
    hide Lightest, ChainLength;
    if chain.Nil? {
      BitsOfNil(w, |w|);
    } else {
      NestedWeaken(chain.tail, chain.index, |w|);
      BitsOfLink(w, chain, |w|);
      CostIsLength(w, chain.tail);
    }
  }

  /** No code within the limit takes fewer bits than the final chain. */
  lemma FinalIsOptimal(w: seq<nat>, maxbitlen: nat, l: seq<nat>)
    requires |w| >= 2 && maxbitlen > 0 && SortedPositive(w) && |w| <= Pow2(maxbitlen)
    requires |l| == |w| && (forall i :: 0 <= i < |l| ==> 1 <= l[i] <= maxbitlen)
    requires KraftFrom(l, maxbitlen, 1) <= Pow2(maxbitlen)
    ensures ChainLength(w, Run(w, maxbitlen, 2 * |w| - 2).chains1[maxbitlen - 1], |w|) <= Excess(w, l, 0)
  {
    hide Excess, KraftFrom, CostOf, ItemsOf, Run, ChainLength, ChainCost, SortedPositive, Pow2;
    var b := Choice(l, maxbitlen, maxbitlen);
    EnoughItems(l, maxbitlen);
    ChoiceCostsNoMore(w, l, maxbitlen, maxbitlen);
    FinalIsLeast(w, maxbitlen, b);
    CostIsLength(w, Run(w, maxbitlen, 2 * |w| - 2).chains1[maxbitlen - 1]);
  }
}
