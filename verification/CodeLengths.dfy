/**
  Code lengths from symbol frequencies: leaves are sorted by weight, boundary
  package-merge runs on the node pool, and the final chain gives the lengths.
 */
module CodeLengths {
  import opened Bits
  import opened PackageMerge
  import opened BpmPool
  import opened HuffmanCode
  import opened OptimalLengths
  import LeafSort
  import Modular

  /** The nodes of a head, and of what is behind it, are live. */
  lemma HeadIsLive(memory: seq<BpmNode>, heads0: seq<int>, heads1: seq<int>, lists: Lists, c: nat)
    requires BothSpell(memory, heads0, heads1, lists) && c < |lists.chains1| && lists.chains1[c].Link?
    ensures Spells(memory, heads1[c], lists.chains1[c])
    ensures Spells(memory, memory[heads1[c]].tail, lists.chains1[c].tail)
    ensures Nodes(memory, heads1[c], lists.chains1[c]) <= AllLive(memory, heads0, heads1, lists)
    ensures Nodes(memory, memory[heads1[c]].tail, lists.chains1[c].tail) <= AllLive(memory, heads0, heads1, lists)
  {
    NodesAreLive(memory, heads1, lists.chains1, |lists.chains1|, c);
  }

  lemma ItemDepth(w: seq<nat>, s: Lists, c: nat)
    requires Ordered(w, s) && c < |s.chains1|
    ensures Depth(s.chains1[c].tail) <= c
    ensures c > 0 ==> Depth(s.chains1[c - 1]) <= c
  {
    assert ListOk(w, s, c);
    if c > 0 {
      assert ListOk(w, s, c - 1);
    }
  }

  /** Puts a new item with the given tail at the head of list `c`. */
  method PushItem(lists: BpmLists, c: nat, weight: nat, index: nat, tail: int, ghost tailChain: Chain)
    requires lists.Valid() && WellFormed(lists.lists) && c < |lists.lists.chains1| == lists.listsize
    requires Spells(lists.memory[..], tail, tailChain) && Depth(tailChain) <= c
    requires Nodes(lists.memory[..], tail, tailChain)
          <= AllLive(lists.memory[..], lists.chains0[..], lists.chains1[..], lists.lists)
    modifies lists, lists.memory, lists.freelist, lists.chains1
    ensures lists.Valid()
    ensures lists.lists == Lists(old(lists.lists.chains0), old(lists.lists.chains1)[c := Link(weight, index, tailChain)])
  {
    var node := lists.Create(weight, index, tail, tailChain);
    lists.SetHead(c, node, Link(weight, index, tailChain));
  }

  /** The next item of list `c` is a leaf; the chain keeps its tail. */
  method AddLeaf(lists: BpmLists, c: nat, weight: nat, lastindex: nat)
    requires lists.Valid() && WellFormed(lists.lists) && c < |lists.lists.chains1| == lists.listsize
    requires Depth(lists.lists.chains1[c].tail) <= c && (c == 0 ==> lists.lists.chains1[c].tail.Nil?)
    modifies lists, lists.memory, lists.freelist, lists.chains0, lists.chains1
    ensures lists.Valid()
    ensures lists.lists == Push(old(lists.lists), c, Link(weight, lastindex + 1, old(lists.lists).chains1[c].tail))
  {
    ghost var tailChain := lists.lists.chains1[c].tail;
    lists.ShiftHead(c);
    HeadIsLive(lists.memory[..], lists.chains0[..], lists.chains1[..], lists.lists, c);
    var tail := if c == 0 then NULL else lists.memory[lists.chains1[c]].tail;
    PushItem(lists, c, weight, lastindex + 1, tail, tailChain);
  }

  /** The next item of list `c` is a package on top of the lookahead of the list below. */
  method AddPackage(lists: BpmLists, c: nat, sum: nat, lastindex: nat)
    requires lists.Valid() && WellFormed(lists.lists) && 0 < c < |lists.lists.chains1| == lists.listsize
    requires Depth(lists.lists.chains1[c - 1]) <= c
    modifies lists, lists.memory, lists.freelist, lists.chains0, lists.chains1
    ensures lists.Valid()
    ensures lists.lists == Push(old(lists.lists), c, Link(sum, lastindex, old(lists.lists).chains1[c - 1]))
  {
    hide Depth;
    ghost var tailChain := lists.lists.chains1[c - 1];
    lists.ShiftHead(c);
    HeadIsLive(lists.memory[..], lists.chains0[..], lists.chains1[..], lists.lists, c - 1);
    PushItem(lists, c, sum, lastindex, lists.chains1[c - 1], tailChain);
  }

  /** What a head shows of its chain. */
  lemma HeadShows(memory: seq<BpmNode>, heads0: seq<int>, heads1: seq<int>, lists: Lists, c: nat)
    requires BothSpell(memory, heads0, heads1, lists) && WellFormed(lists) && c < |lists.chains1|
    ensures 0 <= heads0[c] < |memory| && memory[heads0[c]].weight == lists.chains0[c].weight
    ensures 0 <= heads1[c] < |memory| && memory[heads1[c]].weight == lists.chains1[c].weight
    ensures memory[heads1[c]].index == lists.chains1[c].index
  {
    assert Spells(memory, heads0[c], lists.chains0[c]);
    assert Spells(memory, heads1[c], lists.chains1[c]);
  }

  /** The lists after one more item in list `c`, before any look-ahead further down. */
  ghost function Pushed(w: seq<nat>, s: Lists, c: nat): (r: Lists)
    requires WellFormed(s) && c < |s.chains1|
    ensures WellFormed(r) && |r.chains1| == |s.chains1|
  {
    if TakesLeaf(w, s, c) then Push(s, c, Leaf(w, s, c))
    else if c == 0 then s
    else Push(s, c, Package(s, c))
  }

  lemma PushedKeepsOrder(w: seq<nat>, s: Lists, c: nat)
    requires SortedPositive(w) && Ordered(w, s) && c < |s.chains1|
    ensures Ordered(w, Pushed(w, s, c))
  {
    if TakesLeaf(w, s, c) {
      LeafKeepsOrder(w, s, c);
    } else if c > 0 {
      PackageKeepsOrder(w, s, c);
    }
  }

  lemma AdvanceIsPushed(w: seq<nat>, s: Lists, c: nat, more: bool)
    requires WellFormed(s) && c < |s.chains1|
    ensures TakesLeaf(w, s, c) || c == 0 || !more ==> Advance(w, s, c, more) == Pushed(w, s, c)
    ensures !TakesLeaf(w, s, c) && c > 0 && more ==>
              Advance(w, s, c, more) == Advance(w, Advance(w, Pushed(w, s, c), c - 1, true), c - 1, true)
  {
    if TakesLeaf(w, s, c) {
      LeafStep(w, s, c, more);
    } else if c > 0 {
      PackageStep(w, s, c, more);
    }
  }

  /** The heads of a list, read from the pool. */
  lemma ReadHeads(lists: BpmLists, c: nat)
    requires lists.Valid() && WellFormed(lists.lists) && c < |lists.lists.chains1| == lists.listsize
    ensures c < lists.chains0.Length && c < lists.chains1.Length
    ensures 0 <= lists.chains0[c] < lists.memory.Length && 0 <= lists.chains1[c] < lists.memory.Length
    ensures lists.memory[lists.chains0[c]].weight == lists.lists.chains0[c].weight
    ensures lists.memory[lists.chains1[c]].weight == lists.lists.chains1[c].weight
    ensures lists.memory[lists.chains1[c]].index == lists.lists.chains1[c].index
  {
    HeadShows(lists.memory[..], lists.chains0[..], lists.chains1[..], lists.lists, c);
  }

  /** Adds the next item of list `c` and tells whether it was a package. */
  method AddItem(lists: BpmLists, leaves: array<LeafNode>, numpresent: nat, c: nat) returns (packaged: bool)
    requires lists.Valid() && c < |lists.lists.chains1| == lists.listsize && numpresent <= leaves.Length
    requires Ordered(Weights(leaves[..numpresent]), lists.lists)
    modifies lists, lists.memory, lists.freelist, lists.chains0, lists.chains1
    ensures lists.Valid()
    ensures lists.lists == Pushed(Weights(leaves[..numpresent]), old(lists.lists), c)
    ensures packaged <==> !TakesLeaf(Weights(leaves[..numpresent]), old(lists.lists), c) && c > 0
  {
    hide Ordered, SortedPositive, Advance, Items, WellFormed, BpmLists.Valid;
    ghost var w, s := Weights(leaves[..numpresent]), lists.lists;
    OrderedShape(w, s);
    ItemDepth(w, s, c);
    ReadHeads(lists, c);
    var lastindex := lists.memory[lists.chains1[c]].index;
    if c == 0 {
      if lastindex < numpresent {
        AddLeaf(lists, c, leaves[lastindex].weight, lastindex);
      }
      return false;
    }
    ReadHeads(lists, c - 1);
    var sum := lists.memory[lists.chains0[c - 1]].weight + lists.memory[lists.chains1[c - 1]].weight;
    if lastindex < numpresent && sum > leaves[lastindex].weight {
      AddLeaf(lists, c, leaves[lastindex].weight, lastindex);
      return false;
    }
    AddPackage(lists, c, sum, lastindex);
    return true;
  }

  /** One step: adds an item to list `c`, and looks ahead in the list below unless it is the last one. */
  method BoundaryPM(lists: BpmLists, leaves: array<LeafNode>, numpresent: nat, c: nat, num: nat)
    requires lists.Valid() && c < |lists.lists.chains1| == lists.listsize && numpresent <= leaves.Length
    requires SortedPositive(Weights(leaves[..numpresent])) && Ordered(Weights(leaves[..numpresent]), lists.lists)
    modifies lists, lists.memory, lists.freelist, lists.chains0, lists.chains1
    ensures lists.Valid()
    ensures lists.lists == Advance(Weights(leaves[..numpresent]), old(lists.lists), c, num + 1 < 2 * numpresent - 2)
    ensures Ordered(Weights(leaves[..numpresent]), lists.lists)
    decreases c, 1
  {
    hide Advance, Pushed, SortedPositive, BpmLists.Valid;
    ghost var w, s := Weights(leaves[..numpresent]), lists.lists;
    var more := num + 1 < 2 * numpresent - 2;
    PushedKeepsOrder(w, s, c);
    AdvanceIsPushed(w, s, c, more);
    var packaged := AddItem(lists, leaves, numpresent, c);
    if packaged && more {
      LookAhead(lists, leaves, numpresent, c - 1, num);
    }
  }

  /** The two items of the list below that the next package will need. */
  method LookAhead(lists: BpmLists, leaves: array<LeafNode>, numpresent: nat, c: nat, num: nat)
    requires lists.Valid() && c < |lists.lists.chains1| == lists.listsize && numpresent <= leaves.Length
    requires SortedPositive(Weights(leaves[..numpresent])) && Ordered(Weights(leaves[..numpresent]), lists.lists)
    requires num + 1 < 2 * numpresent - 2
    modifies lists, lists.memory, lists.freelist, lists.chains0, lists.chains1
    ensures lists.Valid()
    ensures var w := Weights(leaves[..numpresent]);
            lists.lists == Advance(w, Advance(w, old(lists.lists), c, true), c, true)
    ensures Ordered(Weights(leaves[..numpresent]), lists.lists)
    decreases c, 2
  {
    BoundaryPM(lists, leaves, numpresent, c, num);
    BoundaryPM(lists, leaves, numpresent, c, num);
  }

  // ----- leaves

  /** The symbols below `n` that occur. */
  ghost function PresentLeaves(frequencies: seq<nat>, n: nat): set<LeafNode>
    requires n <= |frequencies|
  {
    set s: nat | s < n && frequencies[s] > 0 :: LeafNode(frequencies[s], s)
  }

  /** Exactly the symbols that occur, each once. */
  ghost predicate LeavesOf(frequencies: seq<nat>, leaves: seq<LeafNode>) {
    multiset(leaves) == multiset(PresentLeaves(frequencies, |frequencies|))
  }

  lemma TwiceInMultiset<T>(s: seq<T>, i: nat, j: nat)
    requires i < j < |s| && s[i] == s[j]
    ensures multiset(s)[s[i]] >= 2
  {
    assert s == s[..j] + [s[j]] + s[j + 1..];
    assert s[..j] == s[..i] + [s[i]] + s[i + 1..j];
  }

  lemma LeafFacts(frequencies: seq<nat>, leaves: seq<LeafNode>)
    requires LeavesOf(frequencies, leaves)
    ensures forall i :: 0 <= i < |leaves| ==>
              leaves[i].index < |frequencies| && leaves[i].weight == frequencies[leaves[i].index] > 0
    ensures DistinctLeaves(leaves)
    ensures forall s :: 0 <= s < |frequencies| && frequencies[s] > 0 ==> LeafNode(frequencies[s], s) in leaves
  {
    var present := PresentLeaves(frequencies, |frequencies|);
    forall i | 0 <= i < |leaves|
      ensures leaves[i] in present
    {
      assert leaves[i] in multiset(leaves);
    }
    forall i, j | 0 <= i < j < |leaves|
      ensures leaves[i].index != leaves[j].index
    {
      if leaves[i].index == leaves[j].index {
        TwiceInMultiset(leaves, i, j);
      }
    }
    forall s | 0 <= s < |frequencies| && frequencies[s] > 0
      ensures LeafNode(frequencies[s], s) in leaves
    {
      assert LeafNode(frequencies[s], s) in present;
      assert LeafNode(frequencies[s], s) in multiset(leaves);
    }
  }

  method CollectLeaves(frequencies: array<nat>, numcodes: nat) returns (leaves: array<LeafNode>, numpresent: nat)
    requires numcodes <= frequencies.Length
    ensures fresh(leaves) && numpresent <= numcodes == leaves.Length
    ensures LeavesOf(frequencies[..numcodes], leaves[..numpresent])
  {
    leaves := new LeafNode[numcodes](i => LeafNode(0, 0));
    numpresent := 0;
    ghost var all := frequencies[..numcodes];
    for i := 0 to numcodes
      invariant numpresent <= i
      invariant multiset(leaves[..numpresent]) == multiset(PresentLeaves(all, i))
    {
      if frequencies[i] > 0 {
        ghost var before := leaves[..numpresent];
        leaves[numpresent] := LeafNode(frequencies[i], i);
        numpresent := numpresent + 1;
        assert leaves[..numpresent] == before + [LeafNode(all[i], i)];
        OneMoreLeaf(all, i);
      } else {
        assert PresentLeaves(all, i + 1) == PresentLeaves(all, i);
      }
    }
  }

  lemma OneMoreLeaf(frequencies: seq<nat>, i: nat)
    requires i < |frequencies| && frequencies[i] > 0
    ensures multiset(PresentLeaves(frequencies, i + 1))
         == multiset(PresentLeaves(frequencies, i)) + multiset{LeafNode(frequencies[i], i)}
  {
    var leaf := LeafNode(frequencies[i], i);
    assert PresentLeaves(frequencies, i + 1) == PresentLeaves(frequencies, i) + {leaf};
    assert leaf !in PresentLeaves(frequencies, i);
  }

  // ----- lengths from the final chain

  /** The lengths that a chain gives the symbols of the leaves; other symbols get none. */
  ghost predicate LengthsFrom(lengths: seq<nat>, leaves: seq<LeafNode>, chain: Chain) {
    && (forall i :: 0 <= i < |leaves| ==> leaves[i].index < |lengths| && lengths[leaves[i].index] == LengthOf(chain, i))
    && (forall s :: 0 <= s < |lengths| && lengths[s] > 0 ==> HasLeaf(leaves, s))
  }

  ghost predicate HasLeaf(leaves: seq<LeafNode>, s: nat) {
    exists i :: 0 <= i < |leaves| && leaves[i].index == s
  }

  lemma {:induction false} KraftUpdate(lengths: seq<nat>, s: nat, length: nat, l: nat)
    requires s < |lengths| && lengths[s] == 0 && 0 < length <= l
    ensures Kraft(lengths[s := length], l) == Kraft(lengths, l) + Pow2(l - length)
  {
    var updated := lengths[s := length];
    var n := |lengths| - 1;
    if s < n {
      assert updated[..n] == lengths[..n][s := length];
      KraftUpdate(lengths[..n], s, length, l);
    } else {
      assert updated[..n] == lengths[..n];
    }
  }

  lemma {:induction false} KraftNone(lengths: seq<nat>, l: nat)
    requires forall s :: 0 <= s < |lengths| ==> lengths[s] == 0
    ensures Kraft(lengths, l) == 0
  {
    if lengths != [] {
      KraftNone(lengths[..|lengths| - 1], l);
    }
  }

  ghost predicate DistinctLeaves(leaves: seq<LeafNode>) {
    forall i, j :: 0 <= i < j < |leaves| ==> leaves[i].index != leaves[j].index
  }

  lemma WithoutLastLeaf(lengths: seq<nat>, leaves: seq<LeafNode>, chain: Chain)
    requires LengthsFrom(lengths, leaves, chain) && DistinctLeaves(leaves) && leaves != []
    ensures var n := |leaves| - 1;
            LengthsFrom(lengths[leaves[n].index := 0], leaves[..n], chain) && DistinctLeaves(leaves[..n])
  {
    var n := |leaves| - 1;
    var fewer := lengths[leaves[n].index := 0];
    forall t | 0 <= t < |fewer| && fewer[t] > 0
      ensures HasLeaf(leaves[..n], t)
    {
      assert HasLeaf(leaves, t);
      var i :| 0 <= i < |leaves| && leaves[i].index == t;
      assert leaves[..n][i].index == t;
    }
  }

  /** Symbol by symbol or leaf by leaf, the Kraft sum is the same. */
  lemma {:induction false} KraftOfLeaves(lengths: seq<nat>, leaves: seq<LeafNode>, chain: Chain, l: nat)
    requires LengthsFrom(lengths, leaves, chain) && Depth(chain) <= l && DistinctLeaves(leaves)
    requires forall i :: 0 <= i < |leaves| ==> 0 < LengthOf(chain, i) <= l
    ensures Kraft(lengths, l) == LeafKraft(chain, |leaves|, l)
    decreases |leaves|
  {
    hide DistinctLeaves, LengthOf, Depth, HasLeaf, Kraft, Pow2;
    if leaves == [] {
      assert forall s :: 0 <= s < |lengths| && lengths[s] > 0 ==> HasLeaf(leaves, s);
      NoLeaves(lengths);
      KraftNone(lengths, l);
    } else {
      var n := |leaves| - 1;
      var s := leaves[n].index;
      var fewer := lengths[s := 0];
      WithoutLastLeaf(lengths, leaves, chain);
      KraftOfLeaves(fewer, leaves[..n], chain, l);
      KraftUpdate(fewer, s, lengths[s], l);
      assert fewer[s := lengths[s]] == lengths;
    }
  }

  lemma NoLeaves(lengths: seq<nat>)
    requires forall s :: 0 <= s < |lengths| && lengths[s] > 0 ==> HasLeaf([], s)
    ensures forall s :: 0 <= s < |lengths| ==> lengths[s] == 0
  {
  }

  /** How far the chain has been added to the lengths when only `rest` of it is left. */
  ghost predicate LengthsSoFar(lengths: seq<nat>, leaves: seq<LeafNode>, chain: Chain, rest: Chain) {
    && (forall i :: 0 <= i < |leaves| ==>
          leaves[i].index < |lengths| && lengths[leaves[i].index] + LengthOf(rest, i) == LengthOf(chain, i))
    && (forall s :: 0 <= s < |lengths| && lengths[s] > 0 ==> HasLeaf(leaves, s))
  }

  /** One more bit for each of the first `count` leaves. */
  method Lengthen(leaves: array<LeafNode>, numpresent: nat, count: nat, lengths: array<nat>)
    requires count <= numpresent <= leaves.Length && DistinctLeaves(leaves[..numpresent])
    requires forall i :: 0 <= i < numpresent ==> leaves[i].index < lengths.Length
    modifies lengths
    ensures forall i :: 0 <= i < numpresent ==>
              lengths[leaves[i].index] == old(lengths[leaves[i].index]) + if i < count then 1 else 0
    ensures forall s :: 0 <= s < lengths.Length && lengths[s] != old(lengths[s]) ==> HasLeaf(leaves[..numpresent], s)
  {
    ghost var some := leaves[..numpresent];
    for i := 0 to count
      invariant forall k :: 0 <= k < numpresent ==>
                  lengths[some[k].index] == old(lengths[some[k].index]) + if k < i then 1 else 0
      invariant forall s :: 0 <= s < lengths.Length && lengths[s] != old(lengths[s]) ==> HasLeaf(some, s)
    {
      lengths[leaves[i].index] := lengths[leaves[i].index] + 1;
      assert some[i].index == leaves[i].index;
    }
    assert forall i :: 0 <= i < numpresent ==> some[i] == leaves[i];
  }

  /** Adds up the lengths along the chain that starts at a node. */
  method ApplyChain(lists: BpmLists, start: int, ghost chain: Chain,
                    leaves: array<LeafNode>, numpresent: nat, lengths: array<nat>)
    requires Spells(lists.memory[..], start, chain) && Nested(chain, numpresent)
    requires numpresent <= leaves.Length && DistinctLeaves(leaves[..numpresent])
    requires forall i :: 0 <= i < numpresent ==> leaves[i].index < lengths.Length
    requires forall s :: 0 <= s < lengths.Length ==> lengths[s] == 0
    modifies lengths
    ensures LengthsFrom(lengths[..], leaves[..numpresent], chain)
  {
    ghost var rest, n: nat, some := chain, numpresent, leaves[..numpresent];
    var node := start;
    while node != NULL
      invariant Spells(lists.memory[..], node, rest) && Nested(rest, n) && n <= numpresent
      invariant LengthsSoFar(lengths[..], some, chain, rest)
      decreases rest
    {
      ghost var before := lengths[..];
      Lengthen(leaves, numpresent, lists.memory[node].index, lengths);
      LengthenedSoFar(before, lengths[..], some, chain, rest);
      n := rest.index;
      node := lists.memory[node].tail;
      rest := rest.tail;
    }
  }

  lemma LengthenedSoFar(before: seq<nat>, after: seq<nat>, leaves: seq<LeafNode>, chain: Chain, rest: Chain)
    requires rest.Link? && LengthsSoFar(before, leaves, chain, rest) && |after| == |before|
    requires forall i :: 0 <= i < |leaves| ==>
               after[leaves[i].index] == before[leaves[i].index] + if i < rest.index then 1 else 0
    requires forall s :: 0 <= s < |after| && after[s] != before[s] ==> HasLeaf(leaves, s)
    ensures LengthsSoFar(after, leaves, chain, rest.tail)
  {
  }

  /** What the decoder needs of code lengths: bounded, one for every symbol in use, and a Kraft sum of one. */
  ghost predicate GoodLengths(lengths: seq<nat>, frequencies: seq<nat>, maxbitlen: nat) {
    && |lengths| == |frequencies|
    && (forall s :: 0 <= s < |lengths| ==> lengths[s] <= maxbitlen)
    && (forall s :: 0 <= s < |lengths| && frequencies[s] > 0 ==> lengths[s] > 0)
    && Kraft(lengths, maxbitlen) == Pow2(maxbitlen)
  }

  // ----- what code lengths cost

  /** The bits of a message in which every symbol occurs as often as its frequency says. */
  ghost function MessageBits(frequencies: seq<nat>, lengths: seq<nat>): nat
    requires |lengths| == |frequencies|
  {
    if lengths == [] then 0
    else
      var n := |lengths| - 1;
      MessageBits(frequencies[..n], lengths[..n]) + frequencies[n] * lengths[n]
  }

  /** Code lengths within the limit that some code has, with a code for every symbol in use. */
  ghost predicate Codable(lengths: seq<nat>, frequencies: seq<nat>, maxbitlen: nat) {
    && |lengths| == |frequencies|
    && (forall s :: 0 <= s < |lengths| ==> lengths[s] <= maxbitlen)
    && (forall s :: 0 <= s < |lengths| && frequencies[s] > 0 ==> lengths[s] > 0)
    && Kraft(lengths, maxbitlen) <= Pow2(maxbitlen)
  }

  /** No code within the limit makes the message shorter. */
  ghost predicate Optimal(lengths: seq<nat>, frequencies: seq<nat>, maxbitlen: nat) {
    |lengths| == |frequencies| && forall other: seq<nat> :: Codable(other, frequencies, maxbitlen) ==>
      MessageBits(frequencies, lengths) <= MessageBits(frequencies, other)
  }

  /** The lengths of the leaves. */
  ghost function OnLeaves(lengths: seq<nat>, leaves: seq<LeafNode>): (l: seq<nat>)
    requires forall i :: 0 <= i < |leaves| ==> leaves[i].index < |lengths|
    ensures |l| == |leaves|
  {
    seq(|leaves|, i requires 0 <= i < |leaves| => lengths[leaves[i].index])
  }

  /** The leaves stand for the symbols in use. */
  ghost predicate StandFor(leaves: seq<LeafNode>, frequencies: seq<nat>) {
    && (forall i :: 0 <= i < |leaves| ==> leaves[i].index < |frequencies| && leaves[i].weight == frequencies[leaves[i].index])
    && DistinctLeaves(leaves)
    && forall s :: 0 <= s < |frequencies| && frequencies[s] > 0 ==> HasLeaf(leaves, s)
  }

  lemma LeavesStandFor(frequencies: seq<nat>, leaves: seq<LeafNode>)
    requires LeavesOf(frequencies, leaves)
    ensures StandFor(leaves, frequencies)
  {
    LeafFacts(frequencies, leaves);
    forall s | 0 <= s < |frequencies| && frequencies[s] > 0
      ensures HasLeaf(leaves, s)
    {
      var i :| 0 <= i < |leaves| && leaves[i] == LeafNode(frequencies[s], s);
    }
  }

  lemma {:induction false} BitsWithout(frequencies: seq<nat>, lengths: seq<nat>, s: nat)
    requires |lengths| == |frequencies| && s < |lengths|
    ensures MessageBits(frequencies, lengths) == MessageBits(frequencies[s := 0], lengths) + frequencies[s] * lengths[s]
    decreases |lengths|
  {
    var n, fewer := |lengths| - 1, frequencies[s := 0];
    if s < n {
      BitsWithout(frequencies[..n], lengths[..n], s);
      assert fewer[..n] == frequencies[..n][s := 0];
    } else {
      assert fewer[..n] == frequencies[..n];
    }
  }

  lemma {:induction false} NoBits(frequencies: seq<nat>, lengths: seq<nat>)
    requires |lengths| == |frequencies| && forall s :: 0 <= s < |frequencies| ==> frequencies[s] == 0
    ensures MessageBits(frequencies, lengths) == 0
    decreases |lengths|
  {
    if lengths != [] {
      NoBits(frequencies[..|lengths| - 1], lengths[..|lengths| - 1]);
    }
  }

  lemma FewerStandFor(leaves: seq<LeafNode>, frequencies: seq<nat>)
    requires StandFor(leaves, frequencies) && leaves != []
    ensures var n := |leaves| - 1;
            StandFor(leaves[..n], frequencies[leaves[n].index := 0]) && Weights(leaves[..n]) == Weights(leaves)[..n]
  {
    var n := |leaves| - 1;
    var fewer := frequencies[leaves[n].index := 0];
    forall s | 0 <= s < |fewer| && fewer[s] > 0
      ensures HasLeaf(leaves[..n], s)
    {
      assert HasLeaf(leaves, s);
      var i :| 0 <= i < |leaves| && leaves[i].index == s;
      assert leaves[..n][i].index == s;
    }
  }

  /** Symbol by symbol or leaf by leaf, a message has the same bits. */
  lemma {:induction false} BitsOfLeaves(frequencies: seq<nat>, lengths: seq<nat>, leaves: seq<LeafNode>)
    requires StandFor(leaves, frequencies) && |lengths| == |frequencies|
    ensures MessageBits(frequencies, lengths) == Excess(Weights(leaves), OnLeaves(lengths, leaves), 0)
    decreases |leaves|
  {
    hide HasLeaf, DistinctLeaves, MessageBits;
    if leaves == [] {
      NoLeafNoSymbol(frequencies);
      NoBits(frequencies, lengths);
    } else {
      var n := |leaves| - 1;
      FewerStandFor(leaves, frequencies);
      BitsOfLeaves(frequencies[leaves[n].index := 0], lengths, leaves[..n]);
      BitsWithout(frequencies, lengths, leaves[n].index);
      assert OnLeaves(lengths, leaves)[..n] == OnLeaves(lengths, leaves[..n]);
    }
  }

  lemma NoLeafNoSymbol(frequencies: seq<nat>)
    requires StandFor([], frequencies)
    ensures forall s :: 0 <= s < |frequencies| ==> frequencies[s] == 0
  {
    forall s: nat
      ensures !HasLeaf([], s)
    {
      NoLeaf(s);
    }
  }

  lemma NoLeaf(s: nat)
    ensures !HasLeaf([], s)
  {
  }

  /** The leaves do not take more code space than all symbols. */
  lemma {:induction false} KraftOnLeaves(lengths: seq<nat>, leaves: seq<LeafNode>, maxbitlen: nat)
    requires DistinctLeaves(leaves) && forall s :: 0 <= s < |lengths| ==> lengths[s] <= maxbitlen
    requires forall i :: 0 <= i < |leaves| ==> leaves[i].index < |lengths| && lengths[leaves[i].index] > 0
    ensures KraftFrom(OnLeaves(lengths, leaves), maxbitlen, 1) <= Kraft(lengths, maxbitlen)
    decreases |leaves|
  {
    hide Kraft, Pow2;
    if leaves != [] {
      var n := |leaves| - 1;
      var s := leaves[n].index;
      var fewer := lengths[s := 0];
      KraftOnLeaves(fewer, leaves[..n], maxbitlen);
      KraftUpdate(fewer, s, lengths[s], maxbitlen);
      assert fewer[s := lengths[s]] == lengths;
      assert OnLeaves(lengths, leaves)[..n] == OnLeaves(fewer, leaves[..n]);
    }
  }

  lemma {:induction false} BitsOnLeaves(w: seq<nat>, l: seq<nat>, chain: Chain, k: nat)
    requires |w| == |l| && k <= |w| && forall i :: 0 <= i < |l| ==> l[i] == LengthOf(chain, i)
    ensures Excess(w[..k], l[..k], 0) == ChainLength(w, chain, k)
    decreases k
  {
    if k > 0 {
      BitsOnLeaves(w, l, chain, k - 1);
      assert w[..k][..k - 1] == w[..k - 1] && l[..k][..k - 1] == l[..k - 1];
    }
  }

  /** The lengths from the final chain are optimal. */
  lemma ChainIsOptimal(lengths: seq<nat>, leaves: seq<LeafNode>, chain: Chain, frequencies: seq<nat>, maxbitlen: nat)
    requires |leaves| >= 2 && LeavesOf(frequencies, leaves) && LeafSort.Ascending(leaves) && maxbitlen > 0
    requires |leaves| <= Pow2(maxbitlen) && |lengths| == |frequencies| && LengthsFrom(lengths, leaves, chain)
    requires chain == Run(Weights(leaves), maxbitlen, 2 * |leaves| - 2).chains1[maxbitlen - 1]
    ensures Optimal(lengths, frequencies, maxbitlen)
  {
    hide LeafSort.Ascending, LeavesOf, MessageBits, Excess, ChainLength, Run, Kraft, KraftFrom, Pow2, HasLeaf, DistinctLeaves;
    SortedLeaves(leaves, frequencies);
    LeavesStandFor(frequencies, leaves);
    var w, n := Weights(leaves), |leaves|;
    BitsOfLeaves(frequencies, lengths, leaves);
    BitsOnLeaves(w, OnLeaves(lengths, leaves), chain, n);
    assert w[..n] == w && OnLeaves(lengths, leaves)[..n] == OnLeaves(lengths, leaves);
    forall other: seq<nat> | Codable(other, frequencies, maxbitlen)
      ensures MessageBits(frequencies, lengths) <= MessageBits(frequencies, other)
    {
      LeavesAreUsed(frequencies, leaves, other);
      KraftOnLeaves(other, leaves, maxbitlen);
      FinalIsOptimal(w, maxbitlen, OnLeaves(other, leaves));
      BitsOfLeaves(frequencies, other, leaves);
    }
  }

  lemma LeavesAreUsed(frequencies: seq<nat>, leaves: seq<LeafNode>, lengths: seq<nat>)
    requires LeavesOf(frequencies, leaves) && |lengths| == |frequencies|
    requires forall s :: 0 <= s < |lengths| && frequencies[s] > 0 ==> lengths[s] > 0
    ensures forall i :: 0 <= i < |leaves| ==> leaves[i].index < |lengths| && lengths[leaves[i].index] > 0
  {
    LeafFacts(frequencies, leaves);
  }

  /** With at most one symbol in use, one bit is the least there is. */
  lemma FewAreOptimal(lengths: seq<nat>, leaves: seq<LeafNode>, frequencies: seq<nat>, maxbitlen: nat)
    requires |leaves| <= 1 && LeavesOf(frequencies, leaves) && |lengths| == |frequencies|
    requires forall i :: 0 <= i < |leaves| ==> leaves[i].index < |lengths| && lengths[leaves[i].index] == 1
    ensures Optimal(lengths, frequencies, maxbitlen)
  {
    hide LeavesOf, MessageBits, Kraft, Pow2, HasLeaf, DistinctLeaves;
    LeavesStandFor(frequencies, leaves);
    BitsOfLeaves(frequencies, lengths, leaves);
    forall other: seq<nat> | Codable(other, frequencies, maxbitlen)
      ensures MessageBits(frequencies, lengths) <= MessageBits(frequencies, other)
    {
      LeavesAreUsed(frequencies, leaves, other);
      BitsOfLeaves(frequencies, other, leaves);
      OneLeafCosts(Weights(leaves), OnLeaves(lengths, leaves), OnLeaves(other, leaves));
    }
  }

  lemma OneLeafCosts(w: seq<nat>, l: seq<nat>, other: seq<nat>)
    requires |w| == |l| == |other| <= 1 && forall i :: 0 <= i < |l| ==> l[i] == 1 && other[i] >= 1
    ensures Excess(w, l, 0) <= Excess(w, other, 0)
  {
    if |w| == 1 {
      assert l[..0] == [] && other[..0] == [];
      Modular.MulMono(1, other[0], w[0]);
    }
  }

  lemma SortedLeaves(leaves: seq<LeafNode>, frequencies: seq<nat>)
    requires LeavesOf(frequencies, leaves) && LeafSort.Ascending(leaves)
    ensures SortedPositive(Weights(leaves))
  {
    LeafFacts(frequencies, leaves);
  }

  lemma ChainGivesLengths(lengths: seq<nat>, leaves: seq<LeafNode>, chain: Chain, frequencies: seq<nat>, maxbitlen: nat)
    requires |leaves| >= 2 && LeavesOf(frequencies, leaves) && FinalChain(|leaves|, maxbitlen, chain)
    requires |lengths| == |frequencies| && LengthsFrom(lengths, leaves, chain)
    ensures GoodLengths(lengths, frequencies, maxbitlen)
    ensures forall s :: 0 <= s < |lengths| && frequencies[s] == 0 ==> lengths[s] == 0
  {
    hide LengthOf, Depth, HasLeaf, Nested, Paired, Items, LeafKraft, Kraft;
    var n := |leaves|;
    LeafFacts(frequencies, leaves);
    forall i | 0 <= i < n
      ensures 0 < LengthOf(chain, i) <= maxbitlen
    {
      EveryLeafHasLength(n, maxbitlen, chain, i);
    }
    FinalKraft(n, maxbitlen, chain);
    KraftOfLeaves(lengths, leaves, chain, maxbitlen);
    forall s | 0 <= s < |lengths|
      ensures lengths[s] <= maxbitlen && (frequencies[s] > 0 <==> lengths[s] > 0)
    {
      if frequencies[s] > 0 {
        assert LeafNode(frequencies[s], s) in leaves;
      }
      if lengths[s] > 0 {
        LeafOfSymbol(leaves, s);
      }
    }
  }

  lemma LeafOfSymbol(leaves: seq<LeafNode>, s: nat)
    requires HasLeaf(leaves, s)
    ensures exists i :: 0 <= i < |leaves| && leaves[i].index == s
  {
  }

  /** Package-merge proper, for at least two leaves sorted by weight. */
  method PackageMergeLengths(leaves: array<LeafNode>, numpresent: nat, maxbitlen: nat, lengths: array<nat>,
                             ghost frequencies: seq<nat>)
    requires 2 <= numpresent <= leaves.Length && numpresent <= Pow2(maxbitlen) && maxbitlen > 0
    requires LeavesOf(frequencies, leaves[..numpresent]) && LeafSort.Ascending(leaves[..numpresent])
    requires lengths.Length == |frequencies| && forall s :: 0 <= s < lengths.Length ==> lengths[s] == 0
    modifies lengths
    ensures GoodLengths(lengths[..], frequencies, maxbitlen) && Optimal(lengths[..], frequencies, maxbitlen)
  {
    hide Optimal, GoodLengths, Run, FinalChain, LengthsFrom, Nested;
    hide BpmLists.Valid, LeavesOf, LeafSort.Ascending, SortedPositive, Ordered, Spells;
    ghost var some := leaves[..numpresent];
    ghost var w := Weights(some);
    SortedLeaves(some, frequencies);
    LeafFacts(frequencies, some);
    var lists := RunLists(leaves, numpresent, maxbitlen);
    RunFinal(w, maxbitlen);
    ghost var chain := lists.lists.chains1[maxbitlen - 1];
    LastChain(lists, maxbitlen - 1);
    FinalIsNested(numpresent, maxbitlen, chain);
    assert forall i :: 0 <= i < numpresent ==> some[i] == leaves[i];
    ApplyChain(lists, lists.chains1[maxbitlen - 1], chain, leaves, numpresent, lengths);
    ChainGivesLengths(lengths[..], some, chain, frequencies, maxbitlen);
    ChainIsOptimal(lengths[..], some, chain, frequencies, maxbitlen);
  }

  lemma LastChain(lists: BpmLists, c: nat)
    requires lists.Valid() && c < |lists.lists.chains1| == lists.listsize
    ensures lists.chains1.Length == lists.listsize
    ensures Spells(lists.memory[..], lists.chains1[c], lists.lists.chains1[c])
  {
    assert Spells(lists.memory[..], lists.chains1[..][c], lists.lists.chains1[c]);
  }

  lemma FinalIsNested(n: nat, maxbitlen: nat, chain: Chain)
    requires FinalChain(n, maxbitlen, chain)
    ensures Nested(chain, n)
  {
  }

  /** Each step adds one item to the last list, until it has 2 * numpresent - 2 of them. */
  method RunLists(leaves: array<LeafNode>, numpresent: nat, maxbitlen: nat) returns (lists: BpmLists)
    requires 2 <= numpresent <= leaves.Length && maxbitlen > 0
    requires SortedPositive(Weights(leaves[..numpresent]))
    ensures fresh(lists) && lists.Valid() && lists.listsize == maxbitlen
    ensures lists.lists == Run(Weights(leaves[..numpresent]), maxbitlen, 2 * numpresent - 2)
  {
    hide Advance;
    hide BpmLists.Valid, SortedPositive, Ordered;
    ghost var w := Weights(leaves[..numpresent]);
    lists := new BpmLists(maxbitlen);
    lists.Begin(leaves[0].weight, leaves[1].weight);
    StartOrdered(w, maxbitlen);
    assert lists.lists == Start(w, maxbitlen);
    for i := 2 to 2 * numpresent - 2
      invariant lists.Valid() && lists.listsize == maxbitlen
      invariant fresh(lists) && fresh(lists.memory) && fresh(lists.freelist) && fresh(lists.chains0) && fresh(lists.chains1)
      invariant lists.lists == Run(w, maxbitlen, i) && Ordered(w, lists.lists)
    {
      BoundaryPM(lists, leaves, numpresent, maxbitlen - 1, i);
    }
  }

  /** Error: the code lengths cannot represent all symbols. */
  const TOO_MANY_SYMBOLS: nat := 80

  /**
    Length-limited code lengths for the symbols with the given frequencies.  When
    fewer than two symbols occur, the lengths of symbols 0 and 1 are written, so an
    alphabet of exactly one symbol is not allowed.
   */
  method HuffmanCodeLengths(lengths: array<nat>, frequencies: array<nat>, numcodes: nat, maxbitlen: nat)
    returns (error: nat)
    requires lengths != frequencies && numcodes == lengths.Length <= frequencies.Length && numcodes != 1
    modifies lengths
    ensures error == if numcodes == 0 || Pow2(maxbitlen) < numcodes then TOO_MANY_SYMBOLS else 0
    ensures error == 0 ==>
              GoodLengths(lengths[..], frequencies[..numcodes], maxbitlen) && Optimal(lengths[..], frequencies[..numcodes], maxbitlen)
  {
    hide Optimal;
    if numcodes == 0 || Pow2(maxbitlen) < numcodes {
      return TOO_MANY_SYMBOLS;
    }
    Pow2Values();
    ghost var some := frequencies[..numcodes];
    var leaves, numpresent := CollectLeaves(frequencies, numcodes);
    for s := 0 to numcodes
      invariant forall t :: 0 <= t < s ==> lengths[t] == 0
      invariant LeavesOf(some, leaves[..numpresent])
    {
      lengths[s] := 0;
    }
    LeafFacts(some, leaves[..numpresent]);
    if numpresent == 0 {
      lengths[0] := 1;
      lengths[1] := 1;
      TwoSymbols(lengths[..], some, leaves[..numpresent], 0, 1, maxbitlen);
    } else if numpresent == 1 {
      var s := leaves[0].index;
      assert leaves[..numpresent][0] == leaves[0];
      var t := if s == 0 then 1 else 0;
      lengths[s] := 1;
      lengths[t] := 1;
      TwoSymbols(lengths[..], some, leaves[..numpresent], s, t, maxbitlen);
    } else {
      LeafSort.Sort(leaves, numpresent);
      PackageMergeLengths(leaves, numpresent, maxbitlen, lengths, some);
    }
    error := 0;
  }

  /** Two symbols of length one, with every symbol in use among them. */
  lemma TwoSymbols(lengths: seq<nat>, frequencies: seq<nat>, leaves: seq<LeafNode>, s: nat, t: nat, maxbitlen: nat)
    requires |leaves| <= 1 && LeavesOf(frequencies, leaves) && maxbitlen > 0
    requires |lengths| == |frequencies| && s < |lengths| && t < |lengths| && s != t
    requires leaves != [] ==> leaves[0].index == s
    requires forall i :: 0 <= i < |lengths| ==> lengths[i] == if i == s || i == t then 1 else 0
    ensures GoodLengths(lengths, frequencies, maxbitlen) && Optimal(lengths, frequencies, maxbitlen)
  {
    hide Kraft, LeavesOf, DistinctLeaves, HasLeaf, Optimal;
    LeafFacts(frequencies, leaves);
    FewAreOptimal(lengths, leaves, frequencies, maxbitlen);
    var none := lengths[s := 0][t := 0];
    KraftNone(none, maxbitlen);
    KraftUpdate(none, s, 1, maxbitlen);
    KraftUpdate(none[s := 1], t, 1, maxbitlen);
    assert none[s := 1][t := 1] == lengths;
    forall i | 0 <= i < |lengths| && frequencies[i] > 0
      ensures lengths[i] > 0
    {
      assert LeafNode(frequencies[i], i) in leaves;
    }
  }
}
