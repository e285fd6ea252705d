/**
  The memory pool of boundary package-merge.  Chain nodes live in one array and
  link to each other by position; nodes no chain head leads to are found by a
  mark phase when the free list runs out.
 */
module BpmPool {
  import opened PackageMerge

  /** No node. */
  const NULL: int := -1

  datatype BpmNode = BpmNode(weight: nat, index: nat, tail: int, inUse: bool)

  /** A symbol that occurs, with its frequency. */
  datatype LeafNode = LeafNode(weight: nat, index: nat)

  function Weights(leaves: seq<LeafNode>): (w: seq<nat>)
    ensures |w| == |leaves|
    ensures forall i :: 0 <= i < |w| ==> w[i] == leaves[i].weight
  {
    seq(|leaves|, i requires 0 <= i < |leaves| => leaves[i].weight)
  }

  /** The nodes from position `p` on spell out `chain`. */
  ghost predicate Spells(memory: seq<BpmNode>, p: int, chain: Chain)
    decreases chain
  {
    match chain
    case Nil => p == NULL
    case Link(weight, index, tail) =>
      && 0 <= p < |memory|
      && memory[p].weight == weight && memory[p].index == index
      && Spells(memory, memory[p].tail, tail)
  }

  /** The positions of the nodes that spell out a chain. */
  ghost function Nodes(memory: seq<BpmNode>, p: int, chain: Chain): (nodes: set<int>)
    requires Spells(memory, p, chain)
    ensures forall q :: q in nodes ==> 0 <= q < |memory|
    ensures |nodes| <= Depth(chain)
    decreases chain
  {
    match chain
    case Nil => {}
    case Link(_, _, tail) => {p} + Nodes(memory, memory[p].tail, tail)
  }

  /** The same node apart from its mark. */
  ghost predicate SameNode(a: BpmNode, b: BpmNode) {
    a.weight == b.weight && a.index == b.index && a.tail == b.tail
  }

  /** A chain does not change when nodes outside it do. */
  lemma {:induction false} SpellsFrame(before: seq<BpmNode>, after: seq<BpmNode>, p: int, chain: Chain)
    requires |before| == |after| && Spells(before, p, chain)
    requires forall q :: q in Nodes(before, p, chain) ==> SameNode(before[q], after[q])
    ensures Spells(after, p, chain) && Nodes(after, p, chain) == Nodes(before, p, chain)
    decreases chain
  {
    if chain.Link? {
      assert p in Nodes(before, p, chain);
      SpellsFrame(before, after, before[p].tail, chain.tail);
    }
  }

  /** All chain heads spell out the chains of the abstract lists. */
  ghost predicate HeadsSpell(memory: seq<BpmNode>, heads: seq<int>, chains: seq<Chain>) {
    && |heads| >= |chains|
    && forall c :: 0 <= c < |chains| ==> Spells(memory, heads[c], chains[c])
  }

  /** Every node some head leads to. */
  ghost function Live(memory: seq<BpmNode>, heads: seq<int>, chains: seq<Chain>, n: nat): (nodes: set<int>)
    requires HeadsSpell(memory, heads, chains) && n <= |chains|
    ensures forall q :: q in nodes ==> 0 <= q < |memory|
  {
    if n == 0 then {} else Live(memory, heads, chains, n - 1) + Nodes(memory, heads[n - 1], chains[n - 1])
  }

  lemma {:induction false} NodesAreLive(memory: seq<BpmNode>, heads: seq<int>, chains: seq<Chain>, n: nat, c: nat)
    requires HeadsSpell(memory, heads, chains) && c < n <= |chains|
    ensures Nodes(memory, heads[c], chains[c]) <= Live(memory, heads, chains, n)
  {
    if c < n - 1 {
      NodesAreLive(memory, heads, chains, n - 1, c);
    }
  }

  lemma HeadsFrame(before: seq<BpmNode>, after: seq<BpmNode>, heads: seq<int>, chains: seq<Chain>)
    requires |before| == |after| && HeadsSpell(before, heads, chains)
    requires forall q :: q in Live(before, heads, chains, |chains|) ==> SameNode(before[q], after[q])
    ensures HeadsSpell(after, heads, chains)
    ensures forall c :: 0 <= c < |chains| ==> Nodes(after, heads[c], chains[c]) == Nodes(before, heads[c], chains[c])
  {
    forall c | 0 <= c < |chains|
      ensures Spells(after, heads[c], chains[c])
      ensures Nodes(after, heads[c], chains[c]) == Nodes(before, heads[c], chains[c])
    {
      NodesAreLive(before, heads, chains, |chains|, c);
      SpellsFrame(before, after, heads[c], chains[c]);
    }
  }

  lemma {:induction false} LiveFrame(before: seq<BpmNode>, after: seq<BpmNode>, heads: seq<int>, chains: seq<Chain>, n: nat)
    requires HeadsSpell(before, heads, chains) && HeadsSpell(after, heads, chains) && n <= |chains|
    requires forall c :: 0 <= c < |chains| ==> Nodes(after, heads[c], chains[c]) == Nodes(before, heads[c], chains[c])
    ensures Live(after, heads, chains, n) == Live(before, heads, chains, n)
  {
    if n > 0 {
      LiveFrame(before, after, heads, chains, n - 1);
      assert Nodes(after, heads[n - 1], chains[n - 1]) == Nodes(before, heads[n - 1], chains[n - 1]);
    }
  }

  /** Redirecting one head changes what is live by that head's nodes only. */
  lemma {:induction false} LiveUpdate(memory: seq<BpmNode>, heads: seq<int>, chains: seq<Chain>, n: nat,
                                      c: nat, p: int, chain: Chain)
    requires HeadsSpell(memory, heads, chains) && n <= |chains| && c < |chains| && Spells(memory, p, chain)
    ensures HeadsSpell(memory, heads[c := p], chains[c := chain])
    ensures Live(memory, heads[c := p], chains[c := chain], n)
         <= Live(memory, heads, chains, n) + Nodes(memory, p, chain)
  {
    hide Nodes, Depth;
    if n > 0 {
      LiveUpdate(memory, heads, chains, n - 1, c, p, chain);
    }
  }

  /** Twice the sum of the first `n` list depths. */
  function PoolUse(n: nat): nat {
    if n == 0 then 0 else PoolUse(n - 1) + 2 * n
  }

  /** The size the pool is given. */
  lemma {:induction false} PoolSize(n: nat)
    ensures 2 * n * (n + 1) == 2 * PoolUse(n)
    ensures n > 0 ==> PoolUse(n) >= 2
  {
    if n > 0 {
      PoolSize(n - 1);
      Expand(n);
    }
  }

  lemma Expand(n: int)
    ensures 2 * n * (n + 1) == 2 * (n - 1) * n + 4 * n
  {
  }

  lemma {:induction false} LiveIsSmall(memory: seq<BpmNode>, heads: seq<int>, chains: seq<Chain>, n: nat)
    requires HeadsSpell(memory, heads, chains) && n <= |chains|
    requires forall c :: 0 <= c < |chains| ==> Depth(chains[c]) <= c + 1
    ensures 2 * |Live(memory, heads, chains, n)| <= PoolUse(n)
  {
    if n > 0 {
      LiveIsSmall(memory, heads, chains, n - 1);
      var a, b := Live(memory, heads, chains, n - 1), Nodes(memory, heads[n - 1], chains[n - 1]);
      UnionSize(a, b);
    }
  }

  lemma UnionSize(a: set<int>, b: set<int>)
    ensures |a + b| <= |a| + |b|
  {
    assert a + b == a + (b - a);
    assert |b - a| <= |b| by {
      assert b == (b - a) + (b * a);
    }
  }

  /** The positions below `n` outside a set of positions, in order. */
  ghost function Outside(nodes: set<int>, n: nat): (free: seq<int>) {
    if n == 0 then [] else Outside(nodes, n - 1) + (if n - 1 in nodes then [] else [n - 1])
  }

  lemma {:induction false} OutsideProperties(nodes: set<int>, n: nat)
    ensures forall i :: 0 <= i < |Outside(nodes, n)| ==> 0 <= Outside(nodes, n)[i] < n && Outside(nodes, n)[i] !in nodes
    ensures forall i, j :: 0 <= i < j < |Outside(nodes, n)| ==> Outside(nodes, n)[i] != Outside(nodes, n)[j]
    ensures |Outside(nodes, n)| + |nodes| >= n
  {
    if n > 0 {
      OutsideProperties(nodes - {n - 1}, n - 1);
      OutsideIgnores(nodes, n - 1);
      if n - 1 in nodes {
        assert nodes == (nodes - {n - 1}) + {n - 1};
      } else {
        assert nodes == nodes - {n - 1};
      }
    }
  }

  lemma {:induction false} OutsideIgnores(nodes: set<int>, n: nat)
    ensures Outside(nodes - {n}, n) == Outside(nodes, n)
  {
    OutsideFrame(nodes - {n}, nodes, n);
  }

  lemma {:induction false} OutsideFrame(a: set<int>, b: set<int>, n: nat)
    requires forall k :: 0 <= k < n ==> (k in a <==> k in b)
    ensures Outside(a, n) == Outside(b, n)
  {
    if n > 0 {
      OutsideFrame(a, b, n - 1);
    }
  }

  // ----- both heads of every list

  ghost predicate BothSpell(memory: seq<BpmNode>, heads0: seq<int>, heads1: seq<int>, lists: Lists) {
    && |lists.chains0| == |lists.chains1|
    && HeadsSpell(memory, heads0, lists.chains0) && HeadsSpell(memory, heads1, lists.chains1)
  }

  ghost function AllLive(memory: seq<BpmNode>, heads0: seq<int>, heads1: seq<int>, lists: Lists): (nodes: set<int>)
    requires BothSpell(memory, heads0, heads1, lists)
    ensures forall q :: q in nodes ==> 0 <= q < |memory|
  {
    Live(memory, heads0, lists.chains0, |lists.chains0|) + Live(memory, heads1, lists.chains1, |lists.chains1|)
  }

  lemma BothFrame(before: seq<BpmNode>, after: seq<BpmNode>, heads0: seq<int>, heads1: seq<int>, lists: Lists)
    requires |before| == |after| && BothSpell(before, heads0, heads1, lists)
    requires forall q :: q in AllLive(before, heads0, heads1, lists) ==> SameNode(before[q], after[q])
    ensures BothSpell(after, heads0, heads1, lists)
    ensures AllLive(after, heads0, heads1, lists) == AllLive(before, heads0, heads1, lists)
  {
    HeadsFrame(before, after, heads0, lists.chains0);
    HeadsFrame(before, after, heads1, lists.chains1);
    LiveFrame(before, after, heads0, lists.chains0, |lists.chains0|);
    LiveFrame(before, after, heads1, lists.chains1, |lists.chains1|);
  }

  lemma LiveNext(memory: seq<BpmNode>, heads0: seq<int>, heads1: seq<int>, lists: Lists, c: nat)
    requires BothSpell(memory, heads0, heads1, lists) && c < |lists.chains1|
    ensures Spells(memory, heads0[c], lists.chains0[c]) && Spells(memory, heads1[c], lists.chains1[c])
    ensures Live(memory, heads0, lists.chains0, c) + Live(memory, heads1, lists.chains1, c)
            + Nodes(memory, heads0[c], lists.chains0[c]) + Nodes(memory, heads1[c], lists.chains1[c])
         == Live(memory, heads0, lists.chains0, c + 1) + Live(memory, heads1, lists.chains1, c + 1)
  {
    hide Spells, Nodes;
  }

  lemma NoneLive(memory: seq<BpmNode>, heads0: seq<int>, heads1: seq<int>, lists: Lists)
    requires BothSpell(memory, heads0, heads1, lists)
    ensures Live(memory, heads0, lists.chains0, 0) + Live(memory, heads1, lists.chains1, 0) == {}
  {
  }

  ghost predicate Shallow(lists: Lists) {
    && |lists.chains0| == |lists.chains1|
    && forall c :: 0 <= c < |lists.chains1| ==> Depth(lists.chains0[c]) <= c + 1 && Depth(lists.chains1[c]) <= c + 1
  }

  /** Chains of depth at most c + 1 leave at least half of the pool free. */
  lemma PoolIsBigEnough(memory: seq<BpmNode>, heads0: seq<int>, heads1: seq<int>, lists: Lists, listsize: nat)
    requires BothSpell(memory, heads0, heads1, lists) && Shallow(lists) && |lists.chains1| == listsize > 0
    ensures |AllLive(memory, heads0, heads1, lists)| < 2 * PoolUse(listsize)
  {
    var a, b := Live(memory, heads0, lists.chains0, listsize), Live(memory, heads1, lists.chains1, listsize);
    LiveIsSmall(memory, heads0, lists.chains0, listsize);
    LiveIsSmall(memory, heads1, lists.chains1, listsize);
    UnionSize(a, b);
    PoolSize(listsize);
  }

  /** What may be handed out: positions in the pool, none twice and none live. */
  ghost predicate FreeOk(free: seq<int>, live: set<int>, memsize: nat) {
    && (forall i :: 0 <= i < |free| ==> 0 <= free[i] < memsize && free[i] !in live)
    && (forall i, j :: 0 <= i < j < |free| ==> free[i] != free[j])
  }

  ghost predicate Disjoint(free: seq<int>, nodes: set<int>) {
    forall i :: 0 <= i < |free| ==> free[i] !in nodes
  }

  /** Handing out the first free node disturbs no chain. */
  lemma Allocate(memory: seq<BpmNode>, heads0: seq<int>, heads1: seq<int>, lists: Lists,
                 free: seq<int>, node: BpmNode, tail: int, tailChain: Chain)
    requires BothSpell(memory, heads0, heads1, lists)
    requires |free| > 0 && FreeOk(free, AllLive(memory, heads0, heads1, lists), |memory|)
    requires node.tail == tail && Spells(memory, tail, tailChain)
    requires Nodes(memory, tail, tailChain) <= AllLive(memory, heads0, heads1, lists)
    ensures var after := memory[free[0] := node];
            && BothSpell(after, heads0, heads1, lists)
            && FreeOk(free[1..], AllLive(after, heads0, heads1, lists), |memory|)
            && Spells(after, free[0], Link(node.weight, node.index, tailChain))
            && Disjoint(free[1..], Nodes(after, free[0], Link(node.weight, node.index, tailChain)))
  {
    var after := memory[free[0] := node];
    BothFrame(memory, after, heads0, heads1, lists);
    SpellsFrame(memory, after, tail, tailChain);
  }

  /** Making a chain of unclaimed or live nodes the lookahead of a list. */
  lemma HeadSet(memory: seq<BpmNode>, heads0: seq<int>, heads1: seq<int>, lists: Lists, free: seq<int>, c: nat, p: int,
                chain: Chain)
    requires BothSpell(memory, heads0, heads1, lists) && Shallow(lists) && c < |lists.chains1| == |heads1|
    requires FreeOk(free, AllLive(memory, heads0, heads1, lists), |memory|)
    requires Spells(memory, p, chain) && Disjoint(free, Nodes(memory, p, chain)) && Depth(chain) <= c + 1
    ensures var after := Lists(lists.chains0, lists.chains1[c := chain]);
            && BothSpell(memory, heads0, heads1[c := p], after) && Shallow(after)
            && FreeOk(free, AllLive(memory, heads0, heads1[c := p], after), |memory|)
  {
    hide Spells, Nodes, Depth, Live;
    LiveUpdate(memory, heads1, lists.chains1, |heads1|, c, p, chain);
  }

  /** Making the lookahead of a list its earlier chain. */
  lemma HeadShifted(memory: seq<BpmNode>, heads0: seq<int>, heads1: seq<int>, lists: Lists, free: seq<int>, c: nat)
    requires BothSpell(memory, heads0, heads1, lists) && Shallow(lists) && c < |lists.chains1| == |heads0| == |heads1|
    requires FreeOk(free, AllLive(memory, heads0, heads1, lists), |memory|)
    ensures var after := Lists(lists.chains0[c := lists.chains1[c]], lists.chains1);
            && BothSpell(memory, heads0[c := heads1[c]], heads1, after) && Shallow(after)
            && FreeOk(free, AllLive(memory, heads0[c := heads1[c]], heads1, after), |memory|)
  {
    hide Spells, Nodes, Depth, Live;
    NodesAreLive(memory, heads1, lists.chains1, |heads1|, c);
    LiveUpdate(memory, heads0, lists.chains0, |heads0|, c, heads1[c], lists.chains1[c]);
  }

  class BpmLists {
    const memsize: nat
    const memory: array<BpmNode>
    var numfree: nat
    var nextfree: nat
    const freelist: array<int>
    const listsize: nat
    const chains0: array<int>
    const chains1: array<int>
    ghost var lists: Lists  // what the heads spell out; empty until they are set

    ghost predicate Shape()
      reads this
    {
      && listsize > 0
      && memsize == memory.Length == freelist.Length == 2 * PoolUse(listsize)
      && chains0.Length == chains1.Length == listsize
      && chains0 != chains1 && freelist != chains0 && freelist != chains1
      && |lists.chains0| == |lists.chains1| && (|lists.chains1| == 0 || |lists.chains1| == listsize)
      && nextfree <= numfree <= memsize
      && Shallow(lists)
    }

    ghost predicate Valid()
      reads this, memory, freelist, chains0, chains1
    {
      && Shape()
      && BothSpell(memory[..], chains0[..], chains1[..], lists)
      && FreeOk(freelist[nextfree..numfree], AllLive(memory[..], chains0[..], chains1[..], lists), memsize)
    }

    constructor (maxbitlen: nat)
      requires maxbitlen > 0
      ensures Valid() && fresh(memory) && fresh(freelist) && fresh(chains0) && fresh(chains1)
      ensures listsize == maxbitlen && lists == Lists([], [])
      ensures nextfree == 0 && numfree == memsize >= 4
      ensures forall k :: 0 <= k < memsize ==> freelist[k] == k
    {
      listsize := maxbitlen;
      PoolSize(maxbitlen);
      var size := 2 * maxbitlen * (maxbitlen + 1);
      memsize := size;
      memory := new BpmNode[size](i => BpmNode(0, 0, NULL, false));
      freelist := new int[size](i => i);
      chains0 := new int[maxbitlen](i => NULL);
      chains1 := new int[maxbitlen](i => NULL);
      nextfree := 0;
      numfree := size;
      lists := Lists([], []);
    }

    /** Marks the nodes of one chain of a memory that `before` differs from only in the marks. */
    method Mark(start: int, ghost before: seq<BpmNode>, ghost chain: Chain, ghost marked: set<int>)
      requires SameNodes(before, memory[..]) && Spells(before, start, chain) && Marked(memory[..], marked)
      modifies memory
      ensures SameNodes(before, memory[..]) && Marked(memory[..], marked + Nodes(before, start, chain))
    {
      hide Marked, SameNodes;
      ghost var rest, done := chain, marked;
      var node := start;
      while node != NULL
        invariant SameNodes(before, memory[..]) && Spells(before, node, rest) && Marked(memory[..], done)
        invariant done + Nodes(before, node, rest) == marked + Nodes(before, start, chain)
        decreases rest
      {
        SameSize(before, memory[..]);
        MarkOne(before, memory[..], done, node);
        ghost var now := memory[..];
        memory[node] := memory[node].(inUse := true);
        assert memory[..] == now[node := now[node].(inUse := true)];
        done := done + {node};
        node := memory[node].tail;
        rest := rest.tail;
      }
    }

    method UnmarkAll()
      requires memsize == memory.Length
      modifies memory
      ensures SameNodes(old(memory[..]), memory[..]) && Marked(memory[..], {})
    {
      ghost var before := memory[..];
      for i := 0 to memsize
        invariant SameNodes(before, memory[..])
        invariant forall k :: 0 <= k < i ==> !memory[k].inUse
      {
        memory[i] := memory[i].(inUse := false);
      }
    }

    /** Marks exactly the nodes that some chain head leads to. */
    method MarkAll()
      requires Valid() && |lists.chains1| == listsize
      modifies memory
      ensures SameNodes(old(memory[..]), memory[..])
      ensures Marked(memory[..], AllLive(old(memory[..]), chains0[..], chains1[..], lists))
    {
      hide Spells, Marked, SameNodes, FreeOk, Shallow, Live, Nodes, HeadsSpell;
      ghost var before, heads0, heads1 := memory[..], chains0[..], chains1[..];
      UnmarkAll();
      NoneLive(before, heads0, heads1, lists);
      for i := 0 to listsize
        invariant SameNodes(before, memory[..])
        invariant Marked(memory[..], Live(before, heads0, lists.chains0, i) + Live(before, heads1, lists.chains1, i))
      {
        LiveNext(before, heads0, heads1, lists, i);
        ghost var marked := Live(before, heads0, lists.chains0, i) + Live(before, heads1, lists.chains1, i);
        Mark(chains0[i], before, lists.chains0[i], marked);
        marked := marked + Nodes(before, heads0[i], lists.chains0[i]);
        Mark(chains1[i], before, lists.chains1[i], marked);
      }
    }

    /** Finds the nodes that no chain head leads to. */
    method Collect()
      requires Valid() && |lists.chains1| == listsize
      modifies this`numfree, this`nextfree, memory, freelist
      ensures Valid() && SameNodes(old(memory[..]), memory[..])
      ensures nextfree < numfree
    {
      ghost var before, live := memory[..], AllLive(memory[..], chains0[..], chains1[..], lists);
      PoolIsBigEnough(before, chains0[..], chains1[..], lists, listsize);
      MarkAll();
      Gather(live);
      BothFrame(before, memory[..], chains0[..], chains1[..], lists);
      OutsideProperties(live, memsize);
      assert freelist[nextfree..numfree] == Outside(live, memsize);
    }

    /** Puts the unmarked nodes on the free list. */
    method Gather(ghost live: set<int>)
      requires memory.Length == freelist.Length == memsize && Marked(memory[..], live)
      modifies this`numfree, this`nextfree, freelist
      ensures nextfree == 0 && numfree <= memsize && freelist[..numfree] == Outside(live, memsize)
    {
      numfree := 0;
      for i := 0 to memsize
        invariant numfree <= i && freelist[..numfree] == Outside(live, i)
      {
        if !memory[i].inUse {
          freelist[numfree] := i;
          numfree := numfree + 1;
        }
      }
      nextfree := 0;
    }

    /** The next free node, filled in for the given item. */
    method Take(weight: nat, index: nat, tail: int, ghost tailChain: Chain) returns (result: int)
      requires Valid() && nextfree < numfree && Spells(memory[..], tail, tailChain)
      requires Nodes(memory[..], tail, tailChain) <= AllLive(memory[..], chains0[..], chains1[..], lists)
      modifies this`nextfree, memory
      ensures Valid()
      ensures Spells(memory[..], result, Link(weight, index, tailChain))
      ensures Unclaimed(result, Link(weight, index, tailChain))
      ensures old(nextfree) < freelist.Length && result == freelist[old(nextfree)]
      ensures nextfree == old(nextfree) + 1
      ensures 0 <= result < memory.Length && SameElsewhere(old(memory[..]), memory[..], result)
    {
      ghost var before, free := memory[..], freelist[nextfree..numfree];
      result := freelist[nextfree];
      var node := BpmNode(weight, index, tail, memory[result].inUse);
      Allocate(before, chains0[..], chains1[..], lists, free, node, tail, tailChain);
      nextfree := nextfree + 1;
      memory[result] := node;
      assert memory[..] == before[result := node];
      assert freelist[nextfree..numfree] == free[1..];
    }

    /** A node for the given item, on top of a chain that some head leads to. */
    method Create(weight: nat, index: nat, tail: int, ghost tailChain: Chain) returns (result: int)
      requires Valid() && |lists.chains1| == listsize && Spells(memory[..], tail, tailChain)
      requires Nodes(memory[..], tail, tailChain) <= AllLive(memory[..], chains0[..], chains1[..], lists)
      modifies this`numfree, this`nextfree, memory, freelist
      ensures Valid()
      ensures Spells(memory[..], result, Link(weight, index, tailChain))
      ensures Unclaimed(result, Link(weight, index, tailChain))
    {
      if nextfree >= numfree {
        ghost var before := memory[..];
        Collect();
        SpellsAgain(before, memory[..], tail, tailChain);
        BothFrame(before, memory[..], chains0[..], chains1[..], lists);
      }
      result := Take(weight, index, tail, tailChain);
    }

    /** Fills the first two nodes with the two lightest leaves and points all heads at them. */
    method Begin(weight0: nat, weight1: nat)
      requires Valid() && lists == Lists([], []) && nextfree == 0 && numfree == memsize >= 4
      requires forall k :: 0 <= k < memsize ==> freelist[k] == k
      modifies this`nextfree, this`lists, memory, chains0, chains1
      ensures Valid()
      ensures lists == Lists(seq(listsize, c => Link(weight0, 1, Nil)), seq(listsize, c => Link(weight1, 2, Nil)))
    {
      var first := Take(weight0, 1, NULL, Nil);
      var second := Take(weight1, 2, NULL, Nil);
      SetAllHeads(weight0, weight1);
    }

    method SetAllHeads(weight0: nat, weight1: nat)
      requires Shape() && lists == Lists([], []) && nextfree == 2 && numfree == memsize >= 4
      requires forall k :: 0 <= k < memsize ==> freelist[k] == k
      requires Spells(memory[..], 0, Link(weight0, 1, Nil)) && Spells(memory[..], 1, Link(weight1, 2, Nil))
      modifies this`lists, chains0, chains1
      ensures Valid()
      ensures lists == Lists(seq(listsize, c => Link(weight0, 1, Nil)), seq(listsize, c => Link(weight1, 2, Nil)))
    {
      hide Spells, Live, BothSpell, AllLive, Shallow;
      for i := 0 to listsize
        invariant forall c :: 0 <= c < i ==> chains0[c] == 0 && chains1[c] == 1
        invariant forall k :: 0 <= k < memsize ==> freelist[k] == k
      {
        chains0[i] := 0;
        chains1[i] := 1;
      }
      lists := Lists(seq(listsize, c => Link(weight0, 1, Nil)), seq(listsize, c => Link(weight1, 2, Nil)));
      TwoHeads(memory[..], chains0[..], chains1[..], lists, listsize, weight0, weight1);
    }

    /** None of the nodes of a chain is about to be handed out. */
    ghost predicate Unclaimed(p: int, chain: Chain)
      requires numfree <= freelist.Length && nextfree <= numfree && Spells(memory[..], p, chain)
      reads this, memory, freelist
    {
      Disjoint(freelist[nextfree..numfree], Nodes(memory[..], p, chain))
    }

    /** Makes a chain the lookahead of list `c`. */
    method SetHead(c: nat, p: int, ghost chain: Chain)
      requires Valid() && c < |lists.chains1| == listsize
      requires Spells(memory[..], p, chain) && Unclaimed(p, chain) && Depth(chain) <= c + 1
      modifies this`lists, chains1
      ensures Valid() && lists == Lists(old(lists.chains0), old(lists.chains1)[c := chain])
    {
      hide BothSpell, AllLive, Spells, Nodes, Depth, Shallow, FreeOk;
      HeadSet(memory[..], chains0[..], chains1[..], lists, freelist[nextfree..numfree], c, p, chain);
      ghost var heads := chains1[..];
      chains1[c] := p;
      assert chains1[..] == heads[c := p];
      lists := Lists(lists.chains0, lists.chains1[c := chain]);
    }

    /** The lookahead of list `c` becomes its earlier chain. */
    method ShiftHead(c: nat)
      requires Valid() && c < |lists.chains1| == listsize
      modifies this`lists, chains0
      ensures Valid() && lists == Lists(old(lists.chains0)[c := old(lists.chains1)[c]], old(lists.chains1))
      ensures chains1[c] == chains0[c]
    {
      hide BothSpell, AllLive, Shallow, FreeOk;
      HeadShifted(memory[..], chains0[..], chains1[..], lists, freelist[nextfree..numfree], c);
      ghost var heads := chains0[..];
      chains0[c] := chains1[c];
      assert chains0[..] == heads[c := chains1[c]];
      lists := Lists(lists.chains0[c := lists.chains1[c]], lists.chains1);
    }
  }

  ghost predicate SameElsewhere(a: seq<BpmNode>, b: seq<BpmNode>, p: int) {
    |a| == |b| && forall k :: 0 <= k < |a| && k != p ==> a[k] == b[k]
  }

  /** When every head is one of two single nodes, only those are live. */
  lemma {:induction false} TwoLive(memory: seq<BpmNode>, heads: seq<int>, chains: seq<Chain>, n: nat, p: int, chain: Chain)
    requires HeadsSpell(memory, heads, chains) && n <= |chains| && chain.Link? && chain.tail.Nil?
    requires forall c :: 0 <= c < |chains| ==> heads[c] == p && chains[c] == chain
    ensures Live(memory, heads, chains, n) <= {p}
  {
    if n > 0 {
      TwoLive(memory, heads, chains, n - 1, p, chain);
      assert Nodes(memory, heads[n - 1], chains[n - 1]) == {p} + {};
    }
  }

  lemma TwoHeads(memory: seq<BpmNode>, heads0: seq<int>, heads1: seq<int>, lists: Lists, n: nat, weight0: nat,
                 weight1: nat)
    requires |heads0| == |heads1| == |lists.chains0| == |lists.chains1| == n
    requires forall c :: 0 <= c < n ==> heads0[c] == 0 && lists.chains0[c] == Link(weight0, 1, Nil)
    requires forall c :: 0 <= c < n ==> heads1[c] == 1 && lists.chains1[c] == Link(weight1, 2, Nil)
    requires Spells(memory, 0, Link(weight0, 1, Nil)) && Spells(memory, 1, Link(weight1, 2, Nil))
    ensures BothSpell(memory, heads0, heads1, lists) && Shallow(lists) && AllLive(memory, heads0, heads1, lists) <= {0, 1}
  {
    hide Spells, Live;
    TwoLive(memory, heads0, lists.chains0, n, 0, Link(weight0, 1, Nil));
    TwoLive(memory, heads1, lists.chains1, n, 1, Link(weight1, 2, Nil));
    assert Depth(Link(weight0, 1, Nil)) == Depth(Link(weight1, 2, Nil)) == 1 + Depth(Nil);
  }

  ghost predicate SameNodes(a: seq<BpmNode>, b: seq<BpmNode>) {
    |a| == |b| && forall k :: 0 <= k < |a| ==> SameNode(a[k], b[k])
  }

  /** Exactly the nodes at these positions are marked. */
  ghost predicate Marked(memory: seq<BpmNode>, nodes: set<int>) {
    forall k :: 0 <= k < |memory| ==> (memory[k].inUse <==> k in nodes)
  }

  lemma SpellsAgain(before: seq<BpmNode>, after: seq<BpmNode>, p: int, chain: Chain)
    requires SameNodes(before, after) && Spells(before, p, chain)
    ensures Spells(after, p, chain) && Nodes(after, p, chain) == Nodes(before, p, chain)
  {
    SpellsFrame(before, after, p, chain);
  }

  lemma SameSize(before: seq<BpmNode>, now: seq<BpmNode>)
    requires SameNodes(before, now)
    ensures |before| == |now| && forall k :: 0 <= k < |now| ==> SameNode(before[k], now[k])
  {
  }

  /** Marking one more node. */
  lemma MarkOne(before: seq<BpmNode>, now: seq<BpmNode>, marked: set<int>, p: nat)
    requires SameNodes(before, now) && Marked(now, marked) && p < |now|
    ensures var after := now[p := now[p].(inUse := true)]; SameNodes(before, after) && Marked(after, marked + {p})
  {
  }
}
