/**
  The bottom-up merge sort that orders the leaves of package-merge by weight,
  moving between two arrays.
 */
module LeafSort {
  import opened BpmPool

  ghost predicate Ascending(s: seq<LeafNode>) {
    forall i, j :: 0 <= i <= j < |s| ==> s[i].weight <= s[j].weight
  }

  /** Merging two runs; the first one wins ties. */
  function Merge(x: seq<LeafNode>, y: seq<LeafNode>): (r: seq<LeafNode>)
    ensures |r| == |x| + |y|
  {
    if x == [] then y
    else if y == [] || x[0].weight <= y[0].weight then [x[0]] + Merge(x[1..], y)
    else [y[0]] + Merge(x, y[1..])
  }

  lemma FirstMember(x: seq<LeafNode>)
    requires x != []
    ensures multiset(x) == multiset([x[0]]) + multiset(x[1..])
  {
    assert x == [x[0]] + x[1..];
  }

  lemma {:induction false} MergeMembers(x: seq<LeafNode>, y: seq<LeafNode>)
    ensures multiset(Merge(x, y)) == multiset(x) + multiset(y)
  {
    if x == [] {
    } else if y == [] || x[0].weight <= y[0].weight {
      MergeMembers(x[1..], y);
      FirstMember(x);
      assert Merge(x, y) == [x[0]] + Merge(x[1..], y);
    } else {
      MergeMembers(x, y[1..]);
      FirstMember(y);
      assert Merge(x, y) == [y[0]] + Merge(x, y[1..]);
    }
  }

  ghost predicate AtLeast(s: seq<LeafNode>, weight: nat) {
    forall i :: 0 <= i < |s| ==> weight <= s[i].weight
  }

  lemma {:induction false} MergeAtLeast(x: seq<LeafNode>, y: seq<LeafNode>, weight: nat)
    requires AtLeast(x, weight) && AtLeast(y, weight)
    ensures AtLeast(Merge(x, y), weight)
  {
    if x == [] {
    } else if y == [] || x[0].weight <= y[0].weight {
      MergeAtLeast(x[1..], y, weight);
    } else {
      MergeAtLeast(x, y[1..], weight);
    }
  }

  lemma {:induction false} MergeAscending(x: seq<LeafNode>, y: seq<LeafNode>)
    requires Ascending(x) && Ascending(y)
    ensures Ascending(Merge(x, y))
  {
    if x == [] {
    } else if y == [] || x[0].weight <= y[0].weight {
      MergeAscending(x[1..], y);
      MergeAtLeast(x[1..], y, x[0].weight);
    } else {
      MergeAscending(x, y[1..]);
      MergeAtLeast(x, y[1..], y[0].weight);
    }
  }

  /** Cut into pieces of the given width, every piece is in order. */
  ghost predicate Runs(s: seq<LeafNode>, width: nat)
    requires width > 0
  {
    if |s| <= width then Ascending(s) else Ascending(s[..width]) && Runs(s[width..], width)
  }

  /** Like `Runs`, without a shorter piece at the end. */
  ghost predicate FullRuns(s: seq<LeafNode>, width: nat)
    requires width > 0
  {
    s == [] || (|s| >= width && Ascending(s[..width]) && FullRuns(s[width..], width))
  }

  lemma {:induction false} AppendRun(s: seq<LeafNode>, run: seq<LeafNode>, width: nat)
    requires width > 0 && FullRuns(s, width) && Ascending(run) && |run| <= width
    ensures Runs(s + run, width)
    ensures |run| == width ==> FullRuns(s + run, width)
  {
    if s == [] {
      assert s + run == run;
      if |run| == width {
        assert run[..width] == run;
      }
    } else {
      AppendRun(s[width..], run, width);
      assert (s + run)[width..] == s[width..] + run;
      assert (s + run)[..width] == s[..width];
    }
  }

  lemma {:induction false} RunsOfOne(s: seq<LeafNode>)
    ensures Runs(s, 1)
  {
    if |s| > 1 {
      RunsOfOne(s[1..]);
    }
  }

  lemma MergeHead(x: seq<LeafNode>, y: seq<LeafNode>)
    requires x != [] || y != []
    ensures var first := x != [] && (y == [] || x[0].weight <= y[0].weight);
            Merge(x, y) == if first then [x[0]] + Merge(x[1..], y) else [y[0]] + Merge(x, y[1..])
  {
    if x == [] {
      assert y == [y[0]] + y[1..];
    }
  }

  /** Merges the neighbouring runs [p, q) and [q, r) of `a` into `b`. */
  method MergeBlock(a: array<LeafNode>, b: array<LeafNode>, p: nat, q: nat, r: nat)
    requires a != b && p <= q <= r <= a.Length && r <= b.Length
    modifies b
    ensures b[p..r] == Merge(a[p..q], a[q..r])
    ensures b[..p] == old(b[..p])
  {
    hide Merge;
    var i, j := p, q;
    ghost var merged := Merge(a[p..q], a[q..r]);
    for k := p to r
      invariant p <= i <= q <= j <= r && i - p + j - q == k - p
      invariant b[p..k] + Merge(a[i..q], a[j..r]) == merged
      invariant b[..p] == old(b[..p])
    {
      ghost var done := b[p..k];
      MergeHead(a[i..q], a[j..r]);
      if i < q && (j >= r || a[i].weight <= a[j].weight) {
        b[k] := a[i];
        assert a[i..q][1..] == a[i + 1..q];
        i := i + 1;
      } else {
        b[k] := a[j];
        assert a[j..r][1..] == a[j + 1..r];
        j := j + 1;
      }
      assert merged == done + ([b[k]] + Merge(a[i..q], a[j..r]));
      Regroup(done, b[k], Merge(a[i..q], a[j..r]));
      assert b[p..k + 1] == b[p..k] + [b[k]];
    }
    MergeNothing();
  }

  lemma Regroup<T>(a: seq<T>, x: T, b: seq<T>)
    ensures a + ([x] + b) == (a + [x]) + b
  {
  }

  lemma MergeNothing()
    ensures Merge([], []) == []
  {
  }

  /** What one pass over the array has achieved up to position `p`. */
  ghost predicate PassDone(a: seq<LeafNode>, b: seq<LeafNode>, width: nat, p: nat)
    requires width > 0
  {
    && |a| == |b|
    && if p < |a| then
         FullRuns(b[..p], 2 * width) && multiset(b[..p]) == multiset(a[..p]) && Runs(a[p..], width)
       else
         Runs(b, 2 * width) && multiset(b) == multiset(a)
  }

  /** The two runs of width `width` at the front of a sequence of runs. */
  lemma TwoRuns(s: seq<LeafNode>, width: nat, q: nat, r: nat)
    requires width > 0 && Runs(s, width)
    requires q == (if width > |s| then |s| else width) && r == (if 2 * width > |s| then |s| else 2 * width)
    ensures Ascending(s[..q]) && Ascending(s[q..r])
    ensures r < |s| ==> Runs(s[r..], width)
  {
    if |s| <= width {
      assert s[..q] == s;
    } else {
      var t := s[width..];
      if |t| <= width {
        assert t == s[q..r];
      } else {
        assert t[..width] == s[q..r] && t[width..] == s[r..];
      }
    }
  }

  lemma PassMembers(a: seq<LeafNode>, before: seq<LeafNode>, after: seq<LeafNode>, p: nat, q: nat, r: nat)
    requires p <= q <= r <= |a| == |before| == |after| && multiset(before[..p]) == multiset(a[..p])
    requires after[..p] == before[..p] && after[p..r] == Merge(a[p..q], a[q..r])
    ensures multiset(after[..r]) == multiset(a[..r])
  {
    hide Merge;
    MergeMembers(a[p..q], a[q..r]);
    assert after[..r] == after[..p] + after[p..r];
    assert a[..r] == a[..p] + a[p..r] && a[p..r] == a[p..q] + a[q..r];
  }

  lemma Slices(s: seq<LeafNode>, p: nat, i: nat, j: nat)
    requires p <= i <= j <= |s|
    ensures s[p..][i - p..j - p] == s[i..j]
  {
  }

  /** The next two runs from `p` on, and those after them. */
  lemma NextRuns(a: seq<LeafNode>, width: nat, p: nat, q: nat, r: nat)
    requires width > 0 && p < |a| && Runs(a[p..], width)
    requires q == (if p + width > |a| then |a| else p + width) && r == (if p + 2 * width > |a| then |a| else p + 2 * width)
    ensures Ascending(a[p..q]) && Ascending(a[q..r])
    ensures r < |a| ==> Runs(a[r..], width)
  {
    hide Runs, Ascending;
    var s := a[p..];
    TwoRuns(s, width, q - p, r - p);
    Slices(a, p, p, q);
    Slices(a, p, q, r);
    assert s[..q - p] == s[0..q - p];
    assert s[r - p..] == a[r..];
  }

  lemma PassRuns(a: seq<LeafNode>, before: seq<LeafNode>, after: seq<LeafNode>, width: nat, p: nat, q: nat, r: nat)
    requires width > 0 && p < |a| == |before| == |after|
    requires Runs(a[p..], width) && FullRuns(before[..p], 2 * width)
    requires q == (if p + width > |a| then |a| else p + width) && r == (if p + 2 * width > |a| then |a| else p + 2 * width)
    requires after[..p] == before[..p] && after[p..r] == Merge(a[p..q], a[q..r])
    ensures Runs(after[..r], 2 * width)
    ensures r < |a| ==> FullRuns(after[..r], 2 * width) && Runs(a[r..], width)
  {
    hide Merge, Runs, FullRuns;
    NextRuns(a, width, p, q, r);
    MergeAscending(a[p..q], a[q..r]);
    AppendRun(before[..p], after[p..r], 2 * width);
    assert after[..r] == after[..p] + after[p..r];
  }

  lemma PassStep(a: seq<LeafNode>, before: seq<LeafNode>, after: seq<LeafNode>, width: nat, p: nat, q: nat, r: nat)
    requires width > 0 && p < |a| && PassDone(a, before, width, p) && |after| == |a|
    requires q == (if p + width > |a| then |a| else p + width) && r == (if p + 2 * width > |a| then |a| else p + 2 * width)
    requires after[..p] == before[..p] && after[p..r] == Merge(a[p..q], a[q..r])
    ensures PassDone(a, after, width, p + 2 * width)
  {
    hide Merge, Runs, FullRuns, Ascending;
    PassRuns(a, before, after, width, p, q, r);
    PassMembers(a, before, after, p, q, r);
    assert after[..|a|] == after && a[..|a|] == a;
  }

  lemma PassStart(a: seq<LeafNode>, b: seq<LeafNode>, width: nat)
    requires width > 0 && 0 < |a| == |b| && Runs(a, width)
    ensures PassDone(a, b, width, 0)
  {
    assert a[0..] == a;
  }

  /** Merges all pairs of neighbouring runs of `a` into `b`. */
  method Pass(a: array<LeafNode>, b: array<LeafNode>, num: nat, width: nat)
    requires a != b && 0 < num <= a.Length && num <= b.Length && width > 0 && Runs(a[..num], width)
    modifies b
    ensures Runs(b[..num], 2 * width) && multiset(b[..num]) == multiset(a[..num])
  {
    hide Merge, Runs, FullRuns;
    var p := 0;
    ghost var all := a[..num];
    PassStart(all, b[..num], width);
    while p < num
      invariant PassDone(all, b[..num], width, p)
    {
      var q := if p + width > num then num else p + width;
      var r := if p + 2 * width > num then num else p + 2 * width;
      ghost var before := b[..num];
      MergeStep(a, b, num, width, p, q, r);
      PassStep(all, before, b[..num], width, p, q, r);
      p := p + 2 * width;
    }
  }

  /** `MergeBlock` seen on the first `num` leaves. */
  method MergeStep(a: array<LeafNode>, b: array<LeafNode>, num: nat, width: nat, p: nat, q: nat, r: nat)
    requires a != b && p <= q <= r <= num <= a.Length && num <= b.Length
    modifies b
    ensures b[..num][p..r] == Merge(a[..num][p..q], a[..num][q..r])
    ensures b[..num][..p] == old(b[..num])[..p]
  {
    hide Merge;
    assert a[..num][p..q] == a[p..q] && a[..num][q..r] == a[q..r];
    ghost var before := b[..num];
    assert before[..p] == b[..p];
    MergeBlock(a, b, p, q, r);
    assert b[..num][p..r] == b[p..r];
    assert b[..num][..p] == b[..p];
  }

  lemma OneRun(s: seq<LeafNode>, width: nat)
    requires 0 < width && |s| <= width && Runs(s, width)
    ensures Ascending(s)
  {
  }

  /** Copies the sorted leaves back when they ended up in the other array. */
  method CopyBack(mem: array<LeafNode>, leaves: array<LeafNode>, num: nat)
    requires mem != leaves && num == mem.Length <= leaves.Length
    modifies leaves
    ensures leaves[..num] == mem[..num]
  {
    for i := 0 to num
      invariant leaves[..i] == mem[..i]
    {
      leaves[i] := mem[i];
    }
  }

  /** Sorts the first `num` leaves by weight. */
  method Sort(leaves: array<LeafNode>, num: nat)
    requires 0 < num <= leaves.Length
    modifies leaves
    ensures Ascending(leaves[..num]) && multiset(leaves[..num]) == old(multiset(leaves[..num]))
  {
    hide Runs, Ascending;
    ghost var members := multiset(leaves[..num]);
    var mem := new LeafNode[num](i => LeafNode(0, 0));
    var width, counter := 1, 0;
    RunsOfOne(leaves[..num]);
    while width < num
      invariant width > 0 && mem != leaves
      invariant var a := if counter % 2 == 1 then mem else leaves;
                Runs(a[..num], width) && multiset(a[..num]) == members
      decreases num - width
    {
      var a := if counter % 2 == 1 then mem else leaves;
      var b := if counter % 2 == 1 then leaves else mem;
      Pass(a, b, num, width);
      counter := counter + 1;
      width := 2 * width;
    }
    OneRun((if counter % 2 == 1 then mem else leaves)[..num], width);
    if counter % 2 == 1 {
      CopyBack(mem, leaves, num);
    }
  }
}
