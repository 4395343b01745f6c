/**
 * The `int32_t` list mergesort of `sort.c`: `list_split_int` cuts the list
 * behind its middle node with a slow and a fast pointer, `list_merge_int`
 * relinks two sorted lists into one, and `list_mergesort_int` sorts both
 * halves recursively before merging them. Only `next` fields change.
 */
module ListMergeSort {
  import opened SortSpec
  import opened NodeList

  /**
   * `list_split_int`: `slow` stops on node `Half(n) - 1` (the fast pointer
   * runs two nodes per step from node 1), so the first list keeps the first
   * ceil(n/2) nodes, the same split as `mid = lo + (hi - lo) / 2`; the cut
   * writes NULL into the `next` of that one node. An empty list gives two
   * empty lists.
   */
  method ListSplitInt(head: NodeInt?, ghost ns: seq<NodeInt>) returns (a: NodeInt?, b: NodeInt?, ghost xs: seq<NodeInt>, ghost ys: seq<NodeInt>)
    requires IsList(head, ns)
    modifies ns`next
    ensures xs == ns[..Half(|ns|)] && ys == ns[Half(|ns|)..]
    ensures IsList(a, xs) && IsList(b, ys)
    ensures forall i :: 0 <= i < |ns| && i != Half(|ns|) - 1 ==> ns[i].next == old(ns[i].next)
  {
    ghost var nx := Nexts(ns);
    ghost var h := Half(|ns|);
    var slow := head;
    var fast := if head != null then head.next else null;
    ghost var si := 0;
    if head != null {
      assert nx[0] == head.next;
    }
    while fast != null && fast.next != null
      invariant head == null ==> ns == [] && slow == null && fast == null
      invariant head != null ==> 2 * si + 1 <= |ns| && slow == ns[si]
      invariant head != null ==> fast == (if 2 * si + 1 < |ns| then ns[2 * si + 1] else null)
      decreases |ns| - si
    {
      assert nx[si] == slow.next && nx[2 * si + 1] == fast.next;
      assert 2 * si + 2 < |ns| && fast.next == ns[2 * si + 2];
      assert nx[2 * si + 2] == fast.next.next;
      slow := slow.next;
      fast := fast.next.next;
      si := si + 1;
    }
    a := head;
    xs, ys := ns[..h], ns[h..];
    if head == null {
      b := null;
      return;
    }
    if fast != null {
      assert nx[2 * si + 1] == fast.next;
    }
    assert si == h - 1;
    assert nx[si] == slow.next;
    b := if slow != null then slow.next else null;
    if slow != null {
      slow.next := null;
    }
    assert slow == ns[h - 1];
    assert forall i :: 0 <= i < |ns| && i != h - 1 ==> ns[i] != slow;
    assert Nexts(xs) == nx[..h - 1] + [null];
    assert Nexts(ys) == nx[h..];
    SplitLinked(head, ns, nx, h);
  }

  /** Cutting a list behind its `k`-th node leaves two lists. */
  lemma SplitLinked(head: NodeInt?, ns: seq<NodeInt>, nx: seq<NodeInt?>, k: nat)
    requires Linked(head, ns, nx) && 1 <= k <= |ns|
    ensures Linked(head, ns[..k], nx[..k - 1] + [null])
    ensures Linked(if k < |ns| then ns[k] else null, ns[k..], nx[k..])
  {
    assert forall i, j :: 0 <= i < j < k ==> ns[..k][i] == ns[i] && ns[..k][j] == ns[j];
    assert forall i, j :: 0 <= i < j < |ns| - k ==> ns[k..][i] == ns[k + i] && ns[k..][j] == ns[k + j];
  }

  /** No node belongs to both sequences. */
  ghost predicate Disjoint(xs: seq<NodeInt>, ys: seq<NodeInt>) {
    forall i, j :: 0 <= i < |xs| && 0 <= j < |ys| ==> xs[i] != ys[j]
  }

  /**
   * `list_merge_int`: relinks the nodes of two disjoint lists into one whose
   * values are the stable Merge of theirs (on equal values the node of `a`
   * comes first). An empty list returns the other one unchanged.
   */
  method ListMergeInt(a: NodeInt?, b: NodeInt?, ghost xs: seq<NodeInt>, ghost ys: seq<NodeInt>) returns (r: NodeInt?, ghost rs: seq<NodeInt>)
    requires IsList(a, xs) && IsList(b, ys) && Disjoint(xs, ys)
    modifies xs`next, ys`next
    ensures IsList(r, rs) && multiset(rs) == multiset(xs) + multiset(ys)
    ensures Values(rs) == Merge(old(Values(xs)), old(Values(ys)))
    decreases |xs| + |ys|, 1
  {
    if a == null {
      return b, ys;
    }
    if b == null {
      return a, xs;
    }
    if a.v <= b.v {
      r, rs := MergeLeft(a, b, xs, ys);
    } else {
      r, rs := MergeRight(a, b, xs, ys);
    }
  }

  /** `if (a->v <= b->v) { a->next = list_merge_int(a->next, b); return a; }` */
  method MergeLeft(a: NodeInt, b: NodeInt, ghost xs: seq<NodeInt>, ghost ys: seq<NodeInt>) returns (r: NodeInt, ghost rs: seq<NodeInt>)
    requires IsList(a, xs) && IsList(b, ys) && Disjoint(xs, ys) && a.v <= b.v
    modifies xs`next, ys`next
    ensures IsList(r, rs) && multiset(rs) == multiset(xs) + multiset(ys)
    ensures Values(rs) == Merge(old(Values(xs)), old(Values(ys)))
    decreases |xs| + |ys|, 0
  {
    ghost var vx := Values(xs);
    IsListTail(a, xs);
    assert Values(xs[1..]) == vx[1..];
    assert forall i :: 0 <= i < |xs| - 1 ==> xs[1..][i] in xs;
    var t;
    ghost var ts;
    t, ts := ListMergeInt(a.next, b, xs[1..], ys);
    NotMerged(a, xs, ys, ts);
    LinkFront(a, t, ts);
    r, rs := a, [a] + ts;
    HeadTail(xs);
  }

  /** `else { b->next = list_merge_int(a, b->next); return b; }` */
  method MergeRight(a: NodeInt, b: NodeInt, ghost xs: seq<NodeInt>, ghost ys: seq<NodeInt>) returns (r: NodeInt, ghost rs: seq<NodeInt>)
    requires IsList(a, xs) && IsList(b, ys) && Disjoint(xs, ys) && a.v > b.v
    modifies xs`next, ys`next
    ensures IsList(r, rs) && multiset(rs) == multiset(xs) + multiset(ys)
    ensures Values(rs) == Merge(old(Values(xs)), old(Values(ys)))
    decreases |xs| + |ys|, 0
  {
    ghost var vy := Values(ys);
    IsListTail(b, ys);
    assert Values(ys[1..]) == vy[1..];
    assert forall i :: 0 <= i < |ys| - 1 ==> ys[1..][i] in ys;
    var t;
    ghost var ts;
    t, ts := ListMergeInt(a, b.next, xs, ys[1..]);
    NotMerged(b, ys, xs, ts);
    LinkFront(b, t, ts);
    r, rs := b, [b] + ts;
    HeadTail(ys);
  }

  /** The head of one list is not among the nodes merged from its tail and the other list. */
  lemma NotMerged(h: NodeInt, xs: seq<NodeInt>, ys: seq<NodeInt>, ts: seq<NodeInt>)
    requires xs != [] && h == xs[0] && Distinct(xs)
    requires Disjoint(xs, ys) || Disjoint(ys, xs)
    requires multiset(ts) == multiset(xs[1..]) + multiset(ys) || multiset(ts) == multiset(ys) + multiset(xs[1..])
    ensures h !in ts
  {
    forall i | 0 <= i < |ts| ensures ts[i] != h {
      var n := ts[i];
      assert n in multiset(ts);
      if n in multiset(xs[1..]) {
        var k :| 0 <= k < |xs| - 1 && xs[1..][k] == n;
        assert xs[k + 1] != xs[0];
      } else {
        assert n in multiset(ys);
        var k :| 0 <= k < |ys| && ys[k] == n;
        assert ys[k] != xs[0];
      }
    }
  }

  /** `a->next = ...; return a;`: a node not in a list becomes its new head. */
  method LinkFront(h: NodeInt, t: NodeInt?, ghost ts: seq<NodeInt>)
    requires IsList(t, ts) && h !in ts
    modifies h`next
    ensures IsList(h, [h] + ts)
    ensures Values([h] + ts) == [h.v] + old(Values(ts))
  {
    ghost var tnx := Nexts(ts);
    h.next := t;
    assert Nexts([h] + ts) == [t] + tnx;
    LinkedFront(t, ts, tnx, h);
  }

  lemma HeadTail(xs: seq<NodeInt>)
    requires xs != []
    ensures multiset(xs) == multiset{xs[0]} + multiset(xs[1..])
  {
    assert xs == [xs[0]] + xs[1..];
  }

  /**
   * `list_mergesort_int`: lists of fewer than two nodes come back as they
   * are; longer ones are split, both halves sorted, and the results merged.
   * The values come out as MergeSort of the input values, hence sorted and a
   * permutation of them, and the nodes are the input nodes relinked.
   */
  method ListMergeSortInt(head: NodeInt?, ghost ns: seq<NodeInt>) returns (r: NodeInt?, ghost rs: seq<NodeInt>)
    requires IsList(head, ns)
    modifies ns`next
    ensures IsList(r, rs) && multiset(rs) == multiset(ns)
    ensures Values(rs) == MergeSort(old(Values(ns)))
    ensures Sorted(Values(rs)) && multiset(Values(rs)) == multiset(old(Values(ns)))
    decreases |ns|, 2
  {
    MergeSortSorted(Values(ns));
    MergeSortPermutes(Values(ns));
    if head == null || head.next == null {
      if head != null {
        assert Nexts(ns)[0] == head.next;
      }
      return head, ns;
    }
    assert Nexts(ns)[0] == head.next;
    r, rs := SplitSortMerge(head, ns);
  }

  /** The recursive case of `list_mergesort_int`, for lists of two or more nodes. */
  method SplitSortMerge(head: NodeInt, ghost ns: seq<NodeInt>) returns (r: NodeInt?, ghost rs: seq<NodeInt>)
    requires IsList(head, ns) && |ns| >= 2
    modifies ns`next
    ensures IsList(r, rs) && multiset(rs) == multiset(ns)
    ensures Values(rs) == MergeSort(old(Values(ns)))
    decreases |ns|, 1
  {
    ghost var v := Values(ns);
    var a, b;
    ghost var xs, ys;
    a, b, xs, ys := ListSplitInt(head, ns);
    HalvesOf(ns, xs, ys);
    assert Values(xs) == v[..Half(|ns|)] && Values(ys) == v[Half(|ns|)..];
    MergeSortUnfold(v);
    r, rs := SortAndMerge(a, b, xs, ys);
  }

  /**
   * The part of `list_mergesort_int` after the split: sort both halves, then
   * merge them.
   */
  method SortAndMerge(a: NodeInt?, b: NodeInt?, ghost xs: seq<NodeInt>, ghost ys: seq<NodeInt>) returns (r: NodeInt?, ghost rs: seq<NodeInt>)
    requires IsList(a, xs) && IsList(b, ys) && Disjoint(xs, ys)
    requires xs != [] && ys != []
    modifies xs`next, ys`next
    ensures IsList(r, rs) && multiset(rs) == multiset(xs) + multiset(ys)
    ensures Values(rs) == Merge(MergeSort(old(Values(xs))), MergeSort(old(Values(ys))))
    decreases |xs| + |ys|, 0
  {
    ghost var ynx, vy := Nexts(ys), Values(ys);
    var sa;
    ghost var sxs;
    sa, sxs := ListMergeSortInt(a, xs);
    assert Nexts(ys) == ynx && Values(ys) == vy;
    DisjointPermuted(sxs, xs, ys, ys);
    ghost var snx := Nexts(sxs);
    var sb;
    ghost var sys;
    sb, sys := ListMergeSortInt(b, ys);
    assert Nexts(sxs) == snx;
    DisjointPermuted(sxs, xs, sys, ys);
    PermutedMembers(sxs, xs, xs);
    PermutedMembers(sys, ys, ys);
    r, rs := ListMergeInt(sa, sb, sxs, sys);
  }

  /** The two halves of a split are disjoint and lie in the original list. */
  lemma HalvesOf(ns: seq<NodeInt>, xs: seq<NodeInt>, ys: seq<NodeInt>)
    requires Distinct(ns) && xs == ns[..Half(|ns|)] && ys == ns[Half(|ns|)..]
    ensures Disjoint(xs, ys) && multiset(ns) == multiset(xs) + multiset(ys)
    ensures forall i :: 0 <= i < |xs| ==> xs[i] in ns
    ensures forall i :: 0 <= i < |ys| ==> ys[i] in ns
  {
    forall i, j | 0 <= i < |xs| && 0 <= j < |ys| ensures xs[i] != ys[j] {
      assert xs[i] == ns[i] && ys[j] == ns[Half(|ns|) + j];
    }
    forall i | 0 <= i < |ys| ensures ys[i] in ns {
      assert ys[i] == ns[Half(|ns|) + i];
    }
    assert ns == xs + ys;
  }

  /** A rearrangement of nodes of `ns` holds only nodes of `ns`. */
  lemma PermutedMembers(ms: seq<NodeInt>, xs: seq<NodeInt>, ns: seq<NodeInt>)
    requires multiset(ms) == multiset(xs)
    requires forall i :: 0 <= i < |xs| ==> xs[i] in ns
    ensures forall i :: 0 <= i < |ms| ==> ms[i] in ns
  {
    forall i | 0 <= i < |ms| ensures ms[i] in ns {
      assert ms[i] in multiset(xs);
      var k :| 0 <= k < |xs| && xs[k] == ms[i];
    }
  }

  /** Rearranging two disjoint node sequences keeps them disjoint. */
  lemma DisjointPermuted(xs': seq<NodeInt>, xs: seq<NodeInt>, ys': seq<NodeInt>, ys: seq<NodeInt>)
    requires Disjoint(xs, ys) && multiset(xs') == multiset(xs) && multiset(ys') == multiset(ys)
    ensures Disjoint(xs', ys')
  {
    forall i, j | 0 <= i < |xs'| && 0 <= j < |ys'| ensures xs'[i] != ys'[j] {
      assert xs'[i] in multiset(xs) && ys'[j] in multiset(ys);
      var k :| 0 <= k < |xs| && xs[k] == xs'[i];
      var l :| 0 <= l < |ys| && ys[l] == ys'[j];
    }
  }
}
