/**
 * The `int32_t` linked-list sorts of `sort.c`: insertion sort and mergesort
 * relink `next` pointers, bubble sort swaps `v` fields between neighbours.
 * Lists are described by their ghost node sequences (NodeList.IsList), and
 * results by their values (NodeList.Values).
 */
module ListSort {
  import opened SortSpec
  import opened NodeList
  import ArraySort

  /**
   * Where `list_insertion_sort_int` links a node: in front of the first node
   * whose value is not smaller, so among equal values the later one goes first.
   */
  function InsertLeft(s: seq<int>, key: int): (r: seq<int>)
    ensures |r| == |s| + 1
  {
    if s == [] || key <= s[0] then [key] + s
    else [s[0]] + InsertLeft(s[1..], key)
  }

  /** The list insertion sort on values: each node of the input, in order, is inserted. */
  function ListInsertionSort(s: seq<int>): (r: seq<int>)
    ensures |r| == |s|
  {
    if s == [] then [] else InsertLeft(ListInsertionSort(s[..|s| - 1]), s[|s| - 1])
  }

  /** Insertion lands right after the smaller prefix: `s[..k]` below the key, `s[k]` not. */
  lemma {:induction false} InsertLeftAt(s: seq<int>, key: int, k: nat)
    requires k <= |s|
    requires forall q :: 0 <= q < k ==> s[q] < key
    requires k == |s| || key <= s[k]
    ensures InsertLeft(s, key) == s[..k] + [key] + s[k..]
  {
    if k > 0 {
      InsertLeftAt(s[1..], key, k - 1);
      assert s[1..][..k - 1] == s[1..k];
      assert s[..k] == [s[0]] + s[1..k];
    }
  }

  /** Insertion adds exactly the key. */
  lemma {:induction false} InsertLeftPermutes(s: seq<int>, key: int)
    ensures multiset(InsertLeft(s, key)) == multiset(s) + multiset{key}
  {
    if !(s == [] || key <= s[0]) {
      InsertLeftPermutes(s[1..], key);
      assert s == [s[0]] + s[1..];
    }
  }

  /** Insertion into a sorted list keeps it sorted. */
  lemma {:induction false} InsertLeftSorted(s: seq<int>, key: int)
    requires Sorted(s)
    ensures Sorted(InsertLeft(s, key))
  {
    if s == [] || key <= s[0] {
      SortedCons(key, s);
    } else {
      var t := InsertLeft(s[1..], key);
      SortedTail(s);
      InsertLeftSorted(s[1..], key);
      assert t[0] == key || (|s| > 1 && t[0] == s[1]) by {
        if !(s[1..] == [] || key <= s[1..][0]) { assert t[0] == s[1..][0]; }
      }
      SortedCons(s[0], t);
    }
  }

  /** The list insertion sort sorts. */
  lemma {:induction false} ListInsertionSortSorted(s: seq<int>)
    ensures Sorted(ListInsertionSort(s))
  {
    if s != [] {
      ListInsertionSortSorted(s[..|s| - 1]);
      InsertLeftSorted(ListInsertionSort(s[..|s| - 1]), s[|s| - 1]);
    }
  }

  /** The list insertion sort rearranges its input. */
  lemma {:induction false} ListInsertionSortPermutes(s: seq<int>)
    ensures multiset(ListInsertionSort(s)) == multiset(s)
  {
    if s != [] {
      ListInsertionSortPermutes(s[..|s| - 1]);
      InsertLeftPermutes(ListInsertionSort(s[..|s| - 1]), s[|s| - 1]);
      assert s == s[..|s| - 1] + [s[|s| - 1]];
    }
  }

  /**
   * On values the list insertion sort agrees with the array insertion sort,
   * although it places equal values in the opposite order: with plain
   * integers equal values cannot be told apart.
   */
  lemma ListInsertionSortAgrees(s: seq<int>)
    ensures ListInsertionSort(s) == InsertionSort(s)
  {
    ListInsertionSortSorted(s);
    ListInsertionSortPermutes(s);
    InsertionSortSorted(s);
    InsertionSortPermutes(s);
    SortedPermutationUnique(ListInsertionSort(s), InsertionSort(s));
  }

  /**
   * `list_insertion_sort_int`: the nodes are unlinked from the input one
   * by one, in order, and linked into the sorted list; the result holds the
   * same nodes, values are never changed, and the values come out as
   * ListInsertionSort of the input values.
   */
  method ListInsertionSortInt(head0: NodeInt?, ghost ns: seq<NodeInt>) returns (sorted: NodeInt?, ghost ms: seq<NodeInt>)
    requires IsList(head0, ns)
    modifies ns`next
    ensures IsList(sorted, ms) && multiset(ms) == multiset(ns)
    ensures Values(ms) == ListInsertionSort(old(Values(ns)))
    ensures Sorted(Values(ms)) && multiset(Values(ms)) == multiset(old(Values(ns)))
  {
    ghost var w, nx := Values(ns), Nexts(ns);
    sorted, ms := null, [];
    var head := head0;
    ghost var idx := 0;
    while head != null
      invariant Linked(head0, ns, nx)
      invariant 0 <= idx <= |ns| && head == (if idx < |ns| then ns[idx] else null)
      invariant forall i :: idx <= i < |ns| ==> ns[i].next == nx[i]
      invariant IsList(sorted, ms) && multiset(ms) == multiset(ns[..idx])
      invariant Values(ms) == ListInsertionSort(w[..idx])
      decreases |ns| - idx
    {
      assert head.v == w[idx];
      head, sorted, ms := InsertHead(head, sorted, ms, ns, nx, idx);
      ListInsertionSortSnoc(w, idx);
      idx := idx + 1;
    }
    assert ns[..idx] == ns && w[..idx] == w;
    ListInsertionSortSorted(w);
    ListInsertionSortPermutes(w);
  }

  /**
   * One iteration of the outer loop of `list_insertion_sort_int`: the node
   * `head`, the `idx`-th of the input, is unlinked from the input and linked
   * into the sorted list; the rest of the input is not touched.
   */
  method InsertHead(head: NodeInt, sorted: NodeInt?, ghost ms: seq<NodeInt>, ghost ns: seq<NodeInt>, ghost nx: seq<NodeInt?>, ghost idx: nat)
    returns (next: NodeInt?, sorted': NodeInt?, ghost ms': seq<NodeInt>)
    requires Distinct(ns) && |nx| == |ns| && idx < |ns| && head == ns[idx]
    requires nx[idx] == (if idx + 1 < |ns| then ns[idx + 1] else null)
    requires forall i :: idx <= i < |ns| ==> ns[i].next == nx[i]
    requires IsList(sorted, ms) && multiset(ms) == multiset(ns[..idx])
    modifies ns`next
    ensures next == (if idx + 1 < |ns| then ns[idx + 1] else null)
    ensures forall i :: idx < i < |ns| ==> ns[i].next == nx[i]
    ensures IsList(sorted', ms') && multiset(ms') == multiset(ns[..idx + 1])
    ensures Values(ms') == InsertLeft(old(Values(ms)), head.v)
  {
    next := head.next;
    NotYetSorted(ns, idx, ms);
    sorted', ms' := LinkSorted(sorted, ms, head);
    TakeOneMore(ns, idx);
  }

  lemma TakeOneMore(ns: seq<NodeInt>, idx: nat)
    requires idx < |ns|
    ensures multiset(ns[..idx + 1]) == multiset(ns[..idx]) + multiset{ns[idx]}
  {
    assert ns[..idx + 1] == ns[..idx] + [ns[idx]];
  }

  lemma ListInsertionSortSnoc(s: seq<int>, i: nat)
    requires i < |s|
    ensures ListInsertionSort(s[..i + 1]) == InsertLeft(ListInsertionSort(s[..i]), s[i])
  {
    assert s[..i + 1][..i] == s[..i];
  }

  /**
   * The node taken next is in none of the sorted list, nor is any node still
   * to come, and the sorted list holds only input nodes.
   */
  lemma NotYetSorted(ns: seq<NodeInt>, idx: int, ms: seq<NodeInt>)
    requires Distinct(ns) && 0 <= idx < |ns| && multiset(ms) == multiset(ns[..idx])
    ensures ns[idx] !in ms && ns[idx] in ns
    ensures forall i :: 0 <= i < |ms| ==> ms[i] in ns
    ensures forall i :: idx < i < |ns| ==> ns[i] !in ms && ns[i] != ns[idx]
  {
    forall n | n in ms ensures n in ns && n != ns[idx] && forall i :: idx < i < |ns| ==> n != ns[i] {
      assert n in multiset(ns[..idx]);
      var p :| 0 <= p < idx && ns[p] == n;
    }
  }

  /**
   * The body of the outer loop of `list_insertion_sort_int`: `cur` goes in
   * front when the sorted list is empty or its head is not smaller, and is
   * linked further back otherwise.
   */
  method LinkSorted(sorted: NodeInt?, ghost ms: seq<NodeInt>, cur: NodeInt) returns (sorted': NodeInt?, ghost ms': seq<NodeInt>)
    requires IsList(sorted, ms) && cur !in ms
    modifies ms`next, cur`next
    ensures IsList(sorted', ms') && multiset(ms') == multiset(ms) + multiset{cur}
    ensures Values(ms') == InsertLeft(old(Values(ms)), cur.v)
  {
    if sorted == null || cur.v <= sorted.v {
      sorted', ms' := LinkAtHead(sorted, ms, cur);
    } else {
      sorted', ms' := LinkBehind(sorted, ms, cur);
    }
  }

  /** `cur->next = sorted; sorted = cur;` when `cur` is not larger than the head. */
  method LinkAtHead(sorted: NodeInt?, ghost ms: seq<NodeInt>, cur: NodeInt) returns (sorted': NodeInt, ghost ms': seq<NodeInt>)
    requires IsList(sorted, ms) && cur !in ms && (sorted == null || cur.v <= sorted.v)
    modifies cur`next
    ensures IsList(sorted', ms') && multiset(ms') == multiset(ms) + multiset{cur}
    ensures Values(ms') == InsertLeft(old(Values(ms)), cur.v)
  {
    ghost var nx, w := Nexts(ms), Values(ms);
    InsertLeftAt(w, cur.v, 0);
    assert w[..0] + [cur.v] + w[0..] == [cur.v] + w;
    cur.next := sorted;
    sorted', ms' := cur, [cur] + ms;
    LinkedAtFront(sorted, ms, nx, w, cur);
  }

  /** The state after `cur->next = sorted; sorted = cur;`: the list with `cur` in front. */
  lemma LinkedAtFront(head: NodeInt?, ms: seq<NodeInt>, nx: seq<NodeInt?>, w: seq<int>, cur: NodeInt)
    requires Linked(head, ms, nx) && cur !in ms && |w| == |ms| && cur.next == head
    requires forall i :: 0 <= i < |ms| ==> ms[i].next == nx[i] && ms[i].v == w[i]
    ensures IsList(cur, [cur] + ms)
    ensures Values([cur] + ms) == [cur.v] + w
    ensures multiset([cur] + ms) == multiset(ms) + multiset{cur}
  {
    assert Nexts([cur] + ms) == [head] + nx;
    LinkedFront(head, ms, nx, cur);
    assert Values([cur] + ms) == [cur.v] + w;
  }

  /**
   * The inner loop of `list_insertion_sort_int`: `p` walks to the last node
   * whose successor is smaller than `cur`, and `cur` is linked after it.
   */
  method LinkBehind(sorted: NodeInt, ghost ms: seq<NodeInt>, cur: NodeInt) returns (sorted': NodeInt?, ghost ms': seq<NodeInt>)
    requires IsList(sorted, ms) && cur !in ms && sorted.v < cur.v
    modifies ms`next, cur`next
    ensures IsList(sorted', ms') && multiset(ms') == multiset(ms) + multiset{cur}
    ensures Values(ms') == InsertLeft(old(Values(ms)), cur.v)
  {
    ghost var nx, w := Nexts(ms), Values(ms);
    var p, k := FindSpot(sorted, ms, cur.v);
    assert w == Values(ms);
    assert k <= |w|;
    assert forall q :: 0 <= q < k ==> w[q] < cur.v;
    assert k == |w| || cur.v <= w[k];
    InsertLeftAt(w, cur.v, k);
    cur.next := p.next;
    p.next := cur;
    sorted', ms' := sorted, ms[..k] + [cur] + ms[k..];
    LinkedBehind(sorted, ms, nx, w, cur, k);
  }

  /**
   * The search of the inner loop: `p` stops at the `k`-th node, the last
   * one before the first value not below `key`.
   */
  method FindSpot(sorted: NodeInt, ghost ms: seq<NodeInt>, key: int) returns (p: NodeInt, ghost k: nat)
    requires IsList(sorted, ms) && sorted.v < key
    ensures 1 <= k <= |ms| && p == ms[k - 1] && p.next == Nexts(ms)[k - 1]
    ensures forall q :: 0 <= q < k ==> Values(ms)[q] < key
    ensures k == |ms| || key <= Values(ms)[k]
  {
    ghost var nx, w := Nexts(ms), Values(ms);
    p := sorted;
    k := 1;
    while p.next != null && p.next.v < key
      invariant 1 <= k <= |ms| && p == ms[k - 1]
      invariant forall q :: 0 <= q < k ==> w[q] < key
      decreases |ms| - k
    {
      assert nx[k - 1] == p.next;
      p := p.next;
      k := k + 1;
    }
    assert nx[k - 1] == p.next;
  }

  /**
   * The state after `cur->next = p->next; p->next = cur;` with `p` the
   * `k`-th node: the list with `cur` inserted at `k`, values in place.
   */
  lemma LinkedBehind(head: NodeInt, ms: seq<NodeInt>, nx: seq<NodeInt?>, w: seq<int>, cur: NodeInt, k: nat)
    requires Linked(head, ms, nx) && cur !in ms && 1 <= k <= |ms| == |w|
    requires ms[k - 1].next == cur && cur.next == nx[k - 1]
    requires forall i :: 0 <= i < |ms| && i != k - 1 ==> ms[i].next == nx[i]
    requires forall i :: 0 <= i < |ms| ==> ms[i].v == w[i]
    ensures IsList(head, ms[..k] + [cur] + ms[k..])
    ensures Values(ms[..k] + [cur] + ms[k..]) == w[..k] + [cur.v] + w[k..]
    ensures multiset(ms[..k] + [cur] + ms[k..]) == multiset(ms) + multiset{cur}
  {
    NextsInsert(ms, nx, cur, k);
    LinkedInsert(head, ms, nx, cur, k);
    ValuesInsert(ms, w, cur, k);
  }

  /**
   * Linking `cur` behind the `k`-th node, with `cur` taking over that node's
   * successor, inserts `cur` into the list at position `k`.
   */
  lemma LinkedInsert(head: NodeInt?, ms: seq<NodeInt>, nx: seq<NodeInt?>, cur: NodeInt, k: nat)
    requires Linked(head, ms, nx) && cur !in ms && 1 <= k <= |ms|
    ensures Linked(head, ms[..k] + [cur] + ms[k..], nx[..k - 1] + [cur] + nx[k - 1..])
  {
    var ms' := ms[..k] + [cur] + ms[k..];
    var nx' := nx[..k - 1] + [cur] + nx[k - 1..];
    forall i | 0 <= i < |ms'| - 1 ensures nx'[i] == ms'[i + 1] {
      if i < k - 1 {
        assert nx'[i] == nx[i] && ms'[i + 1] == ms[i + 1];
      } else if i >= k {
        assert nx'[i] == nx[i - 1] && ms'[i + 1] == ms[i];
      }
    }
    assert nx'[|ms'| - 1] == nx[|ms| - 1];
    forall i, j | 0 <= i < j < |ms'| ensures ms'[i] != ms'[j] {
      if i < k && j > k { assert ms'[i] == ms[i] && ms'[j] == ms[j - 1]; }
      else if j < k { assert ms'[i] == ms[i] && ms'[j] == ms[j]; }
      else if i > k { assert ms'[i] == ms[i - 1] && ms'[j] == ms[j - 1]; }
      else if i == k { assert ms'[j] == ms[j - 1]; }
      else { assert ms'[i] == ms[i]; }
    }
  }

  /** The successor pointers after `cur` is linked behind the `k`-th node. */
  lemma NextsInsert(ms: seq<NodeInt>, nx: seq<NodeInt?>, cur: NodeInt, k: nat)
    requires 1 <= k <= |ms| == |nx|
    requires ms[k - 1].next == cur && cur.next == nx[k - 1]
    requires forall i :: 0 <= i < |ms| && i != k - 1 ==> ms[i].next == nx[i]
    ensures Nexts(ms[..k] + [cur] + ms[k..]) == nx[..k - 1] + [cur] + nx[k - 1..]
  {
    var ms' := ms[..k] + [cur] + ms[k..];
    var nx' := nx[..k - 1] + [cur] + nx[k - 1..];
    forall i | 0 <= i < |ms'| ensures Nexts(ms')[i] == nx'[i] {
      if i < k - 1 { assert ms'[i] == ms[i]; }
      else if i > k { assert ms'[i] == ms[i - 1]; }
    }
  }

  /** The values of a list with a node inserted at `k`, when the nodes still hold `w`. */
  lemma ValuesInsert(ms: seq<NodeInt>, w: seq<int>, cur: NodeInt, k: nat)
    requires k <= |ms| == |w|
    requires forall i :: 0 <= i < |ms| ==> ms[i].v == w[i]
    ensures Values(ms[..k] + [cur] + ms[k..]) == w[..k] + [cur.v] + w[k..]
    ensures multiset(ms[..k] + [cur] + ms[k..]) == multiset(ms) + multiset{cur}
  {
    assert ms == ms[..k] + ms[k..];
  }

  /**
   * `list_bubble_sort_int`: full passes over the list, swapping the values of
   * out-of-order neighbours, until a pass swaps nothing; the links never change.
   * The ghost `active` marks where the settled suffix begins and bounds the
   * number of passes.
   */
  method ListBubbleSortInt(head: NodeInt?, ghost ns: seq<NodeInt>)
    requires IsList(head, ns)
    modifies ns`v
    ensures IsList(head, ns) && Nexts(ns) == old(Nexts(ns))
    ensures Sorted(Values(ns))
    ensures multiset(Values(ns)) == multiset(old(Values(ns)))
  {
    if head == null {
      return;
    }
    ghost var nx, v0 := Nexts(ns), Values(ns);
    ghost var active: nat := |ns|;
    var swapped := true;
    while swapped
      invariant Nexts(ns) == nx
      invariant swapped ==> 1 <= active
      invariant ArraySort.Settled(Values(ns), active, |ns|)
      invariant multiset(Values(ns)) == multiset(v0)
      invariant !swapped ==> ArraySort.SortedBelow(Values(ns), |ns|)
      decreases active
    {
      swapped := BubblePass(head, ns, active);
      active := active - 1;
    }
    ArraySort.SortedBelowSorted(Values(ns), |ns|);
    assert Values(ns)[..|ns|] == Values(ns);
  }

  /**
   * One pass of the `do ... while (swapped)` loop of `list_bubble_sort_int`,
   * from the head to the last node: the maximum of the unsettled prefix joins
   * the settled suffix, and a pass without a swap finds the list sorted.
   */
  method BubblePass(head: NodeInt, ghost ns: seq<NodeInt>, ghost active: nat) returns (swapped: bool)
    requires IsList(head, ns) && 1 <= active
    requires ArraySort.Settled(Values(ns), active, |ns|)
    modifies ns`v
    ensures Nexts(ns) == old(Nexts(ns))
    ensures ArraySort.Settled(Values(ns), active - 1, |ns|)
    ensures multiset(Values(ns)) == multiset(old(Values(ns)))
    ensures swapped ==> 2 <= active
    ensures !swapped ==> ArraySort.SortedBelow(Values(ns), |ns|)
  {
    ghost var nx, v0 := Nexts(ns), Values(ns);
    ghost var s := v0;
    swapped := false;
    var p := head;
    ghost var i := 1;
    while p.next != null
      invariant 1 <= i <= |ns| && p == ns[i - 1] && p.next == nx[i - 1]
      invariant Nexts(ns) == nx && Values(ns) == s
      invariant PassInv(s, v0, active, i, swapped)
      decreases |ns| - i
    {
      NextOfLinked(head, ns, nx, i);
      p, swapped := PassNode(p, ns, nx, s, v0, active, i, swapped);
      s := ArraySort.PassStep(s, i);
      i := i + 1;
    }
    PassInvEnd(s, v0, active, swapped);
  }

  /** In a linked list, a node with a successor is not the last one, and its successor is the next node. */
  lemma NextOfLinked(head: NodeInt?, ns: seq<NodeInt>, nx: seq<NodeInt?>, i: nat)
    requires Linked(head, ns, nx) && 1 <= i <= |ns| && nx[i - 1] != null
    ensures i < |ns| && nx[i - 1] == ns[i] && nx[i] == (if i + 1 < |ns| then ns[i + 1] else null)
  {
  }

  /** One iteration of the inner `for` loop: compare `p`, the node at `i - 1`, with its successor, then step to it. */
  method PassNode(p: NodeInt, ghost ns: seq<NodeInt>, ghost nx: seq<NodeInt?>, ghost s: seq<int>, ghost v0: seq<int>, ghost active: nat, ghost i: nat, swapped: bool)
    returns (q: NodeInt, swapped': bool)
    requires Distinct(ns) && |nx| == |ns| && 1 <= i < |ns| && p == ns[i - 1] && p.next == ns[i]
    requires nx[i] == (if i + 1 < |ns| then ns[i + 1] else null)
    requires Nexts(ns) == nx && Values(ns) == s && PassInv(s, v0, active, i, swapped)
    modifies ns`v
    ensures q == ns[i] && q.next == nx[i]
    ensures Nexts(ns) == nx && Values(ns) == ArraySort.PassStep(s, i)
    ensures PassInv(ArraySort.PassStep(s, i), v0, active, i + 1, swapped')
  {
    q := p.next;
    PassInvStep(s, v0, active, i, swapped);
    var sw := CompareSwapNext(p, ns, i);
    swapped' := swapped || sw;
    assert q.next == Nexts(ns)[i];
  }

  /**
   * What holds after the comparisons at positions `1 .. i - 1` of a pass:
   * the suffix from `active` stays settled, and up to `e`, the end of the
   * unsettled prefix or `i` if that comes first, the running maximum sits at
   * `e - 1` and a pass without a swap has seen a sorted run.
   */
  ghost predicate PassInv(s: seq<int>, v0: seq<int>, active: nat, i: nat, swapped: bool) {
    var e := if i < active then i else active;
    1 <= active <= |s| && 1 <= i <= |s|
    && (swapped ==> 2 <= active)
    && multiset(s) == multiset(v0)
    && ArraySort.Settled(s, active, |s|) && ArraySort.MaxAt(s, e)
    && (!swapped ==> ArraySort.SortedBelow(s, e))
  }

  /** One comparison of a full pass, inside the unsettled prefix or past it. */
  lemma PassInvStep(s: seq<int>, v0: seq<int>, active: nat, i: nat, swapped: bool)
    requires PassInv(s, v0, active, i, swapped) && i < |s|
    ensures PassInv(ArraySort.PassStep(s, i), v0, active, i + 1, swapped || s[i - 1] > s[i])
  {
    if i < active {
      ArraySort.PassStepKeeps(s, i, active, |s|);
    } else {
      SettledStep(s, i, active);
    }
  }

  /**
   * A comparison inside the settled suffix, which `list_bubble_sort_int`
   * still makes: the neighbours are in order and nothing is swapped.
   */
  lemma SettledStep(s: seq<int>, i: nat, active: nat)
    requires 1 <= active <= i < |s| && ArraySort.Settled(s, active, |s|)
    ensures ArraySort.PassStep(s, i) == s && s[i - 1] <= s[i]
  {
  }

  /** The end of a full pass: the settled suffix grows by one, and a pass without a swap has found the list sorted. */
  lemma PassInvEnd(s: seq<int>, v0: seq<int>, active: nat, swapped: bool)
    requires PassInv(s, v0, active, |s|, swapped)
    ensures ArraySort.Settled(s, active - 1, |s|)
    ensures multiset(s) == multiset(v0)
    ensures swapped ==> 2 <= active
    ensures !swapped ==> ArraySort.SortedBelow(s, |s|)
  {
    ArraySort.PassEnd(s, active, |s|, swapped);
  }

  /**
   * `if (p->v > p->next->v) { int32_t t=p->v; p->v=p->next->v; p->next->v=t; swapped=1; }`
   * with `p` the node at `i - 1`: one comparison of a pass on the values.
   */
  method CompareSwapNext(p: NodeInt, ghost ns: seq<NodeInt>, ghost i: nat) returns (sw: bool)
    requires Distinct(ns) && 1 <= i < |ns| && p == ns[i - 1] && p.next == ns[i]
    modifies ns`v
    ensures Nexts(ns) == old(Nexts(ns))
    ensures Values(ns) == ArraySort.PassStep(old(Values(ns)), i)
    ensures sw == (old(Values(ns))[i - 1] > old(Values(ns))[i])
  {
    sw := false;
    if p.v > p.next.v {
      SwapWithNext(p, ns, i);
      sw := true;
    }
  }

  /** `int32_t t=p->v; p->v=p->next->v; p->next->v=t;`: the values at `i - 1` and `i` trade places. */
  method SwapWithNext(p: NodeInt, ghost ns: seq<NodeInt>, ghost i: nat)
    requires Distinct(ns) && 1 <= i < |ns| && p == ns[i - 1] && p.next == ns[i]
    modifies ns`v
    ensures Nexts(ns) == old(Nexts(ns))
    ensures Values(ns) == old(Values(ns))[i - 1 := old(ns[i].v)][i := old(p.v)]
  {
    ghost var nx := Nexts(ns);
    var q := p.next;
    var t := p.v;
    p.v := q.v;
    q.v := t;
    assert forall k :: 0 <= k < |ns| && k != i - 1 && k != i ==> ns[k] != p && ns[k] != q;
    assert forall k :: 0 <= k < |ns| ==> Nexts(ns)[k] == nx[k];
  }
}
