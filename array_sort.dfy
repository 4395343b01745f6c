/**
 * The in-place array sorts of sort.c (int32 variants): insertion sort,
 * bubble sort with a shrinking active prefix, and top-down mergesort through
 * a scratch array. `a` with length `n` stands for the C pair `(int32_t *a,
 * size_t n)`; the sorts only compare and move values, so `int` stands for
 * `int32_t`.
 */
module ArraySort {
  import opened SortSpec

  /**
   * `insertion_sort_int`: the prefix `a[..n]` becomes the insertion-sort
   * reference of its old contents (sorted by InsertionSortSorted and a
   * permutation by InsertionSortPermutes); the rest of the array is untouched.
   */
  method InsertionSortInt(a: array<int>, n: nat)
    requires n <= a.Length
    modifies a
    ensures a[..n] == InsertionSort(old(a[..n]))
    ensures a[n..] == old(a[n..])
  {
    if n < 1 {
      return;
    }
    ghost var orig := a[..];
    var i := 1;
    assert a[..1] == InsertionSort(orig[..1]) by {
      assert orig[..1] == [] + [orig[0]];
    }
    while i < n
      invariant 1 <= i <= n
      invariant a[..i] == InsertionSort(orig[..i])
      invariant forall k :: i <= k < a.Length ==> a[k] == orig[k]
    {
      InsertOne(a, i, orig);
      i := i + 1;
    }
    assert a[..n] == a[..i];
    assert a[n..] == old(a[n..]);
  }

  /** One outer iteration of `insertion_sort_int`: `a[i]` joins the sorted prefix. */
  method InsertOne(a: array<int>, i: nat, ghost orig: seq<int>)
    requires 1 <= i < a.Length == |orig|
    requires a[..i] == InsertionSort(orig[..i])
    requires forall k :: i <= k < a.Length ==> a[k] == orig[k]
    modifies a
    ensures a[..i + 1] == InsertionSort(orig[..i + 1])
    ensures forall k :: i < k < a.Length ==> a[k] == orig[k]
  {
    ghost var p := a[..i];
    var key := a[i];
    var j := ShiftLarger(a, i, key);
    a[j] := key;
    InsertStep(orig, p, a[..], i, j, key);
  }

  /**
   * The inner loop of `insertion_sort_int`: the elements of `a[..i]` larger
   * than `key`, a run at its end, move one place right; `j` is where the
   * run began.
   */
  method ShiftLarger(a: array<int>, i: nat, key: int) returns (j: nat)
    requires i < a.Length
    modifies a
    ensures j <= i && (j == 0 || old(a[j - 1]) <= key)
    ensures forall k :: 0 <= k < j ==> a[k] == old(a[k])
    ensures forall k :: j < k <= i ==> a[k] == old(a[k - 1])
    ensures forall k :: i < k < a.Length ==> a[k] == old(a[k])
    ensures forall k :: j <= k < i ==> old(a[k]) > key
  {
    j := i;
    while j > 0 && a[j - 1] > key
      invariant 0 <= j <= i
      invariant forall k :: 0 <= k < j ==> a[k] == old(a[k])
      invariant forall k :: j < k <= i ==> a[k] == old(a[k - 1])
      invariant forall k :: i < k < a.Length ==> a[k] == old(a[k])
      invariant forall k :: j <= k < i ==> old(a[k]) > key
    {
      a[j] := a[j - 1];
      j := j - 1;
    }
  }

  /**
   * Where the inner loop stops, the key goes: after the last element not
   * larger than it, before the run of larger elements it shifted.
   */
  lemma {:induction false} InsertionPoint(p: seq<int>, key: int, j: nat)
    requires j <= |p|
    requires j == 0 || p[j - 1] <= key
    requires forall k :: j <= k < |p| ==> p[k] > key
    ensures InsertFromRight(p, key) == p[..j] + [key] + p[j..]
  {
    if j == |p| {
      if j > 0 { assert p[|p| - 1] <= key; }
      assert p[..j] == p && p[j..] == [];
    } else {
      var q := p[..|p| - 1];
      assert p[|p| - 1] > key;
      assert q[..j] == p[..j];
      if j > 0 { assert q[j - 1] == p[j - 1]; }
      InsertionPoint(q, key, j);
      assert p[j..] == q[j..] + [p[|p| - 1]];
    }
  }

  /** The end of one outer iteration: the sorted prefix grows by one. */
  lemma InsertStep(orig: seq<int>, p: seq<int>, s: seq<int>, i: nat, j: nat, key: int)
    requires j <= i < |orig| == |s| && |p| == i && orig[i] == key
    requires p == InsertionSort(orig[..i])
    requires j == 0 || p[j - 1] <= key
    requires forall k :: j <= k < i ==> p[k] > key
    requires forall k :: 0 <= k < j ==> s[k] == p[k]
    requires s[j] == key
    requires forall k :: j < k <= i ==> s[k] == p[k - 1]
    ensures s[..i + 1] == InsertionSort(orig[..i + 1])
  {
    InsertionPoint(p, key, j);
    assert s[..j] == p[..j];
    assert s[j + 1..i + 1] == p[j..];
    assert s[..i + 1] == s[..j] + [key] + s[j + 1..i + 1];
    InsertionSortSnoc(orig, i);
  }

  lemma InsertionSortSnoc(s: seq<int>, i: nat)
    requires i < |s|
    ensures InsertionSort(s[..i + 1]) == InsertFromRight(InsertionSort(s[..i]), s[i])
  {
    var q := s[..i + 1];
    assert q[..i] == s[..i];
  }

  /**
   * The elements from `active` to `full` are in their final places: each is
   * at least every element before it in `s[..full]`.
   */
  ghost predicate Settled(s: seq<int>, active: nat, full: nat) {
    active <= full <= |s| && forall x, y :: 0 <= x < y < full && active <= y ==> s[x] <= s[y]
  }

  /** `s[..i]` is in order. */
  ghost predicate SortedBelow(s: seq<int>, i: nat) {
    i <= |s| && forall x, y :: 0 <= x < y < i ==> s[x] <= s[y]
  }

  /** `s[i - 1]` is a maximum of `s[..i]`: what a pass carries forward. */
  ghost predicate MaxAt(s: seq<int>, i: nat) {
    1 <= i <= |s| && forall x :: 0 <= x < i ==> s[x] <= s[i - 1]
  }

  lemma SortedBelowSorted(s: seq<int>, n: nat)
    requires SortedBelow(s, n)
    ensures Sorted(s[..n])
  {
    assert forall x :: 0 <= x < n ==> s[..n][x] == s[x];
  }

  /** One comparison of a pass, with its conditional swap. */
  function PassStep(s: seq<int>, i: nat): (r: seq<int>)
    requires 1 <= i < |s|
    ensures |r| == |s| && multiset(r) == multiset(s)
    ensures r[i - 1] <= r[i] && forall k :: 0 <= k < |s| && k != i - 1 && k != i ==> r[k] == s[k]
  {
    if s[i - 1] > s[i] then s[i - 1 := s[i]][i := s[i - 1]] else s
  }

  /**
   * `bubble_sort_int`: a sorted permutation of `a[..n]`. Each pass leaves the
   * largest element of the active prefix at its end (Settled), which is why the
   * prefix shrinks by one per pass; the passes stop as soon as one swaps
   * nothing, and `n < 2` returns at once.
   */
  method BubbleSortInt(a: array<int>, n: nat)
    requires n <= a.Length
    modifies a
    ensures Sorted(a[..n])
    ensures multiset(a[..n]) == multiset(old(a[..n]))
    ensures a[n..] == old(a[n..])
    ensures n < 2 ==> a[..] == old(a[..])
  {
    if n < 2 {
      return;
    }
    ghost var full := n;
    var active: nat := n;
    var swapped := true;
    while swapped
      invariant swapped ==> 1 <= active
      invariant Settled(a[..], active, full)
      invariant multiset(a[..]) == multiset(old(a[..]))
      invariant forall k :: full <= k < a.Length ==> a[k] == old(a[k])
      invariant !swapped ==> SortedBelow(a[..], full)
      decreases active
    {
      swapped := BubblePass(a, active, full);
      active := active - 1;
    }
    SortedBelowSorted(a[..], full);
    PrefixPermutes(old(a[..]), a[..], full);
  }

  /** If two sequences agree from `n` on and are permutations, so are their prefixes. */
  lemma PrefixPermutes(s: seq<int>, t: seq<int>, n: nat)
    requires n <= |s| == |t| && multiset(s) == multiset(t)
    requires forall k :: n <= k < |s| ==> s[k] == t[k]
    ensures multiset(s[..n]) == multiset(t[..n]) && s[n..] == t[n..]
  {
    assert s[n..] == t[n..];
    assert s == s[..n] + s[n..] && t == t[..n] + t[n..];
    assert multiset(s[..n]) == multiset(s) - multiset(s[n..]);
    assert multiset(t[..n]) == multiset(t) - multiset(t[n..]);
  }

  /** One pass of `bubble_sort_int` over the active prefix `a[..active]`. */
  method BubblePass(a: array<int>, active: nat, ghost full: nat) returns (swapped: bool)
    requires 1 <= active && Settled(a[..], active, full)
    modifies a
    ensures Settled(a[..], active - 1, full)
    ensures multiset(a[..]) == multiset(old(a[..]))
    ensures forall k :: active <= k < a.Length ==> a[k] == old(a[k])
    ensures swapped ==> 2 <= active
    ensures !swapped ==> SortedBelow(a[..], full)
  {
    swapped := false;
    var i := 1;
    while i < active
      invariant 1 <= i <= active
      invariant swapped ==> 2 <= active
      invariant Settled(a[..], active, full) && MaxAt(a[..], i)
      invariant multiset(a[..]) == multiset(old(a[..]))
      invariant forall k :: active <= k < a.Length ==> a[k] == old(a[k])
      invariant !swapped ==> SortedBelow(a[..], i)
    {
      PassStepKeeps(a[..], i, active, full);
      var sw := CompareSwap(a, i);
      swapped := swapped || sw;
      i := i + 1;
    }
    PassEnd(a[..], active, full, swapped);
  }

  /** `if (a[i-1] > a[i]) { int32_t t=a[i]; a[i]=a[i-1]; a[i-1]=t; swapped=1; }` */
  method CompareSwap(a: array<int>, i: nat) returns (sw: bool)
    requires 1 <= i < a.Length
    modifies a
    ensures a[..] == PassStep(old(a[..]), i) && sw == (old(a[i - 1]) > old(a[i]))
  {
    sw := false;
    if a[i - 1] > a[i] {
      var t := a[i];
      a[i] := a[i - 1];
      a[i - 1] := t;
      sw := true;
    }
  }

  /**
   * A comparison inside the active prefix keeps the settled suffix, carries
   * the running maximum to position `i`, and extends a swap-free sorted run.
   */
  lemma PassStepKeeps(s: seq<int>, i: nat, active: nat, full: nat)
    requires 1 <= i < active <= full <= |s|
    requires Settled(s, active, full) && MaxAt(s, i)
    ensures Settled(PassStep(s, i), active, full) && MaxAt(PassStep(s, i), i + 1)
    ensures SortedBelow(s, i) && s[i - 1] <= s[i] ==> PassStep(s, i) == s && SortedBelow(s, i + 1)
  {
    var t := PassStep(s, i);
    forall x, y | 0 <= x < y < full && active <= y ensures t[x] <= t[y] {
      assert s[i - 1] <= s[y] && s[i] <= s[y];
    }
  }

  /**
   * The end of a pass: the maximum moved to the end of the active prefix, and
   * a pass without a swap leaves the whole range sorted.
   */
  lemma PassEnd(s: seq<int>, active: nat, full: nat, swapped: bool)
    requires Settled(s, active, full) && MaxAt(s, active)
    requires !swapped ==> SortedBelow(s, active)
    ensures Settled(s, active - 1, full)
    ensures !swapped ==> SortedBelow(s, full)
  {
  }

  /**
   * `merge_int`: `a[lo..mid]` and `a[mid+1..hi]` (inclusive bounds, as in the
   * C code) are merged through `tmp[lo..hi]` and copied back; taking the left
   * element on ties makes the result the stable Merge of the two runs. Nothing
   * outside `[lo, hi]` changes in `a`.
   */
  method MergeInt(a: array<int>, tmp: array<int>, lo: int, mid: int, hi: int)
    requires a != tmp
    requires 0 <= lo <= mid + 1 <= hi + 1 <= a.Length && hi < tmp.Length
    modifies a, tmp
    ensures a[..] == old(a[..lo]) + Merge(old(a[lo..mid + 1]), old(a[mid + 1..hi + 1])) + old(a[hi + 1..])
  {
    ghost var s := a[..];
    var i, j, k := MergeHeads(a, tmp, lo, mid, hi);
    ghost var t1 := tmp[..];
    CopyRun(a, i, mid, tmp, k);
    ghost var t2 := tmp[..];
    CopyRun(a, j, hi, tmp, k + (mid + 1 - i));
    MergeAssembled(lo, k, hi, t1, a[i..mid + 1], t2, a[j..hi + 1], tmp[..]);
    assert a[..] == s;
    CopyRun(tmp, lo, hi, a, lo);
  }

  /**
   * The first loop of `merge_int`: while both runs have elements, the smaller
   * head goes to `tmp[k]`, the left one on ties. When it stops, one run is
   * used up, and the merged prefix `tmp[lo..k]` followed by what is left of
   * both runs is the whole merge.
   */
  method MergeHeads(a: array<int>, tmp: array<int>, lo: int, mid: int, hi: int) returns (i: int, j: int, k: int)
    requires a != tmp
    requires 0 <= lo <= mid + 1 <= hi + 1 <= a.Length && hi < tmp.Length
    modifies tmp
    ensures lo <= i <= mid + 1 <= j <= hi + 1 && k == i + j - mid - 1 && (i > mid || j > hi)
    ensures tmp[lo..k] + a[i..mid + 1] + a[j..hi + 1] == Merge(a[lo..mid + 1], a[mid + 1..hi + 1])
    ensures tmp[..lo] == old(tmp[..lo]) && tmp[k..] == old(tmp[k..])
  {
    ghost var s := a[..];
    i, j, k := lo, mid + 1, lo;
    ghost var m := Merge(s[lo..mid + 1], s[mid + 1..hi + 1]);
    Heads0(s, tmp[..], lo, mid, hi);
    while i <= mid && j <= hi
      invariant lo <= i <= mid + 1 <= j <= hi + 1 && k == i + j - mid - 1
      invariant a[..] == s
      invariant Heads(s, tmp[..], old(tmp[..]), m, lo, mid, hi, i, j, k)
    {
      i, j := TakeHead(a, tmp, s, old(tmp[..]), m, lo, mid, hi, i, j, k);
      k := k + 1;
    }
    HeadsDone(s, tmp[..], old(tmp[..]), m, lo, mid, hi, i, j, k);
  }

  /** One iteration of the first loop of `merge_int`: the smaller head, the left one on ties, goes to `tmp[k]`. */
  method TakeHead(a: array<int>, tmp: array<int>, ghost s: seq<int>, ghost t0: seq<int>, ghost m: seq<int>, lo: int, mid: int, hi: int, i: int, j: int, k: int)
    returns (i': int, j': int)
    requires a != tmp && a[..] == s && i <= mid && j <= hi
    requires Heads(s, tmp[..], t0, m, lo, mid, hi, i, j, k)
    modifies tmp
    ensures i' + j' == i + j + 1 && i <= i' && j <= j'
    ensures Heads(s, tmp[..], t0, m, lo, mid, hi, i', j', k + 1)
  {
    ghost var t := tmp[..];
    if a[i] <= a[j] {
      HeadsLeft(s, t, t0, m, lo, mid, hi, i, j, k);
      tmp[k] := a[i];
      i', j' := i + 1, j;
    } else {
      HeadsRight(s, t, t0, m, lo, mid, hi, i, j, k);
      tmp[k] := a[j];
      i', j' := i, j + 1;
    }
    assert tmp[..] == t[k := tmp[k]];
  }

  /**
   * The state of the first merge loop over snapshots of `a` and `tmp`:
   * entries of `tmp` outside `[lo, k)` are untouched, and the merged prefix
   * followed by the merge of what is left of the runs is the whole merge.
   */
  ghost predicate Heads(s: seq<int>, t: seq<int>, t0: seq<int>, m: seq<int>, lo: int, mid: int, hi: int, i: int, j: int, k: int) {
    0 <= lo <= i <= mid + 1 <= j <= hi + 1 <= |s| && k == i + j - mid - 1
    && |t| == |t0| && hi < |t|
    && t[..lo] == t0[..lo] && t[k..] == t0[k..]
    && t[lo..k] + Merge(s[i..mid + 1], s[j..hi + 1]) == m
  }

  lemma Heads0(s: seq<int>, t: seq<int>, lo: int, mid: int, hi: int)
    requires 0 <= lo <= mid + 1 <= hi + 1 <= |s| && hi < |t|
    ensures Heads(s, t, t, Merge(s[lo..mid + 1], s[mid + 1..hi + 1]), lo, mid, hi, lo, mid + 1, lo)
  {
    assert t[lo..lo] == [];
  }

  /** Taking the head of the left run when it is not larger than the head of the right run. */
  lemma HeadsLeft(s: seq<int>, t: seq<int>, t0: seq<int>, m: seq<int>, lo: int, mid: int, hi: int, i: int, j: int, k: int)
    requires Heads(s, t, t0, m, lo, mid, hi, i, j, k) && i <= mid && j <= hi && s[i] <= s[j]
    ensures Heads(s, t[k := s[i]], t0, m, lo, mid, hi, i + 1, j, k + 1)
  {
    var x, y := s[i..mid + 1], s[j..hi + 1];
    assert x[1..] == s[i + 1..mid + 1];
    assert Merge(x, y) == [s[i]] + Merge(s[i + 1..mid + 1], y);
    var u := t[k := s[i]];
    assert u[lo..k + 1] == t[lo..k] + [s[i]];
    assert u[..lo] == t[..lo] && u[k + 1..] == t[k + 1..];
    assert t[k + 1..] == t0[k + 1..] by { assert t[k..][1..] == t[k + 1..]; assert t0[k..][1..] == t0[k + 1..]; }
  }

  /** Taking the head of the right run when it is smaller than the head of the left run. */
  lemma HeadsRight(s: seq<int>, t: seq<int>, t0: seq<int>, m: seq<int>, lo: int, mid: int, hi: int, i: int, j: int, k: int)
    requires Heads(s, t, t0, m, lo, mid, hi, i, j, k) && i <= mid && j <= hi && s[i] > s[j]
    ensures Heads(s, t[k := s[j]], t0, m, lo, mid, hi, i, j + 1, k + 1)
  {
    var x, y := s[i..mid + 1], s[j..hi + 1];
    assert y[1..] == s[j + 1..hi + 1];
    assert Merge(x, y) == [s[j]] + Merge(x, s[j + 1..hi + 1]);
    var u := t[k := s[j]];
    assert u[lo..k + 1] == t[lo..k] + [s[j]];
    assert u[..lo] == t[..lo] && u[k + 1..] == t[k + 1..];
    assert t[k + 1..] == t0[k + 1..] by { assert t[k..][1..] == t[k + 1..]; assert t0[k..][1..] == t0[k + 1..]; }
  }

  /** With one run used up, the merge of what is left is the two rests in order. */
  lemma HeadsDone(s: seq<int>, t: seq<int>, t0: seq<int>, m: seq<int>, lo: int, mid: int, hi: int, i: int, j: int, k: int)
    requires Heads(s, t, t0, m, lo, mid, hi, i, j, k) && (i > mid || j > hi)
    ensures t[lo..k] + s[i..mid + 1] + s[j..hi + 1] == m
    ensures t[..lo] == t0[..lo] && t[k..] == t0[k..]
  {
    var x, y := s[i..mid + 1], s[j..hi + 1];
    MergeUsedUp(x, y);
    assert t[lo..k] + x + y == t[lo..k] + (x + y);
  }

  lemma MergeUsedUp(x: seq<int>, y: seq<int>)
    requires x == [] || y == []
    ensures Merge(x, y) == x + y
  {
    if x == [] { assert x + y == y; } else { assert x + y == x; }
  }

  /**
   * Copying what is left of the two runs behind the merged prefix
   * `tmp[lo..k]` completes the merge in `tmp[lo..hi]`.
   */
  lemma MergeAssembled(lo: int, k: int, hi: int, t1: seq<int>, u: seq<int>, t2: seq<int>, v: seq<int>, t3: seq<int>)
    requires 0 <= lo <= k && k + |u| + |v| == hi + 1 <= |t1|
    requires t2 == t1[..k] + u + t1[k + |u|..]
    requires |t2| == |t1| && t3 == t2[..k + |u|] + v + t2[k + |u| + |v|..]
    ensures t3[lo..hi + 1] == t1[lo..k] + u + v
  {
    var c := k + |u|;
    Splice(t2, t1[..k], u, t1[c..]);
    Splice(t3, t2[..c], v, t2[c + |v|..]);
    assert t2[lo..c] == t1[lo..k] + u;
    assert t3[lo..hi + 1] == t2[lo..c] + v;
  }

  /** The three pieces of a concatenation can be read back from it. */
  lemma Splice(w: seq<int>, l: seq<int>, c: seq<int>, r: seq<int>)
    requires w == l + c + r
    ensures w[..|l|] == l && w[|l|..|l| + |c|] == c && w[|l| + |c|..] == r
  {
  }

  /**
   * The copying loops of `merge_int`: `while (i <= mid) tmp[k++] = a[i++]`,
   * the same for the right run, and the copy of `tmp[lo..hi]` back into `a`.
   * `src[from..to]` lands at `dst[k..]`, and no other entry of `dst` changes.
   */
  method CopyRun(src: array<int>, from: int, to: int, dst: array<int>, k: int)
    requires src != dst
    requires 0 <= from <= to + 1 <= src.Length && 0 <= k && k + (to + 1 - from) <= dst.Length
    modifies dst
    ensures dst[..] == old(dst[..k]) + src[from..to + 1] + old(dst[k + (to + 1 - from)..])
  {
    var i, t := from, k;
    while i <= to
      invariant from <= i <= to + 1 && t == k + (i - from)
      invariant forall q :: k <= q < t ==> dst[q] == src[from + (q - k)]
      invariant forall q :: 0 <= q < dst.Length && !(k <= q < t) ==> dst[q] == old(dst[q])
    {
      dst[t] := src[i];
      i, t := i + 1, t + 1;
    }
    assert dst[..] == old(dst[..k]) + src[from..to + 1] + old(dst[k + (to + 1 - from)..]);
  }

  /**
   * `mergesort_int_rec`: sorts `a[lo..hi]` (inclusive bounds) by sorting the
   * halves split at `mid = lo + (hi - lo) / 2` and merging them; this is the
   * reference MergeSort of the segment. Nothing outside `[lo, hi]` changes.
   */
  method MergeSortIntRec(a: array<int>, tmp: array<int>, lo: int, hi: int)
    requires a != tmp
    requires 0 <= lo <= hi + 1 <= a.Length && hi < tmp.Length
    modifies a, tmp
    ensures a[..] == old(a[..lo]) + MergeSort(old(a[lo..hi + 1])) + old(a[hi + 1..])
    decreases hi - lo
  {
    if lo >= hi {
      ShortSegment(a[..], lo, hi);
      return;
    }
    var mid := lo + (hi - lo) / 2;
    assert lo <= mid < hi;
    ghost var s0 := a[..];
    MergeSortIntRec(a, tmp, lo, mid);
    ghost var s1 := a[..];
    MergeSortIntRec(a, tmp, mid + 1, hi);
    ghost var s2 := a[..];
    MergeInt(a, tmp, lo, mid, hi);
    MergeSortStep(s0, s1, s2, a[..], lo, mid, hi);
  }

  /** A segment of at most one element is already its own MergeSort. */
  lemma ShortSegment(s: seq<int>, lo: int, hi: int)
    requires 0 <= lo <= hi + 1 <= |s| && lo >= hi
    ensures s == s[..lo] + MergeSort(s[lo..hi + 1]) + s[hi + 1..]
  {
    assert s == s[..lo] + s[lo..hi + 1] + s[hi + 1..];
  }

  /**
   * The recursive step of `mergesort_int_rec` on snapshots of `a`: sorting
   * both halves and merging them sorts the segment, and every step leaves
   * the outside of the segment alone.
   */
  lemma MergeSortStep(s0: seq<int>, s1: seq<int>, s2: seq<int>, s3: seq<int>, lo: int, mid: int, hi: int)
    requires 0 <= lo <= mid < hi < |s0| && mid == lo + (hi - lo) / 2
    requires s1 == s0[..lo] + MergeSort(s0[lo..mid + 1]) + s0[mid + 1..]
    requires s2 == s1[..mid + 1] + MergeSort(s1[mid + 1..hi + 1]) + s1[hi + 1..]
    requires s3 == s2[..lo] + Merge(s2[lo..mid + 1], s2[mid + 1..hi + 1]) + s2[hi + 1..]
    ensures s3 == s0[..lo] + MergeSort(s0[lo..hi + 1]) + s0[hi + 1..]
  {
    var x, y := MergeSort(s0[lo..mid + 1]), MergeSort(s1[mid + 1..hi + 1]);
    Overwrite(s0, x, s1, y, s2, lo, mid, hi);
    MergeSortSplit(s0[lo..hi + 1], s0, lo, mid, hi);
  }

  /** Overwriting `[lo, mid]` with `x` and then `[mid + 1, hi]` with `y` leaves both in place. */
  lemma Overwrite(s0: seq<int>, x: seq<int>, s1: seq<int>, y: seq<int>, s2: seq<int>, lo: int, mid: int, hi: int)
    requires 0 <= lo <= mid < hi < |s0| && |x| == mid + 1 - lo && |y| == hi - mid
    requires s1 == s0[..lo] + x + s0[mid + 1..]
    requires s2 == s1[..mid + 1] + y + s1[hi + 1..]
    ensures s1[mid + 1..hi + 1] == s0[mid + 1..hi + 1]
    ensures s2[..lo] == s0[..lo] && s2[lo..mid + 1] == x && s2[mid + 1..hi + 1] == y && s2[hi + 1..] == s0[hi + 1..]
  {
    Splice(s1, s0[..lo], x, s0[mid + 1..]);
    SuffixSlice(s0, s1, mid + 1, hi + 1);
    Splice(s2, s1[..mid + 1], y, s1[hi + 1..]);
    PrefixSlice(s1, s2, lo, mid + 1);
  }

  /** Equal suffixes from `lo` agree on every slice that starts at `lo` or later. */
  lemma SuffixSlice(s: seq<int>, t: seq<int>, lo: int, hi: int)
    requires 0 <= lo <= hi <= |s| == |t| && s[lo..] == t[lo..]
    ensures s[lo..hi] == t[lo..hi] && s[hi..] == t[hi..]
  {
    assert s[lo..hi] == s[lo..][..hi - lo] && t[lo..hi] == t[lo..][..hi - lo];
    assert s[hi..] == s[lo..][hi - lo..] && t[hi..] == t[lo..][hi - lo..];
  }

  /** Equal prefixes up to `hi` agree on every slice that ends at `hi` or earlier. */
  lemma PrefixSlice(s: seq<int>, t: seq<int>, lo: int, hi: int)
    requires 0 <= lo <= hi <= |s| == |t| && s[..hi] == t[..hi]
    ensures s[lo..hi] == t[lo..hi] && s[..lo] == t[..lo]
  {
    assert s[lo..hi] == s[..hi][lo..] && t[lo..hi] == t[..hi][lo..];
    assert s[..lo] == s[..hi][..lo] && t[..lo] == t[..hi][..lo];
  }

  /** The split `mid = lo + (hi - lo) / 2` is the split of the reference MergeSort. */
  lemma MergeSortSplit(seg: seq<int>, s: seq<int>, lo: int, mid: int, hi: int)
    requires 0 <= lo <= mid < hi < |s| && mid == lo + (hi - lo) / 2 && seg == s[lo..hi + 1]
    ensures MergeSort(seg) == Merge(MergeSort(s[lo..mid + 1]), MergeSort(s[mid + 1..hi + 1]))
  {
    assert Half(|seg|) == mid + 1 - lo;
    assert seg[..mid + 1 - lo] == s[lo..mid + 1];
    assert seg[mid + 1 - lo..] == s[mid + 1..hi + 1];
  }

  /**
   * `mergesort_int`: sorts `a[0..n)` with a scratch array of `n` elements;
   * the result is the reference MergeSort of the prefix, hence sorted and a
   * permutation of it.
   */
  method MergeSortInt(a: array<int>, n: int)
    requires 0 <= n <= a.Length
    modifies a
    ensures a[..n] == MergeSort(old(a[..n]))
    ensures Sorted(a[..n]) && multiset(a[..n]) == multiset(old(a[..n]))
    ensures a[n..] == old(a[n..])
    ensures n < 2 ==> a[..] == old(a[..])
  {
    MergeSortSorted(a[..n]);
    MergeSortPermutes(a[..n]);
    if n < 2 {
      return;
    }
    var tmp := new int[n];
    ghost var s := a[..];
    MergeSortIntRec(a, tmp, 0, n - 1);
    assert s[0..n - 1 + 1] == s[..n];
    Splice(a[..], [], MergeSort(s[..n]), s[n..]);
  }
}
