/**
 * Reference definitions shared by the array sorts, the list sorts and the
 * validators: nondecreasing order, the stable two-way merge, the top-down
 * mergesort with the split the C code uses, and insertion by right-to-left
 * shifting.
 */
module SortSpec {

  /** Every earlier element is at most every later one. */
  predicate Sorted(s: seq<int>) {
    forall i, j :: 0 <= i < j < |s| ==> s[i] <= s[j]
  }

  /** The check `is_sorted_int_array` and `is_sorted_int_list` perform: adjacent pairs only. */
  predicate AdjacentSorted(s: seq<int>) {
    forall i :: 1 <= i < |s| ==> s[i - 1] <= s[i]
  }

  /** Checking adjacent pairs is enough: both notions of order coincide. */
  lemma {:induction false} AdjacentSortedIffSorted(s: seq<int>)
    ensures AdjacentSorted(s) <==> Sorted(s)
  {
    if AdjacentSorted(s) && |s| > 1 {
      AdjacentSortedIffSorted(s[1..]);
      assert AdjacentSorted(s[1..]);
      forall i, j | 0 <= i < j < |s| ensures s[i] <= s[j] {
        if i > 0 {
          assert s[1..][i - 1] <= s[1..][j - 1];
        } else {
          assert s[0] <= s[1];
          if j > 1 { assert s[1..][0] <= s[1..][j - 1]; }
        }
      }
    }
  }

  /** Sum of the elements: the checksum the readers compute. */
  function Sum(s: seq<int>): int {
    if s == [] then 0 else Sum(s[..|s| - 1]) + s[|s| - 1]
  }

  /**
   * Stable merge: on a tie the left element is taken first, as in
   * `a[i] <= a[j] ? a[i++] : a[j++]` and `if (a->v <= b->v)`.
   */
  function Merge(x: seq<int>, y: seq<int>): (r: seq<int>)
    ensures |r| == |x| + |y|
    decreases |x| + |y|
  {
    if x == [] then y
    else if y == [] then x
    else if x[0] <= y[0] then [x[0]] + Merge(x[1..], y)
    else [y[0]] + Merge(x, y[1..])
  }

  /** Merging loses and invents nothing. */
  lemma {:induction false} MergePermutes(x: seq<int>, y: seq<int>)
    ensures multiset(Merge(x, y)) == multiset(x) + multiset(y)
    decreases |x| + |y|
  {
    if x != [] && y != [] {
      if x[0] <= y[0] {
        MergePermutes(x[1..], y);
        assert Merge(x, y) == [x[0]] + Merge(x[1..], y);
        assert multiset(x) == multiset{x[0]} + multiset(x[1..]) by { assert x == [x[0]] + x[1..]; }
      } else {
        MergePermutes(x, y[1..]);
        assert Merge(x, y) == [y[0]] + Merge(x, y[1..]);
        assert multiset(y) == multiset{y[0]} + multiset(y[1..]) by { assert y == [y[0]] + y[1..]; }
      }
    }
  }

  /** The first element of a merge is the first element of one of the inputs. */
  lemma {:induction false} MergeHead(x: seq<int>, y: seq<int>)
    requires x != [] || y != []
    ensures Merge(x, y) != []
    ensures Merge(x, y)[0] == (if x == [] then y[0] else if y == [] then x[0] else if x[0] <= y[0] then x[0] else y[0])
  {
  }

  /** Merging two sorted runs gives a sorted run. */
  lemma {:induction false} MergeSorted(x: seq<int>, y: seq<int>)
    requires Sorted(x) && Sorted(y)
    ensures Sorted(Merge(x, y))
    decreases |x| + |y|
  {
    if x == [] || y == [] {
    } else if x[0] <= y[0] {
      var t := Merge(x[1..], y);
      MergeSorted(x[1..], y);
      if t != [] {
        MergeHead(x[1..], y);
        assert x[0] <= t[0];
      }
      SortedCons(x[0], t);
    } else {
      var t := Merge(x, y[1..]);
      MergeSorted(x, y[1..]);
      MergeHead(x, y[1..]);
      assert y[0] <= t[0];
      SortedCons(y[0], t);
    }
  }

  lemma SortedCons(h: int, t: seq<int>)
    requires Sorted(t)
    requires t != [] ==> h <= t[0]
    ensures Sorted([h] + t)
  {
    var s := [h] + t;
    forall i, j | 0 <= i < j < |s| ensures s[i] <= s[j] {
      if i > 0 { assert s[i] == t[i - 1] && s[j] == t[j - 1]; }
      else { assert s[j] == t[j - 1]; assert t[0] <= t[j - 1]; }
    }
  }

  /** Length of the first half in every split of the C code: ceil(len/2). */
  function Half(len: nat): nat {
    (len + 1) / 2
  }

  /**
   * Top-down mergesort: the left half keeps the first ceil(len/2) elements,
   * like `mid = lo + (hi - lo) / 2` and like the slow/fast list split.
   */
  function MergeSort(s: seq<int>): (r: seq<int>)
    ensures |r| == |s|
    decreases |s|, 1
  {
    if |s| < 2 then s
    else MergeHalves(s, Half(|s|))
  }

  /** The recursive case of MergeSort: sort both halves of the split at `h`, then merge. */
  function MergeHalves(s: seq<int>, h: nat): (r: seq<int>)
    requires 0 < h < |s|
    ensures |r| == |s|
    decreases |s|, 0
  {
    Merge(MergeSort(s[..h]), MergeSort(s[h..]))
  }

  /** The recursive case of MergeSort written out. */
  lemma MergeSortUnfold(s: seq<int>)
    requires |s| >= 2
    ensures MergeSort(s) == Merge(MergeSort(s[..Half(|s|)]), MergeSort(s[Half(|s|)..]))
  {
    assert MergeSort(s) == MergeHalves(s, Half(|s|));
  }

  /** Mergesort rearranges its input. */
  lemma {:induction false} MergeSortPermutes(s: seq<int>)
    ensures multiset(MergeSort(s)) == multiset(s)
    decreases |s|
  {
    if |s| >= 2 {
      var l, r := s[..Half(|s|)], s[Half(|s|)..];
      MergeSortPermutes(l);
      MergeSortPermutes(r);
      MergePermutes(MergeSort(l), MergeSort(r));
      assert s == l + r;
    }
  }

  /** The mergesort reference function sorts. */
  lemma {:induction false} MergeSortSorted(s: seq<int>)
    ensures Sorted(MergeSort(s))
    decreases |s|
  {
    if |s| >= 2 {
      MergeSortSorted(s[..Half(|s|)]);
      MergeSortSorted(s[Half(|s|)..]);
      MergeSorted(MergeSort(s[..Half(|s|)]), MergeSort(s[Half(|s|)..]));
    }
  }

  /**
   * Inserting `key` into a prefix by shifting larger elements one place to
   * the right, scanning from the end: the inner loop of `insertion_sort_int`.
   */
  function InsertFromRight(p: seq<int>, key: int): (r: seq<int>)
    ensures |r| == |p| + 1
  {
    if p == [] || p[|p| - 1] <= key then p + [key]
    else InsertFromRight(p[..|p| - 1], key) + [p[|p| - 1]]
  }

  /** Insertion adds exactly the key. */
  lemma {:induction false} InsertFromRightPermutes(p: seq<int>, key: int)
    ensures multiset(InsertFromRight(p, key)) == multiset(p) + multiset{key}
  {
    if !(p == [] || p[|p| - 1] <= key) {
      InsertFromRightPermutes(p[..|p| - 1], key);
      assert p == p[..|p| - 1] + [p[|p| - 1]];
    }
  }

  /** Insertion sort as the outer loop runs it: insert each element into the sorted prefix. */
  function InsertionSort(s: seq<int>): (r: seq<int>)
    ensures |r| == |s|
  {
    if s == [] then []
    else InsertFromRight(InsertionSort(s[..|s| - 1]), s[|s| - 1])
  }

  /** Insertion sort rearranges its input. */
  lemma {:induction false} InsertionSortPermutes(s: seq<int>)
    ensures multiset(InsertionSort(s)) == multiset(s)
  {
    if s != [] {
      InsertionSortPermutes(s[..|s| - 1]);
      InsertFromRightPermutes(InsertionSort(s[..|s| - 1]), s[|s| - 1]);
      assert s == s[..|s| - 1] + [s[|s| - 1]];
    }
  }

  /** Shifting from the right into a sorted prefix keeps it sorted. */
  lemma {:induction false} InsertFromRightSorted(p: seq<int>, key: int)
    requires Sorted(p)
    ensures Sorted(InsertFromRight(p, key))
    ensures forall x :: x in InsertFromRight(p, key) ==> x in p || x == key
  {
    var r := InsertFromRight(p, key);
    if p == [] || p[|p| - 1] <= key {
      forall i, j | 0 <= i < j < |r| ensures r[i] <= r[j] {
        if j == |p| { assert r[i] == p[i]; }
      }
    } else {
      var q := p[..|p| - 1];
      var last := p[|p| - 1];
      InsertFromRightSorted(q, key);
      var t := InsertFromRight(q, key);
      assert r == t + [last];
      forall x | x in t ensures x <= last {
        if x in q {
          var k :| 0 <= k < |q| && q[k] == x;
          assert p[k] == x;
        }
      }
      forall i, j | 0 <= i < j < |r| ensures r[i] <= r[j] {
        if j == |t| { assert r[i] == t[i]; assert t[i] in t; }
        else { assert r[i] == t[i] && r[j] == t[j]; }
      }
      forall x | x in r ensures x in p || x == key {
        if x != last { assert x in t; }
      }
    }
  }

  /** The insertion sort reference function sorts. */
  lemma {:induction false} InsertionSortSorted(s: seq<int>)
    ensures Sorted(InsertionSort(s))
  {
    if s != [] {
      InsertionSortSorted(s[..|s| - 1]);
      InsertFromRightSorted(InsertionSort(s[..|s| - 1]), s[|s| - 1]);
    }
  }

  /**
   * A sorted permutation is unique: every sort of the library, whatever its
   * algorithm, yields the same values.
   */
  lemma {:induction false} SortedPermutationUnique(a: seq<int>, b: seq<int>)
    requires Sorted(a) && Sorted(b)
    requires multiset(a) == multiset(b)
    ensures a == b
    decreases |a|
  {
    assert |a| == |multiset(a)| == |multiset(b)| == |b|;
    if a != [] {
      assert b[0] in multiset(a) by { assert b[0] in b; }
      assert a[0] in multiset(b) by { assert a[0] in a; }
      var i :| 0 <= i < |a| && a[i] == b[0];
      var j :| 0 <= j < |b| && b[j] == a[0];
      assert a[0] <= a[i];
      assert b[0] <= b[j];
      assert a == [a[0]] + a[1..];
      assert b == [b[0]] + b[1..];
      assert a[0] == b[0];
      calc {
        multiset(a[1..]);
        multiset(a) - multiset{a[0]};
        multiset(b) - multiset{b[0]};
        multiset(b[1..]);
      }
      SortedTail(a);
      SortedTail(b);
      SortedPermutationUnique(a[1..], b[1..]);
    }
  }

  lemma SortedTail(s: seq<int>)
    requires Sorted(s) && s != []
    ensures Sorted(s[1..])
  {
  }

  /** The two reference sorts agree on every input. */
  lemma SortsAgree(s: seq<int>)
    ensures InsertionSort(s) == MergeSort(s)
  {
    InsertionSortSorted(s);
    InsertionSortPermutes(s);
    MergeSortSorted(s);
    MergeSortPermutes(s);
    SortedPermutationUnique(InsertionSort(s), MergeSort(s));
  }
}
