/**
 * The `int32_t` readers and validators of `io.c`. A file is what `fscanf`
 * sees of it: a sequence of whitespace-separated tokens, each either an
 * integer or something that is not one; the end of the sequence is end of
 * file. The header token is read with `%llu`, the values with `%lld` and
 * narrowed with `(int32_t)`.
 */
module IntIo {
  import opened SortSpec
  import opened NodeList
  import opened Wrappers

  /** What one `fscanf` conversion finds: a decimal integer, or a token it rejects. */
  datatype Token = Int(n: int) | Junk

  const U64_MAX: int := 0x1_0000_0000_0000_0000 - 1
  const I64_MIN: int := -0x8000_0000_0000_0000
  const I64_MAX: int := 0x7FFF_FFFF_FFFF_FFFF

  /**
   * `%llu` (the `strtoull` rules): a magnitude beyond `ULLONG_MAX` saturates;
   * a leading minus negates modulo 2^64, so "-1" reads as `ULLONG_MAX`.
   */
  function ToU64(n: int): (r: int)
    ensures 0 <= r <= U64_MAX
    ensures 0 <= n <= U64_MAX ==> r == n
    ensures -U64_MAX <= n < 0 ==> r == n + U64_MAX + 1
  {
    var m := if n < 0 then -n else n;
    if m > U64_MAX then U64_MAX
    else if n < 0 then (U64_MAX + 1 - m) % (U64_MAX + 1)
    else m
  }

  /** `%lld` (the `strtoll` rules): out-of-range values saturate. */
  function ToI64(n: int): (r: int)
    ensures I64_MIN <= r <= I64_MAX
    ensures I64_MIN <= n <= I64_MAX ==> r == n
  {
    if n < I64_MIN then I64_MIN else if n > I64_MAX then I64_MAX else n
  }

  predicate IsInt32(x: int) {
    -0x8000_0000 <= x < 0x8000_0000
  }

  /** `(int32_t)tmp`: the value modulo 2^32, as gcc and clang narrow. */
  function Wrap32(x: int): (r: int)
    ensures IsInt32(r)
    ensures (r - x) % 0x1_0000_0000 == 0
    ensures IsInt32(x) ==> r == x
  {
    (x + 0x8000_0000) % 0x1_0000_0000 - 0x8000_0000
  }

  /** The value `(int32_t)` stores for one token read with `%lld`. */
  function Narrow(n: int): (r: int)
    ensures IsInt32(r)
  {
    Wrap32(ToI64(n))
  }

  /**
   * `read_size_from_file`: fails when the first token is missing or not an
   * integer, or when it reads as 0; otherwise the count.
   */
  function ReadSize(toks: seq<Token>): (r: Option<nat>)
  {
    if toks == [] || toks[0].Junk? then None
    else if ToU64(toks[0].n) == 0 then None
    else Some(ToU64(toks[0].n))
  }

  /**
   * What `read_size_from_file` makes of an integer header `v`: only 0 is
   * rejected; a value in range is the count; a negative value in range is
   * taken modulo 2^64, so "-1" becomes the count 2^64 - 1; a magnitude beyond
   * 64 bits saturates. A missing or non-integer header is rejected.
   */
  lemma ReadSizeRange(v: int, rest: seq<Token>)
    ensures ReadSize([Int(v)] + rest).None? <==> v == 0
    ensures 0 < v <= U64_MAX ==> ReadSize([Int(v)] + rest) == Some(v)
    ensures -U64_MAX <= v < 0 ==> ReadSize([Int(v)] + rest) == Some(v + U64_MAX + 1)
    ensures (v > U64_MAX || v < -U64_MAX) ==> ReadSize([Int(v)] + rest) == Some(U64_MAX)
    ensures ReadSize([]) == None && ReadSize([Junk] + rest) == None
  {
  }

  /**
   * The first `n` tokens narrowed to `int32_t`, or None when fewer than `n`
   * integer tokens come first (`fscanf(fp, "%lld", &tmp) != 1`).
   */
  function ReadValues(toks: seq<Token>, n: nat): (r: Option<seq<int>>)
    ensures r.Some? ==> |r.value| == n
    decreases n
  {
    if n == 0 then Some([])
    else if toks == [] || toks[0].Junk? then None
    else match ReadValues(toks[1..], n - 1)
      case None => None
      case Some(rest) => Some([Narrow(toks[0].n)] + rest)
  }

  /** `ReadValues` succeeds exactly when the first `n` tokens are all integers, and keeps their order. */
  lemma {:induction false} ReadValuesSpec(toks: seq<Token>, n: nat)
    ensures ReadValues(toks, n).Some? <==> n <= |toks| && forall i :: 0 <= i < n ==> toks[i].Int?
    ensures ReadValues(toks, n).Some? ==> forall i :: 0 <= i < n ==> ReadValues(toks, n).value[i] == Narrow(toks[i].n)
    decreases n
  {
    if n > 0 && toks != [] && toks[0].Int? {
      ReadValuesSpec(toks[1..], n - 1);
      assert forall i :: 0 <= i < n - 1 && i < |toks| - 1 ==> toks[1..][i] == toks[i + 1];
      if ReadValues(toks[1..], n - 1).Some? {
        forall i | 0 <= i < n ensures ReadValues(toks, n).value[i] == Narrow(toks[i].n) {
          if i > 0 { assert toks[1..][i - 1] == toks[i]; }
        }
      }
    }
  }

  /** One more integer token extends the values read so far by its narrowed value. */
  lemma ReadValuesSnoc(toks: seq<Token>, i: nat)
    requires ReadValues(toks, i).Some? && i < |toks| && toks[i].Int?
    ensures ReadValues(toks, i + 1) == Some(ReadValues(toks, i).value + [Narrow(toks[i].n)])
  {
    ReadValuesSpec(toks, i);
    ReadValuesSpec(toks, i + 1);
    var r := ReadValues(toks, i + 1).value;
    assert r == ReadValues(toks, i).value + [Narrow(toks[i].n)];
  }

  /** A missing or non-integer token before the `n`-th value makes the whole read fail. */
  lemma ReadValuesStops(toks: seq<Token>, i: nat, n: nat)
    requires i < n && (i >= |toks| || toks[i].Junk?)
    ensures ReadValues(toks, n) == None
  {
    ReadValuesSpec(toks, n);
  }

  lemma SumSnoc(s: seq<int>, x: int)
    ensures Sum(s + [x]) == Sum(s) + x
  {
    assert (s + [x])[..|s|] == s;
  }

  /**
   * What both readers load: the count from the header, then that many
   * values; None on any failure.
   */
  function ReadInts(toks: seq<Token>): (r: Option<seq<int>>)
  {
    match ReadSize(toks)
    case None => None
    case Some(n) => ReadValues(toks[1..], n)
  }

  /**
   * The readers succeed exactly when the header is a positive count `N` and
   * `N` integer tokens follow it; then value `i` is token `i + 1` narrowed to
   * `int32_t`. Anything after the `N`-th value is never looked at.
   */
  lemma ReadIntsSpec(toks: seq<Token>)
    ensures ReadInts(toks).Some? <==>
      ReadSize(toks).Some? && ReadSize(toks).value < |toks|
      && forall i :: 1 <= i <= ReadSize(toks).value ==> toks[i].Int?
    ensures ReadInts(toks).Some? ==>
      |ReadInts(toks).value| == ReadSize(toks).value
      && forall i :: 0 <= i < |ReadInts(toks).value| ==> ReadInts(toks).value[i] == Narrow(toks[i + 1].n)
  {
    if ReadSize(toks).Some? {
      var n := ReadSize(toks).value;
      ReadValuesSpec(toks[1..], n);
      if n < |toks| && forall i :: 1 <= i <= n ==> toks[i].Int? {
        assert forall i :: 0 <= i < n ==> toks[1..][i] == toks[i + 1];
      }
      if ReadInts(toks).Some? {
        forall i | 1 <= i <= n ensures toks[i].Int? { assert toks[1..][i - 1] == toks[i]; }
      }
    }
  }

  /** The file a writer of `N` `int32_t` values produces: the count, then the values in order. */
  function IntFile(xs: seq<int>): (r: seq<Token>)
    ensures |r| == |xs| + 1
  {
    [Int(|xs|)] + seq(|xs|, i requires 0 <= i < |xs| => Int(xs[i]))
  }

  /** Reading such a file gives back the values in file order, whatever follows them. */
  lemma ReadIntsOfIntFile(xs: seq<int>, rest: seq<Token>)
    requires xs != [] && |xs| <= U64_MAX
    requires forall i :: 0 <= i < |xs| ==> IsInt32(xs[i])
    ensures ReadInts(IntFile(xs) + rest) == Some(xs)
  {
    var toks := IntFile(xs) + rest;
    ReadIntsSpec(toks);
    assert ReadSize(toks) == Some(|xs|);
    assert forall i :: 1 <= i <= |xs| ==> toks[i] == Int(xs[i - 1]);
    assert forall i :: 0 <= i < |xs| ==> Narrow(toks[i + 1].n) == xs[i];
    assert ReadInts(toks).Some?;
    assert ReadInts(toks).value == xs;
  }

  /** A header with fewer values after it than it announces makes both readers fail. */
  lemma ReadIntsShort(xs: seq<int>, n: int)
    requires |xs| < n <= U64_MAX
    ensures ReadInts([Int(n)] + seq(|xs|, i requires 0 <= i < |xs| => Int(xs[i]))) == None
  {
    var toks := [Int(n)] + seq(|xs|, i requires 0 <= i < |xs| => Int(xs[i]));
    ReadIntsSpec(toks);
  }

  /**
   * `read_int_array_from_file` after `fopen`: on success the array holds the
   * values, `*n_out` their number and `*checksum_out` their sum; on failure
   * it returns 1 and the three outputs keep what the caller had in them.
   */
  method ReadIntArrayFromFile(toks: seq<Token>, arrIn: array?<int>, nIn: nat, checksumIn: int)
    returns (rc: int, arr: array?<int>, n: nat, checksum: int)
    ensures rc == 0 || rc == 1
    ensures rc == 0 <==> ReadInts(toks).Some?
    ensures rc == 0 ==> (arr != null && fresh(arr) && arr[..] == ReadInts(toks).value
                         && n == arr.Length && checksum == Sum(arr[..]))
    ensures rc == 1 ==> arr == arrIn && n == nIn && checksum == checksumIn
  {
    rc, arr, n, checksum := 1, arrIn, nIn, checksumIn;
    var size := ReadSize(toks);
    if size.None? {
      return;
    }
    var count := size.value;
    var a := new int[count];
    var sum := 0;
    var i := 0;
    var vals := toks[1..];
    while i < count
      invariant 0 <= i <= count
      invariant ReadValues(vals, i) == Some(a[..i])
      invariant sum == Sum(a[..i])
    {
      if i + 1 >= |toks| || toks[i + 1].Junk? {
        ReadValuesStops(vals, i, count);
        return;
      }
      sum := StoreValue(vals, a, i, sum);
      i := i + 1;
    }
    assert a[..] == a[..count];
    rc, arr, n, checksum := 0, a, count, sum;
  }

  /**
   * One iteration of the array reading loop when the `i`-th value is a
   * number: it is stored, narrowed to 32 bits, in `arr[i]` and added to the
   * checksum.
   */
  method StoreValue(vals: seq<Token>, a: array<int>, i: nat, sum: int) returns (sum': int)
    requires i < |vals| && vals[i].Int? && i < a.Length
    requires ReadValues(vals, i) == Some(a[..i]) && sum == Sum(a[..i])
    modifies a
    ensures a[..] == old(a[..i]) + [Narrow(vals[i].n)] + old(a[i + 1..])
    ensures ReadValues(vals, i + 1) == Some(a[..i + 1]) && sum' == Sum(a[..i + 1])
  {
    ReadValuesSnoc(vals, i);
    a[i] := Narrow(vals[i].n);
    assert a[..i + 1] == a[..i] + [a[i]];
    SumSnoc(a[..i], a[i]);
    sum' := sum + a[i];
  }

  /**
   * `read_int_list_from_file` after `fopen`: the nodes are fresh and linked
   * in file order by appending at the tail; on failure it returns NULL and
   * leaves `*n_out` and `*checksum_out` as they were (the nodes built so far
   * are freed, which the model does not represent).
   */
  method ReadIntListFromFile(toks: seq<Token>, nIn: nat, checksumIn: int)
    returns (head: NodeInt?, ghost ns: seq<NodeInt>, n: nat, checksum: int)
    ensures ReadInts(toks).None? ==> head == null && n == nIn && checksum == checksumIn
    ensures ReadInts(toks).Some? ==> (IsList(head, ns) && Values(ns) == ReadInts(toks).value
                                      && n == |ns| && checksum == Sum(Values(ns)))
    ensures forall i :: 0 <= i < |ns| ==> fresh(ns[i])
  {
    head, ns, n, checksum := null, [], nIn, checksumIn;
    var size := ReadSize(toks);
    if size.None? {
      return;
    }
    var count := size.value;
    var tail: NodeInt? := null;
    var sum := 0;
    var i := 0;
    var vals := toks[1..];
    while i < count
      invariant 0 <= i <= count && |ns| == i
      invariant IsList(head, ns) && (if ns == [] then tail == null else tail == ns[|ns| - 1])
      invariant forall k :: 0 <= k < |ns| ==> fresh(ns[k])
      invariant ReadValues(vals, i) == Some(Values(ns))
      invariant sum == Sum(Values(ns))
    {
      if i + 1 >= |toks| || toks[i + 1].Junk? {
        ReadValuesStops(vals, i, count);
        head, ns := null, [];
        return;
      }
      head, tail, ns, sum := ReadNode(vals, i, head, tail, ns, sum);
      i := i + 1;
    }
    n, checksum := count, sum;
  }

  /**
   * One iteration of the reading loop when the `i`-th value is a number: a
   * fresh node holding it, narrowed to 32 bits, is appended, and the checksum
   * grows by its value.
   */
  method ReadNode(vals: seq<Token>, i: nat, head: NodeInt?, tail: NodeInt?, ghost ns: seq<NodeInt>, sum: int)
    returns (head': NodeInt?, tail': NodeInt, ghost ns': seq<NodeInt>, sum': int)
    requires i < |vals| && vals[i].Int? && |ns| == i
    requires IsList(head, ns) && (if ns == [] then tail == null else tail == ns[|ns| - 1])
    requires ReadValues(vals, i) == Some(Values(ns)) && sum == Sum(Values(ns))
    modifies tail
    ensures |ns'| == i + 1 && ns' == ns + [tail'] && fresh(tail')
    ensures IsList(head', ns') && tail' == ns'[|ns'| - 1]
    ensures ReadValues(vals, i + 1) == Some(Values(ns')) && sum' == Sum(Values(ns'))
  {
    ReadValuesSnoc(vals, i);
    var node := new NodeInt(Narrow(vals[i].n));
    SumSnoc(Values(ns), node.v);
    sum' := sum + node.v;
    head', tail', ns' := AppendNode(head, tail, ns, node);
  }

  /** `if (!head) head = tail = node; else { tail->next = node; tail = node; }` */
  method AppendNode(head: NodeInt?, tail: NodeInt?, ghost ns: seq<NodeInt>, node: NodeInt)
    returns (head': NodeInt?, tail': NodeInt, ghost ns': seq<NodeInt>)
    requires IsList(head, ns) && (if ns == [] then tail == null else tail == ns[|ns| - 1])
    requires node !in ns && node.next == null
    modifies tail
    ensures ns' == ns + [node] && tail' == node && IsList(head', ns')
    ensures Values(ns') == old(Values(ns)) + [node.v]
  {
    ghost var nx, w := Nexts(ns), Values(ns);
    ns' := ns + [node];
    if head == null {
      head', tail' := node, node;
      assert Nexts(ns') == [null];
    } else {
      tail.next := node;
      head', tail' := head, node;
      assert forall k :: 0 <= k < |ns| - 1 ==> ns[k] != tail;
      assert Nexts(ns') == nx[..|ns| - 1] + [node, null];
    }
    assert Values(ns') == w + [node.v];
  }

  /** `is_sorted_int_array`: 1 exactly when every adjacent pair of `a[..n]` is in order. */
  method IsSortedIntArray(a: array<int>, n: nat) returns (r: int)
    requires n <= a.Length
    ensures r == 0 || r == 1
    ensures r == 1 <==> AdjacentSorted(a[..n])
  {
    var i := 1;
    while i < n
      invariant 1 <= i <= if n == 0 then 1 else n
      invariant forall k :: 1 <= k < i ==> a[k - 1] <= a[k]
    {
      if a[i - 1] > a[i] {
        assert a[..n][i - 1] > a[..n][i];
        return 0;
      }
      i := i + 1;
    }
    return 1;
  }

  /** `is_sorted_int_list`: 1 exactly when the values are nondecreasing; an empty list is sorted. */
  method IsSortedIntList(h: NodeInt?, ghost ns: seq<NodeInt>) returns (r: int)
    requires IsList(h, ns)
    ensures r == 0 || r == 1
    ensures r == 1 <==> AdjacentSorted(Values(ns))
  {
    if h == null {
      return 1;
    }
    ghost var nx, w := Nexts(ns), Values(ns);
    var p: NodeInt := h;
    ghost var i := 0;
    while p.next != null
      invariant 0 <= i < |ns| && p == ns[i]
      invariant forall k :: 1 <= k <= i ==> w[k - 1] <= w[k]
      decreases |ns| - i
    {
      assert nx[i] == p.next;
      if p.v > p.next.v {
        assert w[i] > w[i + 1];
        return 0;
      }
      p := p.next;
      i := i + 1;
    }
    assert nx[i] == p.next;
    return 1;
  }
}
