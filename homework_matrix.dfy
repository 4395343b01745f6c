/**
 * `homeworks/homework-1/problem-2/code/matrix_multiplication.c`: the
 * `multiply` without a default case, the row-parity pass
 * `process_matrix_data` over a flat `n*n` buffer, and the argument and size
 * checks of `main` with its CPU-mode fill.
 */
module HomeworkMatrix {
  import opened Wrappers
  import opened MatrixKernel

  const MAXN: nat := 5000

  /**
   * `multiply`: the three nestings for orders 0, 1 and 2; any other order
   * matches no case and falls out of the switch with C untouched.
   */
  method Multiply(A: array2<int>, B: array2<int>, C: array2<int>, order: int, n: nat)
    requires Fits(A, B, C, n)
    modifies C
    ensures 0 <= order <= 2 ==> forall i, j :: 0 <= i < n && 0 <= j < n ==> C[i, j] == old(C[i, j]) + Dot(A, B, i, j, n)
    ensures forall i, j :: 0 <= i < C.Length0 && 0 <= j < C.Length1 && !(0 <= order <= 2 && i < n && j < n) ==> C[i, j] == old(C[i, j])
  {
    if order == 0 {
      MultiplyIJK(A, B, C, n);
    } else if order == 1 {
      MultiplyIKJ(A, B, C, n);
    } else if order == 2 {
      MultiplyJIK(A, B, C, n);
    }
  }

  // ---------------------------------------------------------------------
  // `process_matrix_data`

  /** Where row `i` of the flat `n x n` buffer starts; the whole row fits in the buffer. */
  function Head(i: nat, n: nat): (h: nat)
    requires i < n
    ensures h + n <= n * n
  {
    MulLeft(n, i + 1, n);
    i * n
  }

  /** Earlier rows end before later rows start. */
  lemma HeadBefore(i: nat, k: nat, n: nat)
    requires i < k < n
    ensures Head(i, n) + n <= Head(k, n)
  {
    MulLeft(n, i + 1, k);
  }

  lemma MulLeft(k: nat, a: nat, b: nat)
    requires a <= b
    ensures a * k <= b * k
  {
    assert b * k == a * k + (b - a) * k;
  }

  /** `s[start] + ... + s[start + len - 1]`, in the `long long` of the source (no overflow for `n <= MAXN`). */
  function RowSum(s: seq<int>, start: nat, len: nat): int
    requires start + len <= |s|
  {
    if len == 0 then 0 else RowSum(s, start, len - 1) + s[start + len - 1]
  }

  /** The buffer after the first `k` rows are processed: each row whose elements sum to an even number gets head 1. */
  function Process(s: seq<int>, n: nat, k: nat): (r: seq<int>)
    requires n * n <= |s| && k <= n
    ensures |r| == |s|
  {
    if k == 0 then s
    else
      var h := Head(k - 1, n);
      var p := Process(s, n, k - 1);
      if RowSum(s, h, n) % 2 == 0 then p[h := 1] else p
  }

  /**
   * What the pass promises: the head of each processed row is 1 exactly when
   * the row originally had an even sum, and keeps its value otherwise; every
   * other element is unchanged.
   */
  lemma {:induction false} ProcessSpec(s: seq<int>, n: nat, k: nat)
    requires n * n <= |s| && k <= n
    ensures forall i :: 0 <= i < k ==>
      Process(s, n, k)[Head(i, n)] == (if RowSum(s, Head(i, n), n) % 2 == 0 then 1 else s[Head(i, n)])
    ensures forall q :: 0 <= q < |s| && (forall i :: 0 <= i < k ==> q != Head(i, n)) ==> Process(s, n, k)[q] == s[q]
  {
    if k > 0 {
      ProcessSpec(s, n, k - 1);
      forall i | 0 <= i < k - 1 ensures Head(i, n) != Head(k - 1, n) {
        HeadBefore(i, k - 1, n);
      }
    }
  }

  /** The rows not yet processed are still as they were. */
  lemma ProcessRest(s: seq<int>, n: nat, k: nat)
    requires n * n <= |s| && k < n
    ensures forall q :: Head(k, n) <= q < |s| ==> Process(s, n, k)[q] == s[q]
  {
    ProcessSpec(s, n, k);
    forall i | 0 <= i < k ensures Head(i, n) < Head(k, n) {
      HeadBefore(i, k, n);
    }
  }

  /** Each row's outcome depends only on that row's original contents. */
  lemma RowLocal(s: seq<int>, t: seq<int>, n: nat, i: nat)
    requires n * n <= |s| && n * n <= |t| && i < n
    requires s[Head(i, n)..Head(i, n) + n] == t[Head(i, n)..Head(i, n) + n]
    ensures Process(s, n, n)[Head(i, n)] == Process(t, n, n)[Head(i, n)]
  {
    var h := Head(i, n);
    ProcessHead(s, n, i);
    ProcessHead(t, n, i);
    RowSumSlice(s, t, h, n, n);
    assert s[h] == s[h..h + n][0] && t[h] == t[h..h + n][0];
  }

  /** ProcessSpec for the head of one row after the whole pass. */
  lemma ProcessHead(s: seq<int>, n: nat, i: nat)
    requires n * n <= |s| && i < n
    ensures Head(i, n) < |s|
    ensures Process(s, n, n)[Head(i, n)] == (if RowSum(s, Head(i, n), n) % 2 == 0 then 1 else s[Head(i, n)])
  {
    ProcessSpec(s, n, n);
  }

  lemma {:induction false} RowSumSlice(s: seq<int>, t: seq<int>, start: nat, len: nat, full: nat)
    requires len <= full && start + full <= |s| && start + full <= |t|
    requires s[start..start + full] == t[start..start + full]
    ensures RowSum(s, start, len) == RowSum(t, start, len)
  {
    if len > 0 {
      RowSumSlice(s, t, start, len - 1, full);
      assert s[start + len - 1] == s[start..start + full][len - 1];
    }
  }

  /** `process_matrix_data`: row by row, sum the row, and set its head to 1 if the sum is even. */
  method ProcessMatrixData(a: array<int>, n: nat)
    requires n * n <= a.Length
    modifies a
    ensures a[..] == Process(old(a[..]), n, n)
  {
    ghost var s := a[..];
    var i := 0;
    while i < n
      invariant 0 <= i <= n && a[..] == Process(s, n, i)
    {
      var base := i * n;
      assert base == Head(i, n);
      ProcessRest(s, n, i);
      var rowSum := 0;
      var j := 0;
      while j < n
        invariant 0 <= j <= n && rowSum == RowSum(s, base, j)
      {
        rowSum := rowSum + a[base + j];
        j := j + 1;
      }
      if rowSum % 2 == 0 {
        a[base] := 1;
      }
      i := i + 1;
    }
  }

  // ---------------------------------------------------------------------
  // `main`

  predicate IsDigit(c: char) {
    '0' <= c <= '9'
  }

  /** The characters `isspace` accepts in the C locale. */
  predicate IsSpace(c: char) {
    c == ' ' || c == '\t' || c == '\n' || c == '\r' || c == '\U{B}' || c == '\U{C}'
  }

  /** The leading run of digits of `s`. */
  function DigitRun(s: string): (r: string)
    ensures |r| <= |s| && r == s[..|r|]
    ensures forall k :: 0 <= k < |r| ==> IsDigit(r[k])
    ensures |r| < |s| ==> !IsDigit(s[|r|])
  {
    if s == [] || !IsDigit(s[0]) then [] else [s[0]] + DigitRun(s[1..])
  }

  /** The decimal value of a digit string, most significant digit first. */
  function Value(ds: string): int
    requires forall k :: 0 <= k < |ds| ==> IsDigit(ds[k])
  {
    if ds == [] then 0 else Value(ds[..|ds| - 1]) * 10 + (ds[|ds| - 1] as int - '0' as int)
  }

  /**
   * `atoi`: skip leading white space, take one optional sign, then the
   * leading digits; no digits gives 0. Overflow, undefined in C, is not
   * modelled.
   */
  function Atoi(s: string): int
    decreases |s|
  {
    if s != [] && IsSpace(s[0]) then Atoi(s[1..])
    else if s != [] && (s[0] == '-' || s[0] == '+') then
      var v := Value(DigitRun(s[1..]));
      if s[0] == '-' then -v else v
    else Value(DigitRun(s))
  }

  /** The decimal spelling of `k`, as a user types the size. */
  function Decimal(k: nat): (r: string)
    ensures |r| > 0 && forall i :: 0 <= i < |r| ==> IsDigit(r[i])
  {
    if k < 10 then ['0' + k as char] else Decimal(k / 10) + ['0' + (k % 10) as char]
  }

  lemma {:induction false} ValueOfDecimal(k: nat)
    ensures Value(Decimal(k)) == k
  {
    if k >= 10 {
      ValueOfDecimal(k / 10);
      assert Decimal(k)[..|Decimal(k)| - 1] == Decimal(k / 10);
    }
  }

  lemma DigitRunAll(s: string)
    requires forall k :: 0 <= k < |s| ==> IsDigit(s[k])
    ensures DigitRun(s) == s
  {
  }

  /** `atoi` reads back the decimal spelling of any size. */
  lemma AtoiDecimal(k: nat)
    ensures Atoi(Decimal(k)) == k
  {
    DigitRunAll(Decimal(k));
    ValueOfDecimal(k);
  }

  /** Digits after the number do not count: `atoi("12x")` is 12. */
  lemma AtoiStopsAtNonDigit(k: nat, rest: string)
    requires rest == [] || !IsDigit(rest[0])
    ensures Atoi(Decimal(k) + rest) == k
  {
    var d := Decimal(k);
    assert (d + rest)[0] == d[0] && IsDigit(d[0]);
    DigitRunPrefix(d, rest);
    ValueOfDecimal(k);
    assert Atoi(d + rest) == Value(DigitRun(d + rest));
  }

  lemma {:induction false} DigitRunPrefix(d: string, rest: string)
    requires forall k :: 0 <= k < |d| ==> IsDigit(d[k])
    requires rest == [] || !IsDigit(rest[0])
    ensures DigitRun(d + rest) == d
  {
    if d != [] {
      assert (d + rest)[1..] == d[1..] + rest;
      DigitRunPrefix(d[1..], rest);
    } else {
      assert d + rest == rest;
    }
  }

  /** What `main` runs with: loop order, mode and matrix size. */
  datatype Setup = Setup(order: int, mode: Mode, n: nat)

  /**
   * The argument checks of `main`: the program name and three arguments are
   * required, the order and the mode must be known names, and the size read
   * by `atoi` must lie in `1..MAXN`; every failure makes `main` return 1.
   */
  function ParseArgs(argv: seq<string>): (r: Option<Setup>)
    ensures r.Some? ==> 0 <= r.value.order <= 2 && 1 <= r.value.n <= MAXN
  {
    if |argv| < 4 then None
    else
      var order := ParseOrder(argv[1]);
      var mode := ParseMode(argv[2]);
      var n := Atoi(argv[3]);
      if order.None? || mode.None? || n <= 0 || n > MAXN then None
      else Some(Setup(order.value, mode.value, n))
  }

  /** The arguments are accepted exactly when all three checks pass, and then they are what was typed. */
  lemma ParseArgsSpec(argv: seq<string>)
    ensures ParseArgs(argv).Some? <==>
      |argv| >= 4 && argv[1] in {"ijk", "ikj", "jik"} && argv[2] in {"cpu", "io"} && 1 <= Atoi(argv[3]) <= MAXN
    ensures ParseArgs(argv).Some? ==>
      OrderName(ParseArgs(argv).value.order) == argv[1] && ParseArgs(argv).value.n == Atoi(argv[3])
  {
    if |argv| >= 4 && ParseOrder(argv[1]).Some? {
      ParseOrderInverse(argv[1], 0);
    }
  }

  /** A size typed in decimal is accepted exactly when it lies in `1..MAXN`. */
  lemma SizeAccepted(order: string, mode: string, k: nat)
    requires order in {"ijk", "ikj", "jik"} && mode in {"cpu", "io"}
    ensures ParseArgs(["prog", order, mode, Decimal(k)]).Some? <==> 1 <= k <= MAXN
  {
    AtoiDecimal(k);
    ParseArgsSpec(["prog", order, mode, Decimal(k)]);
  }

  /**
   * The CPU mode of `main`: entries `rand() % 100`, C zeroed, then
   * `multiply`; every entry of C is the row-by-column product.
   */
  method CpuMode(A: array2<int>, B: array2<int>, C: array2<int>, order: int, n: nat, rnd: seq<nat>)
    requires Fits(A, B, C, n) && A != B && |rnd| == 2 * n * n && 0 <= order <= 2
    modifies A, B, C
    ensures forall i, j :: 0 <= i < n && 0 <= j < n ==>
      A[i, j] == rnd[Draw(n, i, j, 0)] % 100 && B[i, j] == rnd[Draw(n, i, j, 1)] % 100
    ensures forall i, j :: 0 <= i < n && 0 <= j < n ==> 0 <= A[i, j] < 100 && 0 <= B[i, j] < 100
    ensures forall i, j :: 0 <= i < n && 0 <= j < n ==> C[i, j] == Dot(A, B, i, j, n)
    ensures forall x, y :: 0 <= x < A.Length0 && 0 <= y < A.Length1 && !(x < n && y < n) ==> A[x, y] == old(A[x, y])
    ensures forall x, y :: 0 <= x < B.Length0 && 0 <= y < B.Length1 && !(x < n && y < n) ==> B[x, y] == old(B[x, y])
    ensures forall x, y :: 0 <= x < C.Length0 && 0 <= y < C.Length1 && !(x < n && y < n) ==> C[x, y] == old(C[x, y])
  {
    FillRandom(A, B, C, n, 100, rnd);
    Multiply(A, B, C, order, n);
  }
}
