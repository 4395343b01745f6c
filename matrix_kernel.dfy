/**
 * The triple loop shared by both `multiply` functions: `C[i][j] += A[i][k] *
 * B[k][j]` over `i, j, k < n`, in the three nestings ijk, ikj and jik. The
 * matrices are `MAXN x MAXN` arrays of which only the leading `n x n` block is
 * used; `int` arithmetic is modelled unbounded.
 */
module MatrixKernel {
  import opened Wrappers

  /** The first `k` terms of row `i` of `A` times column `j` of `B`, summed in order of `k`. */
  function Dot(A: array2<int>, B: array2<int>, i: nat, j: nat, k: nat): int
    reads A, B
    requires i < A.Length0 && j < B.Length1 && k <= A.Length1 && k <= B.Length0
  {
    if k == 0 then 0 else Dot(A, B, i, j, k - 1) + A[i, k - 1] * B[k - 1, j]
  }

  /** The three arrays are distinct (as the static arrays of `main` are) and hold the `n x n` block. */
  predicate Fits(A: array2<int>, B: array2<int>, C: array2<int>, n: nat) {
    A != C && B != C
    && n <= A.Length0 && n <= A.Length1 && n <= B.Length0 && n <= B.Length1
    && n <= C.Length0 && n <= C.Length1
  }

  /** A dot product whose row of A is zero is zero: the product of the all-zero matrices read back in the I/O mode adds nothing to C. */
  lemma {:induction false} DotZero(A: array2<int>, B: array2<int>, i: nat, j: nat, k: nat)
    requires i < A.Length0 && j < B.Length1 && k <= A.Length1 && k <= B.Length0
    requires forall x :: 0 <= x < k ==> A[i, x] == 0
    ensures Dot(A, B, i, j, k) == 0
  {
    if k > 0 {
      DotZero(A, B, i, j, k - 1);
    }
  }

  /** `case 0`: `for i, for j, for k`. */
  method MultiplyIJK(A: array2<int>, B: array2<int>, C: array2<int>, n: nat)
    requires Fits(A, B, C, n)
    modifies C
    ensures forall i, j :: 0 <= i < n && 0 <= j < n ==> C[i, j] == old(C[i, j]) + Dot(A, B, i, j, n)
    ensures forall i, j :: 0 <= i < C.Length0 && 0 <= j < C.Length1 && !(i < n && j < n) ==> C[i, j] == old(C[i, j])
  {
    var i := 0;
    while i < n
      invariant 0 <= i <= n
      invariant forall x, y :: 0 <= x < i && 0 <= y < n ==> C[x, y] == old(C[x, y]) + Dot(A, B, x, y, n)
      invariant forall x, y :: 0 <= x < C.Length0 && 0 <= y < C.Length1 && !(x < i && y < n) ==> C[x, y] == old(C[x, y])
    {
      var j := 0;
      while j < n
        invariant 0 <= j <= n
        invariant forall x, y :: 0 <= x < i && 0 <= y < n ==> C[x, y] == old(C[x, y]) + Dot(A, B, x, y, n)
        invariant forall y :: 0 <= y < j ==> C[i, y] == old(C[i, y]) + Dot(A, B, i, y, n)
        invariant forall x, y :: 0 <= x < C.Length0 && 0 <= y < C.Length1 && !(x < i && y < n) && !(x == i && y < j) ==> C[x, y] == old(C[x, y])
      {
        var k := 0;
        while k < n
          invariant 0 <= k <= n
          invariant C[i, j] == old(C[i, j]) + Dot(A, B, i, j, k)
          invariant forall x, y :: 0 <= x < i && 0 <= y < n ==> C[x, y] == old(C[x, y]) + Dot(A, B, x, y, n)
          invariant forall y :: 0 <= y < j ==> C[i, y] == old(C[i, y]) + Dot(A, B, i, y, n)
          invariant forall x, y :: 0 <= x < C.Length0 && 0 <= y < C.Length1 && !(x < i && y < n) && !(x == i && y <= j) ==> C[x, y] == old(C[x, y])
        {
          C[i, j] := C[i, j] + A[i, k] * B[k, j];
          k := k + 1;
        }
        j := j + 1;
      }
      i := i + 1;
    }
  }

  /** `case 1`: `for i, for k, for j`; each entry still receives its terms in order of `k`. */
  method MultiplyIKJ(A: array2<int>, B: array2<int>, C: array2<int>, n: nat)
    requires Fits(A, B, C, n)
    modifies C
    ensures forall i, j :: 0 <= i < n && 0 <= j < n ==> C[i, j] == old(C[i, j]) + Dot(A, B, i, j, n)
    ensures forall i, j :: 0 <= i < C.Length0 && 0 <= j < C.Length1 && !(i < n && j < n) ==> C[i, j] == old(C[i, j])
  {
    var i := 0;
    while i < n
      invariant 0 <= i <= n
      invariant forall x, y :: 0 <= x < i && 0 <= y < n ==> C[x, y] == old(C[x, y]) + Dot(A, B, x, y, n)
      invariant forall x, y :: 0 <= x < C.Length0 && 0 <= y < C.Length1 && !(x < i && y < n) ==> C[x, y] == old(C[x, y])
    {
      var k := 0;
      while k < n
        invariant 0 <= k <= n
        invariant forall x, y :: 0 <= x < i && 0 <= y < n ==> C[x, y] == old(C[x, y]) + Dot(A, B, x, y, n)
        invariant forall y :: 0 <= y < n ==> C[i, y] == old(C[i, y]) + Dot(A, B, i, y, k)
        invariant forall x, y :: 0 <= x < C.Length0 && 0 <= y < C.Length1 && !(x <= i && y < n) ==> C[x, y] == old(C[x, y])
      {
        AddRowTerm(A, B, C, n, i, k);
        k := k + 1;
      }
      i := i + 1;
    }
  }

  /** The innermost `for j` loop of `case 1`: adds term `k` to every entry of row `i`. */
  method AddRowTerm(A: array2<int>, B: array2<int>, C: array2<int>, n: nat, i: nat, k: nat)
    requires Fits(A, B, C, n) && i < n && k < n
    modifies C
    ensures forall y :: 0 <= y < n ==> C[i, y] == old(C[i, y]) + A[i, k] * B[k, y]
    ensures forall x, y :: 0 <= x < C.Length0 && 0 <= y < C.Length1 && !(x == i && y < n) ==> C[x, y] == old(C[x, y])
  {
    var j := 0;
    while j < n
      invariant 0 <= j <= n
      invariant forall y :: 0 <= y < j ==> C[i, y] == old(C[i, y]) + A[i, k] * B[k, y]
      invariant forall x, y :: 0 <= x < C.Length0 && 0 <= y < C.Length1 && !(x == i && y < j) ==> C[x, y] == old(C[x, y])
    {
      C[i, j] := C[i, j] + A[i, k] * B[k, j];
      j := j + 1;
    }
  }

  /** `case 2`: `for j, for i, for k`. */
  method MultiplyJIK(A: array2<int>, B: array2<int>, C: array2<int>, n: nat)
    requires Fits(A, B, C, n)
    modifies C
    ensures forall i, j :: 0 <= i < n && 0 <= j < n ==> C[i, j] == old(C[i, j]) + Dot(A, B, i, j, n)
    ensures forall i, j :: 0 <= i < C.Length0 && 0 <= j < C.Length1 && !(i < n && j < n) ==> C[i, j] == old(C[i, j])
  {
    var j := 0;
    while j < n
      invariant 0 <= j <= n
      invariant forall x, y :: 0 <= x < n && 0 <= y < j ==> C[x, y] == old(C[x, y]) + Dot(A, B, x, y, n)
      invariant forall x, y :: 0 <= x < C.Length0 && 0 <= y < C.Length1 && !(x < n && y < j) ==> C[x, y] == old(C[x, y])
    {
      var i := 0;
      while i < n
        invariant 0 <= i <= n
        invariant forall x, y :: 0 <= x < n && 0 <= y < j ==> C[x, y] == old(C[x, y]) + Dot(A, B, x, y, n)
        invariant forall x :: 0 <= x < i ==> C[x, j] == old(C[x, j]) + Dot(A, B, x, j, n)
        invariant forall x, y :: 0 <= x < C.Length0 && 0 <= y < C.Length1 && !(x < n && y < j) && !(x < i && y == j) ==> C[x, y] == old(C[x, y])
      {
        var k := 0;
        while k < n
          invariant 0 <= k <= n
          invariant C[i, j] == old(C[i, j]) + Dot(A, B, i, j, k)
          invariant forall x, y :: 0 <= x < n && 0 <= y < j ==> C[x, y] == old(C[x, y]) + Dot(A, B, x, y, n)
          invariant forall x :: 0 <= x < i ==> C[x, j] == old(C[x, j]) + Dot(A, B, x, j, n)
          invariant forall x, y :: 0 <= x < C.Length0 && 0 <= y < C.Length1 && !(x < n && y < j) && !(x <= i && y == j) ==> C[x, y] == old(C[x, y])
        {
          C[i, j] := C[i, j] + A[i, k] * B[k, j];
          k := k + 1;
        }
        i := i + 1;
      }
      j := j + 1;
    }
  }

  /**
   * The three nestings agree: from equal `C`s they leave equal `C`s, inside
   * the block and out.
   */
  method OrdersAgree(A: array2<int>, B: array2<int>, C0: array2<int>, C1: array2<int>, C2: array2<int>, n: nat)
    requires Fits(A, B, C0, n) && Fits(A, B, C1, n) && Fits(A, B, C2, n)
    requires C0 != C1 && C1 != C2 && C0 != C2
    requires C0.Length0 == C1.Length0 == C2.Length0 && C0.Length1 == C1.Length1 == C2.Length1
    requires forall i, j :: 0 <= i < C0.Length0 && 0 <= j < C0.Length1 ==> C0[i, j] == C1[i, j] == C2[i, j]
    modifies C0, C1, C2
    ensures forall i, j :: 0 <= i < C0.Length0 && 0 <= j < C0.Length1 ==> C0[i, j] == C1[i, j] == C2[i, j]
  {
    MultiplyIJK(A, B, C0, n);
    MultiplyIKJ(A, B, C1, n);
    MultiplyJIK(A, B, C2, n);
  }

  /** The two workloads both programs offer, named by `argv[2]`. */
  datatype Mode = Cpu | Io

  /** The loop-order names of `argv[1]`, compared with `strcmp` in both programs. */
  function ParseOrder(s: string): (r: Option<int>) {
    if s == "ijk" then Some(0) else if s == "ikj" then Some(1) else if s == "jik" then Some(2) else None
  }

  function OrderName(order: int): string
    requires 0 <= order <= 2
  {
    if order == 0 then "ijk" else if order == 1 then "ikj" else "jik"
  }

  /** Exactly the three names are accepted, and each names its own order. */
  lemma ParseOrderInverse(s: string, order: int)
    ensures ParseOrder(s).Some? ==> 0 <= ParseOrder(s).value <= 2 && OrderName(ParseOrder(s).value) == s
    ensures 0 <= order <= 2 ==> ParseOrder(OrderName(order)) == Some(order)
  {
  }

  function ParseMode(s: string): (r: Option<Mode>) {
    if s == "cpu" then Some(Cpu) else if s == "io" then Some(Io) else None
  }

  /**
   * The CPU-mode fill of `main`: `A[i][j] = rand() % m; B[i][j] = rand() % m;
   * C[i][j] = 0;` for `i, j < n` in row-major order. The values `rand()`
   * returns are the parameter `rnd`, two per cell, A's first.
   */
  method FillRandom(A: array2<int>, B: array2<int>, C: array2<int>, n: nat, m: nat, rnd: seq<nat>)
    requires Fits(A, B, C, n) && A != B && 0 < m && |rnd| == 2 * n * n
    modifies A, B, C
    ensures forall i, j :: 0 <= i < n && 0 <= j < n ==>
      A[i, j] == rnd[Draw(n, i, j, 0)] % m && B[i, j] == rnd[Draw(n, i, j, 1)] % m && C[i, j] == 0
    ensures forall i, j :: 0 <= i < n && 0 <= j < n ==> 0 <= A[i, j] < m && 0 <= B[i, j] < m
    ensures forall x, y :: 0 <= x < A.Length0 && 0 <= y < A.Length1 && !(x < n && y < n) ==> A[x, y] == old(A[x, y])
    ensures forall x, y :: 0 <= x < B.Length0 && 0 <= y < B.Length1 && !(x < n && y < n) ==> B[x, y] == old(B[x, y])
    ensures forall x, y :: 0 <= x < C.Length0 && 0 <= y < C.Length1 && !(x < n && y < n) ==> C[x, y] == old(C[x, y])
  {
    var i := 0;
    while i < n
      invariant 0 <= i <= n
      invariant forall x, y :: 0 <= x < i && 0 <= y < n ==>
        A[x, y] == rnd[Draw(n, x, y, 0)] % m && B[x, y] == rnd[Draw(n, x, y, 1)] % m && C[x, y] == 0
      invariant forall x, y :: 0 <= x < A.Length0 && 0 <= y < A.Length1 && !(x < n && y < n) ==> A[x, y] == old(A[x, y])
      invariant forall x, y :: 0 <= x < B.Length0 && 0 <= y < B.Length1 && !(x < n && y < n) ==> B[x, y] == old(B[x, y])
      invariant forall x, y :: 0 <= x < C.Length0 && 0 <= y < C.Length1 && !(x < n && y < n) ==> C[x, y] == old(C[x, y])
    {
      var j := 0;
      while j < n
        invariant 0 <= j <= n
        invariant forall x, y :: 0 <= x < i && 0 <= y < n ==>
          A[x, y] == rnd[Draw(n, x, y, 0)] % m && B[x, y] == rnd[Draw(n, x, y, 1)] % m && C[x, y] == 0
        invariant forall y :: 0 <= y < j ==>
          A[i, y] == rnd[Draw(n, i, y, 0)] % m && B[i, y] == rnd[Draw(n, i, y, 1)] % m && C[i, y] == 0
        invariant forall x, y :: 0 <= x < A.Length0 && 0 <= y < A.Length1 && !(x < n && y < n) ==> A[x, y] == old(A[x, y])
        invariant forall x, y :: 0 <= x < B.Length0 && 0 <= y < B.Length1 && !(x < n && y < n) ==> B[x, y] == old(B[x, y])
        invariant forall x, y :: 0 <= x < C.Length0 && 0 <= y < C.Length1 && !(x < n && y < n) ==> C[x, y] == old(C[x, y])
      {
        A[i, j] := rnd[Draw(n, i, j, 0)] % m;
        B[i, j] := rnd[Draw(n, i, j, 1)] % m;
        C[i, j] := 0;
        j := j + 1;
      }
      i := i + 1;
    }
  }

  /** Which call of `rand()` fills cell `(i, j)`: `b = 0` for A, `b = 1` for B. */
  function Draw(n: nat, i: nat, j: nat, b: nat): (r: nat)
    requires i < n && j < n && b < 2
    ensures r < 2 * n * n
  {
    assert i * n + j < (i + 1) * n <= n * n;
    2 * (i * n + j) + b
  }
}
