/**
 * `docs/02-Getting-started-with-profiling/matrix_multiplication.c`: the
 * `multiply` that exits on an unknown loop order, the text writer
 * `create_and_write_matrices`, the chunk-fed scanner `read_matrix`, and the
 * argument handling of `main`. A file is its text; each `read` returns the
 * next chunk of it.
 */
module ProfilingDemo {
  import opened Wrappers
  import opened MatrixKernel

  const MAXN: nat := 1000
  const ION: nat := 1000
  const CPUN: nat := 1000

  /**
   * `multiply`: orders 0, 1 and 2 run the ijk, ikj and jik nestings, which
   * all leave `C[i][j] + Σ A[i][k]·B[k][j]` in the `n x n` block; any other
   * order is a fatal error (status 1) before C is touched.
   */
  method Multiply(A: array2<int>, B: array2<int>, C: array2<int>, order: int, n: nat) returns (status: int)
    requires MatrixKernel.Fits(A, B, C, n)
    modifies C
    ensures status == (if 0 <= order <= 2 then 0 else 1)
    ensures status == 0 ==> forall i, j :: 0 <= i < n && 0 <= j < n ==> C[i, j] == old(C[i, j]) + MatrixKernel.Dot(A, B, i, j, n)
    ensures forall i, j :: 0 <= i < C.Length0 && 0 <= j < C.Length1 && !(status == 0 && i < n && j < n) ==> C[i, j] == old(C[i, j])
  {
    if order == 0 {
      MatrixKernel.MultiplyIJK(A, B, C, n);
    } else if order == 1 {
      MatrixKernel.MultiplyIKJ(A, B, C, n);
    } else if order == 2 {
      MatrixKernel.MultiplyJIK(A, B, C, n);
    } else {
      return 1;
    }
    return 0;
  }

  // ---------------------------------------------------------------------
  // The scanner of `read_matrix`

  /**
   * The variables of `read_matrix` that outlive one `read`: the value being
   * accumulated, its sign, and every committed value in order (`count` is
   * their number, `current` follows from it).
   */
  datatype Scanner = Scanner(val: int, sign: int, committed: seq<int>)

  const Start: Scanner := Scanner(0, 1, [])

  predicate IsDigit(c: char) {
    '0' <= c <= '9'
  }

  /**
   * One byte: a digit extends the value, `-` makes it negative, and anything
   * else commits `sign * val` (while fewer than `cap` values are committed)
   * and starts a new value, whether or not a digit came before it.
   */
  function Step(s: Scanner, c: char, cap: nat): (r: Scanner)
    ensures |s.committed| <= |r.committed| <= |s.committed| + 1
    ensures r.committed[..|s.committed|] == s.committed
  {
    if c == '-' then s.(sign := -1)
    else if IsDigit(c) then s.(val := s.val * 10 + (c as int - '0' as int))
    else Scanner(0, 1, if |s.committed| < cap then s.committed + [s.sign * s.val] else s.committed)
  }

  /** Scanning a text byte by byte. */
  function Scan(s: Scanner, text: string, cap: nat): Scanner
    decreases |text|
  {
    if text == [] then s else Scan(Step(s, text[0], cap), text[1..], cap)
  }

  /**
   * Scanning is a left fold, so the state after two pieces is the state
   * after their concatenation: where `read` splits the file does not matter.
   */
  lemma {:induction false} ScanAppend(s: Scanner, x: string, y: string, cap: nat)
    ensures Scan(s, x + y, cap) == Scan(Scan(s, x, cap), y, cap)
    decreases |x|
  {
    if x != [] {
      assert (x + y)[0] == x[0] && (x + y)[1..] == x[1..] + y;
      assert Scan(s, x + y, cap) == Scan(Step(s, x[0], cap), x[1..] + y, cap);
      assert Scan(s, x, cap) == Scan(Step(s, x[0], cap), x[1..], cap);
      ScanAppend(Step(s, x[0], cap), x[1..], y, cap);
    } else {
      assert x + y == y;
    }
  }

  /** Committed values are never revised, and never more than `cap` are kept. */
  lemma {:induction false} ScanKeeps(s: Scanner, text: string, cap: nat)
    requires |s.committed| <= cap
    ensures |s.committed| <= |Scan(s, text, cap).committed| <= cap
    ensures Scan(s, text, cap).committed[..|s.committed|] == s.committed
    decreases |text|
  {
    if text != [] {
      var t := Step(s, text[0], cap);
      ScanKeeps(t, text[1..], cap);
      var r := Scan(t, text[1..], cap).committed;
      assert r[..|s.committed|] == r[..|t.committed|][..|s.committed|];
    }
  }

  /** Digits that no separator follows before end of file are never committed. */
  lemma {:induction false} TrailingDigitsDropped(s: Scanner, text: string, cap: nat)
    requires forall i :: 0 <= i < |text| ==> IsDigit(text[i]) || text[i] == '-'
    ensures Scan(s, text, cap).committed == s.committed
    decreases |text|
  {
    if text != [] {
      TrailingDigitsDropped(Step(s, text[0], cap), text[1..], cap);
    }
  }

  /** Flat slot `q` of `&A[0][0]`, in the row-major layout of a `MAXN x MAXN` array. */
  function Cell(q: nat): (r: (nat, nat))
    requires q < MAXN * MAXN
    ensures r.0 < MAXN && r.1 < MAXN && r.0 * MAXN + r.1 == q
  {
    (q / MAXN, q % MAXN)
  }

  /** Slot `Slot(x, y)` of the flat view is cell `(x, y)`, and no other cell shares it. */
  function Slot(x: nat, y: nat): (q: nat)
    requires x < MAXN && y < MAXN
    ensures q < MAXN * MAXN && Cell(q) == (x, y)
  {
    x * MAXN + y
  }

  /**
   * What a slot of one matrix holds after the commits so far: the matrix whose
   * first commit is number `base` takes commits `base .. base + n*n - 1`, so
   * its slot `q < n*n` holds commit `base + q` once that exists, and its
   * earlier contents otherwise.
   */
  function Want(committed: seq<int>, base: nat, n: nat, q: nat, earlier: int): int {
    if q < n * n && base + q < |committed| then committed[base + q] else earlier
  }

  /**
   * The store of `read_matrix`: commit `c` goes to slot `c % (n*n)` of A
   * while `c < n*n` and of B after that; slot `q` is `A[q / MAXN][q % MAXN]`,
   * not `A[q / n][q % n]`.
   */
  ghost predicate Loaded(A: array2<int>, B: array2<int>, a0: seq<seq<int>>, b0: seq<seq<int>>, committed: seq<int>, n: nat)
    reads A, B
    requires A.Length0 == MAXN && A.Length1 == MAXN && B.Length0 == MAXN && B.Length1 == MAXN
    requires |a0| == MAXN && |b0| == MAXN && forall x :: 0 <= x < MAXN ==> |a0[x]| == MAXN && |b0[x]| == MAXN
  {
    forall x, y :: 0 <= x < MAXN && 0 <= y < MAXN ==>
      A[x, y] == Want(committed, 0, n, Slot(x, y), a0[x][y])
      && B[x, y] == Want(committed, n * n, n, Slot(x, y), b0[x][y])
  }

  /**
   * With `n < MAXN` the flat slots run past the `n x n` block: the first
   * value of the second row of the file lands in `A[0][n]`, outside the block
   * `multiply` reads. `main` always reads with `n == ION == MAXN`.
   */
  lemma SmallBlockShifted(A: array2<int>, B: array2<int>, a0: seq<seq<int>>, b0: seq<seq<int>>, committed: seq<int>, n: nat)
    requires Shapes(A, B, a0, b0, n) && Loaded(A, B, a0, b0, committed, n)
    requires 1 < n < MAXN && n < |committed|
    ensures A[0, n] == committed[n]
  {
    MulLeft(n, 2, n);
    assert Slot(0, n) == n < n * n;
  }

  /** The contents of a `MAXN x MAXN` array. */
  ghost function Contents(A: array2<int>): (r: seq<seq<int>>)
    reads A
    requires A.Length0 == MAXN && A.Length1 == MAXN
    ensures |r| == MAXN && forall x :: 0 <= x < MAXN ==> |r[x]| == MAXN
    ensures forall x, y :: 0 <= x < MAXN && 0 <= y < MAXN ==> r[x][y] == A[x, y]
  {
    seq(MAXN, x requires 0 <= x < MAXN reads A => seq(MAXN, y requires 0 <= y < MAXN reads A => A[x, y]))
  }

  /** The concatenation of all chunks: the file as `read` delivers it. */
  function Flatten(chunks: seq<string>): string {
    if chunks == [] then [] else Flatten(chunks[..|chunks| - 1]) + chunks[|chunks| - 1]
  }

  /** The shapes `read_matrix` relies on: two distinct `MAXN x MAXN` arrays, and snapshots of them. */
  ghost predicate Shapes(A: array2<int>, B: array2<int>, a0: seq<seq<int>>, b0: seq<seq<int>>, n: nat) {
    A != B && A.Length0 == MAXN && A.Length1 == MAXN && B.Length0 == MAXN && B.Length1 == MAXN && n <= MAXN
    && |a0| == MAXN && |b0| == MAXN && forall x :: 0 <= x < MAXN ==> |a0[x]| == MAXN && |b0[x]| == MAXN
  }

  /**
   * The state of `read_matrix` after the bytes `text`: its variables are the
   * scanner's after `text`, `count` is the number of commits, `current`
   * says whether A is full, and A and B hold what was committed.
   */
  ghost predicate Reading(A: array2<int>, B: array2<int>, a0: seq<seq<int>>, b0: seq<seq<int>>, n: nat, text: string,
                          val: int, sign: int, current: int, count: int, committed: seq<int>)
    reads A, B
  {
    Shapes(A, B, a0, b0, n)
    && Scanner(val, sign, committed) == Scan(Start, text, 2 * n * n)
    && count == |committed| <= 2 * n * n && current == (if 0 < n * n <= count then 1 else 0)
    && Loaded(A, B, a0, b0, committed, n)
  }

  /**
   * `read_matrix`, after `open`: `chunks` are the successive buffers `read`
   * returns. The scanner variables live across chunks, so A and B end up
   * holding the values committed by scanning the whole file, at most
   * `2*n*n` of them; nothing else in A or B changes.
   */
  method ReadMatrix(chunks: seq<string>, A: array2<int>, B: array2<int>, n: nat)
    requires A != B && A.Length0 == MAXN && A.Length1 == MAXN && B.Length0 == MAXN && B.Length1 == MAXN
    requires n <= MAXN
    modifies A, B
    ensures Loaded(A, B, old(Contents(A)), old(Contents(B)), Scan(Start, Flatten(chunks), 2 * n * n).committed, n)
  {
    ghost var a0, b0 := Contents(A), Contents(B);
    var val, sign := 0, 1;
    var current, count := 0, 0;
    ghost var committed: seq<int> := [];
    ghost var consumed: string := [];
    var ci := 0;
    while ci < |chunks|
      invariant 0 <= ci <= |chunks| && consumed == Flatten(chunks[..ci])
      invariant Reading(A, B, a0, b0, n, consumed, val, sign, current, count, committed)
    {
      val, sign, current, count, committed := ReadChunk(chunks[ci], A, B, n, a0, b0, consumed, val, sign, current, count, committed);
      assert chunks[..ci + 1][..ci] == chunks[..ci];
      consumed := consumed + chunks[ci];
      ci := ci + 1;
    }
    assert chunks[..ci] == chunks;
  }

  /** The inner loop of `read_matrix`: one buffer, byte by byte. */
  method ReadChunk(buf: string, A: array2<int>, B: array2<int>, n: nat, ghost a0: seq<seq<int>>, ghost b0: seq<seq<int>>, ghost before: string,
                   val0: int, sign0: int, current0: int, count0: int, ghost committed0: seq<int>)
    returns (val: int, sign: int, current: int, count: int, ghost committed: seq<int>)
    requires Reading(A, B, a0, b0, n, before, val0, sign0, current0, count0, committed0)
    modifies A, B
    ensures Reading(A, B, a0, b0, n, before + buf, val, sign, current, count, committed)
  {
    val, sign, current, count, committed := val0, sign0, current0, count0, committed0;
    var i := 0;
    assert before + buf[..i] == before;
    while i < |buf|
      invariant 0 <= i <= |buf|
      invariant Reading(A, B, a0, b0, n, before + buf[..i], val, sign, current, count, committed)
    {
      assert before + buf[..i + 1] == before + buf[..i] + [buf[i]];
      val, sign, current, count, committed := ReadByte(buf[i], A, B, n, a0, b0, before + buf[..i], val, sign, current, count, committed);
      i := i + 1;
    }
    assert buf[..i] == buf;
  }

  /**
   * The body of the inner loop of `read_matrix`: `-`, a digit, or a byte that
   * stores `sign*val` while fewer than `n*n*2` values are stored and starts
   * the next value.
   */
  method ReadByte(c: char, A: array2<int>, B: array2<int>, n: nat, ghost a0: seq<seq<int>>, ghost b0: seq<seq<int>>, ghost before: string,
                  val0: int, sign0: int, current0: int, count0: int, ghost committed0: seq<int>)
    returns (val: int, sign: int, current: int, count: int, ghost committed: seq<int>)
    requires Reading(A, B, a0, b0, n, before, val0, sign0, current0, count0, committed0)
    modifies A, B
    ensures Reading(A, B, a0, b0, n, before + [c], val, sign, current, count, committed)
  {
    ScanAppend(Start, before, [c], 2 * n * n);
    val, sign, current, count, committed := val0, sign0, current0, count0, committed0;
    if c == '-' {
      sign := -1;
    } else if '0' <= c <= '9' {
      val := val * 10 + (c as int - '0' as int);
    } else {
      if count < n * n * 2 {
        Store(A, B, a0, b0, committed, n, current, count, sign * val);
        committed := committed + [sign * val];
        count := count + 1;
        if count == n * n {
          current := 1;
        }
      }
      val := 0;
      sign := 1;
    }
  }

  /** `matrices[current][count % (n*n)] = sign*val;` */
  method Store(A: array2<int>, B: array2<int>, ghost a0: seq<seq<int>>, ghost b0: seq<seq<int>>, ghost committed: seq<int>, n: nat, current: int, count: int, v: int)
    requires A != B && A.Length0 == MAXN && A.Length1 == MAXN && B.Length0 == MAXN && B.Length1 == MAXN
    requires |a0| == MAXN && |b0| == MAXN && forall x :: 0 <= x < MAXN ==> |a0[x]| == MAXN && |b0[x]| == MAXN
    requires n <= MAXN && count == |committed| < 2 * n * n && current == (if 0 < n * n <= count then 1 else 0)
    requires Loaded(A, B, a0, b0, committed, n)
    modifies A, B
    ensures Loaded(A, B, a0, b0, committed + [v], n)
  {
    var q := count % (n * n);
    Square(n);
    Wraps(count, n * n);
    var cell := Cell(q);
    if current == 0 {
      A[cell.0, cell.1] := v;
    } else {
      B[cell.0, cell.1] := v;
    }
    forall x, y | 0 <= x < MAXN && 0 <= y < MAXN
      ensures A[x, y] == Want(committed + [v], 0, n, Slot(x, y), a0[x][y])
      ensures B[x, y] == Want(committed + [v], n * n, n, Slot(x, y), b0[x][y])
    {
      assert Slot(x, y) == q <==> (x, y) == cell;
      assert A[x, y] == if current == 0 && (x, y) == cell then v else old(A[x, y]);
      assert B[x, y] == if current == 1 && (x, y) == cell then v else old(B[x, y]);
    }
  }

  /** `n <= MAXN` keeps the `n x n` block inside the flat view. */
  lemma Square(n: nat)
    requires n <= MAXN
    ensures n * n <= MAXN * MAXN
  {
    assert n * n <= n * MAXN by { MulLeft(n, n, MAXN); }
    assert n * MAXN <= MAXN * MAXN by { MulLeft(MAXN, n, MAXN); }
  }

  lemma MulLeft(k: nat, a: nat, b: nat)
    requires a <= b
    ensures k * a <= k * b
  {
    assert k * b == k * a + k * (b - a);
  }

  /** The index `count % (n*n)` of the `2*n*n` commits: the first `m` in place, the next `m` shifted back. */
  lemma Wraps(c: nat, m: nat)
    requires 0 < m && c < 2 * m
    ensures c % m == (if c < m then c else c - m)
  {
    if m <= c {
      assert c == m + (c - m);
    }
  }

  // ---------------------------------------------------------------------
  // The writer

  /** `k` copies of `s`. */
  function Repeat(s: string, k: nat): (r: string)
    ensures |r| == k * |s|
  {
    if k == 0 then [] else Repeat(s, k - 1) + s
  }

  /** One line of the file: `n` tokens `"0 "`, then a newline. */
  function Line(n: nat): string {
    Repeat("0 ", n) + "\n"
  }

  /** What `create_and_write_matrices` writes: `2*n` lines, A's rows and then B's. */
  function MatrixText(n: nat): string {
    Repeat(Line(n), 2 * n)
  }

  /** `create_and_write_matrices`, after `open`: the bytes it writes, in order. */
  method CreateAndWriteMatrices(n: nat) returns (file: string)
    ensures file == MatrixText(n)
  {
    file := [];
    ghost var lines := 0;
    var m := 0;
    while m < 2
      invariant 0 <= m <= 2 && lines == m * n && file == Repeat(Line(n), lines)
    {
      var i := 0;
      while i < n
        invariant 0 <= i <= n && lines == m * n + i && file == Repeat(Line(n), lines)
      {
        var j := 0;
        while j < n
          invariant 0 <= j <= n && file == Repeat(Line(n), lines) + Repeat("0 ", j)
        {
          file := file + "0 ";
          j := j + 1;
        }
        file := file + "\n";
        lines := lines + 1;
        i := i + 1;
      }
      m := m + 1;
    }
  }

  /** Number of bytes that commit a value: everything but digits and `-`. */
  function Separators(text: string): nat {
    if text == [] then 0
    else (if IsDigit(text[|text| - 1]) || text[|text| - 1] == '-' then 0 else 1) + Separators(text[..|text| - 1])
  }

  lemma {:induction false} SeparatorsAppend(x: string, y: string)
    ensures Separators(x + y) == Separators(x) + Separators(y)
    decreases |y|
  {
    if y != [] {
      assert (x + y)[..|x + y| - 1] == x + y[..|y| - 1];
      assert (x + y)[|x + y| - 1] == y[|y| - 1];
      SeparatorsAppend(x, y[..|y| - 1]);
    } else {
      assert x + y == x;
    }
  }

  lemma {:induction false} SeparatorsRepeat(s: string, k: nat)
    ensures Separators(Repeat(s, k)) == k * Separators(s)
  {
    if k > 0 {
      SeparatorsRepeat(s, k - 1);
      SeparatorsAppend(Repeat(s, k - 1), s);
    }
  }

  /** Each line commits `n + 1` values: one per token and one for the newline after the last blank. */
  lemma LineSeparators(n: nat)
    ensures Separators(Line(n)) == n + 1
    ensures forall i :: 0 <= i < |Line(n)| ==> Line(n)[i] in "0 \n"
  {
    assert Separators("0 ") == 1 by { assert "0 "[..1] == "0"; }
    SeparatorsRepeat("0 ", n);
    SeparatorsAppend(Repeat("0 ", n), "\n");
    RepeatChars("0 ", n, "0 \n");
  }

  lemma {:induction false} RepeatChars(s: string, k: nat, cs: string)
    requires forall i :: 0 <= i < |s| ==> s[i] in cs
    ensures forall i :: 0 <= i < |Repeat(s, k)| ==> Repeat(s, k)[i] in cs
  {
    if k > 0 {
      RepeatChars(s, k - 1, cs);
      var r := Repeat(s, k);
      forall i | 0 <= i < |r| ensures r[i] in cs {
        if i < |Repeat(s, k - 1)| {
          assert r[i] == Repeat(s, k - 1)[i];
        } else {
          assert r[i] == s[i - |Repeat(s, k - 1)|];
        }
      }
    }
  }

  /** All values committed are zero. */
  predicate AllZero(s: seq<int>) {
    forall i :: 0 <= i < |s| ==> s[i] == 0
  }

  function Min(a: nat, b: nat): nat {
    if a < b then a else b
  }

  /** Scanning `0`s, blanks and newlines from a fresh value commits one 0 per blank or newline, up to `cap`. */
  lemma {:induction false} ScanZeroText(s: Scanner, text: string, cap: nat)
    requires s.val == 0 && s.sign == 1 && AllZero(s.committed) && |s.committed| <= cap
    requires forall i :: 0 <= i < |text| ==> text[i] in "0 \n"
    ensures Scan(s, text, cap).val == 0 && Scan(s, text, cap).sign == 1
    ensures AllZero(Scan(s, text, cap).committed)
    ensures |Scan(s, text, cap).committed| == Min(cap, |s.committed| + Separators(text))
    decreases |text|
  {
    if text != [] {
      var last := text[|text| - 1];
      var init := text[..|text| - 1];
      assert text == init + [last];
      ScanZeroText(s, init, cap);
      ScanAppend(s, init, [last], cap);
      assert last in "0 \n";
    }
  }

  /**
   * Scanning what the writer writes commits exactly `2*n*n` zeros: every slot
   * of A and B that `read_matrix` fills receives 0.
   */
  lemma ScanOfMatrixText(n: nat)
    ensures |Scan(Start, MatrixText(n), 2 * n * n).committed| == 2 * n * n
    ensures AllZero(Scan(Start, MatrixText(n), 2 * n * n).committed)
  {
    MatrixTextSeparators(n);
    LineSeparators(n);
    RepeatChars(Line(n), 2 * n, "0 \n");
    ScanZeroText(Start, MatrixText(n), 2 * n * n);
  }

  /** The written file has one blank or newline per value, and one more per line. */
  lemma MatrixTextSeparators(n: nat)
    ensures Separators(MatrixText(n)) == 2 * n * n + 2 * n
  {
    LineSeparators(n);
    SeparatorsRepeat(Line(n), 2 * n);
    assert (2 * n) * (n + 1) == 2 * n * n + 2 * n;
  }

  /**
   * The I/O mode of `main` with `n = ION = MAXN`: however `read` cuts the
   * written file into chunks, every entry `A[i][j]` and `B[i][j]` with
   * `i, j < n` is 0 (the flat slots coincide with the cells only because
   * `ION == MAXN`).
   */
  method IoModeLoad(chunks: seq<string>, A: array2<int>, B: array2<int>)
    requires A != B && A.Length0 == MAXN && A.Length1 == MAXN && B.Length0 == MAXN && B.Length1 == MAXN
    requires Flatten(chunks) == MatrixText(ION)
    modifies A, B
    ensures forall i, j :: 0 <= i < ION && 0 <= j < ION ==> A[i, j] == 0 && B[i, j] == 0
  {
    ReadMatrix(chunks, A, B, ION);
    ScanOfMatrixText(ION);
    ghost var committed := Scan(Start, Flatten(chunks), 2 * ION * ION).committed;
    forall i, j | 0 <= i < ION && 0 <= j < ION
      ensures A[i, j] == 0 && B[i, j] == 0
    {
      var q := Slot(i, j);
      assert q < ION * ION;
      assert A[i, j] == committed[q] && B[i, j] == committed[ION * ION + q];
    }
  }

  // ---------------------------------------------------------------------
  // `main`

  /** What `main` runs with. */
  datatype Setup = Setup(order: int, mode: Mode)

  /**
   * The argument handling of `main`: `argv[1]`, if present, picks the loop
   * order (default ijk) and `argv[2]`, if present, the mode (default cpu);
   * an unknown name makes `main` return 1 (None). Later arguments are ignored.
   */
  function ParseArgs(argv: seq<string>): (r: Option<Setup>)
    ensures r.Some? ==> 0 <= r.value.order <= 2
  {
    var order := if |argv| >= 2 then ParseOrder(argv[1]) else Some(0);
    var mode := if |argv| >= 3 then ParseMode(argv[2]) else Some(Cpu);
    if order.None? || mode.None? then None else Some(Setup(order.value, mode.value))
  }

  /** The arguments fail exactly when a given order or mode is unknown; missing ones take the defaults. */
  lemma ParseArgsSpec(argv: seq<string>)
    ensures ParseArgs(argv).None? <==>
      (|argv| >= 2 && argv[1] !in {"ijk", "ikj", "jik"}) || (|argv| >= 3 && argv[2] !in {"cpu", "io"})
    ensures |argv| <= 1 ==> ParseArgs(argv) == Some(Setup(0, Cpu))
    ensures ParseArgs(argv).Some? && |argv| >= 2 ==> OrderName(ParseArgs(argv).value.order) == argv[1]
  {
  }

  /**
   * The CPU mode of `main` with `n = CPUN`: random entries below 10, C
   * zeroed, then `multiply`; every entry of C is the row-by-column product.
   */
  method CpuMode(A: array2<int>, B: array2<int>, C: array2<int>, order: int, rnd: seq<nat>) returns (status: int)
    requires MatrixKernel.Fits(A, B, C, CPUN) && A != B && |rnd| == 2 * CPUN * CPUN && 0 <= order <= 2
    modifies A, B, C
    ensures status == 0
    ensures forall i, j :: 0 <= i < CPUN && 0 <= j < CPUN ==>
      A[i, j] == rnd[MatrixKernel.Draw(CPUN, i, j, 0)] % 10 && B[i, j] == rnd[MatrixKernel.Draw(CPUN, i, j, 1)] % 10
    ensures forall i, j :: 0 <= i < CPUN && 0 <= j < CPUN ==> 0 <= A[i, j] < 10 && 0 <= B[i, j] < 10
    ensures forall i, j :: 0 <= i < CPUN && 0 <= j < CPUN ==> C[i, j] == MatrixKernel.Dot(A, B, i, j, CPUN)
    ensures forall x, y :: 0 <= x < A.Length0 && 0 <= y < A.Length1 && !(x < CPUN && y < CPUN) ==> A[x, y] == old(A[x, y])
    ensures forall x, y :: 0 <= x < B.Length0 && 0 <= y < B.Length1 && !(x < CPUN && y < CPUN) ==> B[x, y] == old(B[x, y])
    ensures forall x, y :: 0 <= x < C.Length0 && 0 <= y < C.Length1 && !(x < CPUN && y < CPUN) ==> C[x, y] == old(C[x, y])
  {
    MatrixKernel.FillRandom(A, B, C, CPUN, 10, rnd);
    status := Multiply(A, B, C, order, CPUN);
  }

  /**
   * The I/O mode of `main` with `n = ION`: A and B are read back from the
   * all-zero file, then `multiply` adds their product into C, so C ends as it
   * was.
   */
  method IoMode(chunks: seq<string>, A: array2<int>, B: array2<int>, C: array2<int>, order: int) returns (status: int)
    requires MatrixKernel.Fits(A, B, C, ION) && A != B && A.Length0 == MAXN && A.Length1 == MAXN && B.Length0 == MAXN && B.Length1 == MAXN
    requires Flatten(chunks) == MatrixText(ION) && 0 <= order <= 2
    modifies A, B, C
    ensures status == 0
    ensures forall i, j :: 0 <= i < ION && 0 <= j < ION ==> A[i, j] == 0 && B[i, j] == 0
    ensures forall x, y :: 0 <= x < C.Length0 && 0 <= y < C.Length1 ==> C[x, y] == old(C[x, y])
  {
    IoModeLoad(chunks, A, B);
    forall i, j | 0 <= i < ION && 0 <= j < ION
      ensures MatrixKernel.Dot(A, B, i, j, ION) == 0
    {
      MatrixKernel.DotZero(A, B, i, j, ION);
    }
    status := Multiply(A, B, C, order, ION);
  }
}
