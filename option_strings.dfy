/**
 * The string helpers of `homeworks/homework-1/problem-1/code/src/options.c`.
 * A C string is a `char` buffer (`array<char>`) whose text runs up to the
 * first NUL; each in-place helper is proved against a function on that text.
 * `tolower` and `isspace` are those of the C locale.
 */
module OptionStrings {
  import opened Wrappers

  const NUL: char := '\0'

  /** `strlen`: the index of the first NUL, or the whole length if there is none. */
  function CLen(s: seq<char>): (r: nat)
    ensures r <= |s| && (r < |s| ==> s[r] == NUL)
    ensures forall k :: 0 <= k < r ==> s[k] != NUL
  {
    if s == [] || s[0] == NUL then 0 else 1 + CLen(s[1..])
  }

  /** The buffer holds a string: there is a NUL inside it. */
  predicate Terminated(s: seq<char>) {
    CLen(s) < |s|
  }

  /** The text of a C string. */
  function CStr(s: seq<char>): (r: string)
    ensures forall k :: 0 <= k < |r| ==> r[k] != NUL
  {
    s[..CLen(s)]
  }

  lemma {:induction false} CLenOf(t: string, rest: seq<char>)
    requires forall k :: 0 <= k < |t| ==> t[k] != NUL
    ensures CLen(t + [NUL] + rest) == |t|
  {
    if t != [] {
      assert (t + [NUL] + rest)[1..] == t[1..] + [NUL] + rest;
      CLenOf(t[1..], rest);
    }
  }

  predicate IsSpace(c: char) {
    c == ' ' || c == '\t' || c == '\n' || c == '\r' || c == '\U{B}' || c == '\U{C}'
  }

  function ToLower(c: char): char {
    if 'A' <= c <= 'Z' then (c as int + 32) as char else c
  }

  function Lower(s: string): (r: string)
    ensures |r| == |s| && forall k :: 0 <= k < |s| ==> r[k] == ToLower(s[k])
  {
    seq(|s|, k requires 0 <= k < |s| => ToLower(s[k]))
  }

  function Min(a: nat, b: nat): nat {
    if a < b then a else b
  }

  /** What `lc_copy` leaves in a buffer of `size` bytes: the lowercase of the first `size - 1` characters at most. */
  function LowerCopy(s: string, size: nat): (r: string)
    requires 1 <= size
    ensures |r| == Min(|s|, size - 1) && |r| < size
  {
    Lower(s[..Min(|s|, size - 1)])
  }

  /** `strlen`. */
  method StrLen(s: array<char>) returns (n: nat)
    requires Terminated(s[..])
    ensures n == CLen(s[..])
  {
    n := 0;
    while s[n] != NUL
      invariant n <= CLen(s[..])
      decreases CLen(s[..]) - n
    {
      n := n + 1;
    }
  }

  /**
   * `lc_copy(dst, dst.Length, src)`: copies and lowercases the first
   * `min(strlen(src), dst.Length - 1)` characters, then writes a NUL; the
   * rest of `dst` is untouched.
   */
  method LcCopy(dst: array<char>, src: array<char>)
    requires dst != src && 1 <= dst.Length && Terminated(src[..])
    modifies dst
    ensures Terminated(dst[..]) && CStr(dst[..]) == LowerCopy(CStr(src[..]), dst.Length)
    ensures var m := Min(CLen(src[..]), dst.Length - 1);
      dst[..] == LowerCopy(CStr(src[..]), dst.Length) + [NUL] + old(dst[..])[m + 1..]
  {
    var len := StrLen(src);
    if len >= dst.Length {
      len := dst.Length - 1;
    }
    ghost var r := LowerCopy(CStr(src[..]), dst.Length);
    var i := 0;
    while i < len
      invariant 0 <= i <= len
      invariant forall k :: 0 <= k < i ==> dst[k] == r[k]
      invariant forall k :: i <= k < dst.Length ==> dst[k] == old(dst[k])
    {
      dst[i] := ToLower(src[i]);
      i := i + 1;
    }
    dst[len] := NUL;
    assert dst[..] == r + [NUL] + old(dst[..])[len + 1..];
    CLenOf(r, old(dst[..])[len + 1..]);
  }

  // ---------------------------------------------------------------------
  // Trimming

  /** The number of leading white-space characters. */
  function Lead(t: string): (r: nat)
    ensures r <= |t| && (r < |t| ==> !IsSpace(t[r]))
    ensures forall k :: 0 <= k < r ==> IsSpace(t[k])
  {
    if t == [] || !IsSpace(t[0]) then 0 else 1 + Lead(t[1..])
  }

  /** The number of trailing white-space characters. */
  function Trail(t: string): (r: nat)
    ensures r <= |t| && (r < |t| ==> !IsSpace(t[|t| - 1 - r]))
    ensures forall k :: |t| - r <= k < |t| ==> IsSpace(t[k])
  {
    if t == [] || !IsSpace(t[|t| - 1]) then 0 else 1 + Trail(t[..|t| - 1])
  }

  function LTrim(t: string): string {
    t[Lead(t)..]
  }

  function RTrim(t: string): string {
    t[..|t| - Trail(t)]
  }

  function Trim(t: string): string {
    RTrim(LTrim(t))
  }

  /** Trimming keeps one contiguous slice of the text and drops only white space around it. */
  lemma TrimSpec(t: string)
    ensures var r := Trim(t); var p := Lead(t);
      p + |r| <= |t| && r == t[p..p + |r|]
      && (forall k :: 0 <= k < p || p + |r| <= k < |t| ==> IsSpace(t[k]))
  {
    var p := Lead(t);
    var l := LTrim(t);
    var r := Trim(t);
    assert r == l[..|l| - Trail(l)];
    forall k | p + |r| <= k < |t| ensures IsSpace(t[k]) {
      assert t[k] == l[k - p];
    }
  }

  /** Trimming leaves no white space at either end. */
  lemma TrimEnds(t: string)
    ensures var r := Trim(t); r != [] ==> !IsSpace(r[0]) && !IsSpace(r[|r| - 1])
  {
    var l := LTrim(t);
    var r := Trim(t);
    if r != [] {
      assert r[0] == l[0] == t[Lead(t)];
      assert r[|r| - 1] == l[|l| - 1 - Trail(l)];
    }
  }

  /** Trimming twice changes nothing more. */
  lemma TrimIdempotent(t: string)
    ensures Trim(Trim(t)) == Trim(t)
  {
    TrimEnds(t);
    var r := Trim(t);
    assert Lead(r) == 0;
    assert LTrim(r) == r;
    assert Trail(r) == 0;
  }

  /** `ltrim`: the offset of the first character that is not white space. */
  method LtrimIndex(s: array<char>) returns (p: nat)
    requires Terminated(s[..])
    ensures p == Lead(CStr(s[..])) && CStr(s[..])[p..] == LTrim(CStr(s[..]))
  {
    ghost var t := CStr(s[..]);
    p := 0;
    while s[p] != NUL && IsSpace(s[p])
      invariant p <= Lead(t) && Lead(t[p..]) == Lead(t) - p
      decreases CLen(s[..]) - p
    {
      assert t[p..][1..] == t[p + 1..];
      p := p + 1;
    }
  }

  /** `rtrim_inplace`: overwrites trailing white space with NULs, from the end backwards. */
  method RtrimInPlace(s: array<char>)
    requires Terminated(s[..])
    modifies s
    ensures Terminated(s[..]) && CStr(s[..]) == RTrim(old(CStr(s[..])))
    ensures var m := |RTrim(old(CStr(s[..])))|; var len := old(CLen(s[..]));
      forall k :: 0 <= k < s.Length ==> s[k] == if m <= k < len then NUL else old(s[k])
  {
    ghost var t := CStr(s[..]);
    ghost var len := CLen(s[..]);
    var n := StrLen(s);
    while n > 0 && IsSpace(s[n - 1])
      invariant |t| - Trail(t) <= n <= len
      invariant forall k :: 0 <= k < s.Length ==> s[k] == if n <= k < len then NUL else old(s[k])
    {
      n := n - 1;
      s[n] := NUL;
    }
    assert n == |t| - Trail(t);
    assert s[..][..n] == t[..n];
    CStrOf(s[..], t[..n], n);
  }

  /** `memmove(s, s + from, count)`: the copy runs forwards, which is safe because the target precedes the source. */
  method MoveDown(s: array<char>, from: nat, count: nat)
    requires from + count <= s.Length
    modifies s
    ensures forall k :: 0 <= k < s.Length ==> s[k] == if k < count then old(s[from + k]) else old(s[k])
  {
    var i := 0;
    while i < count
      invariant 0 <= i <= count
      invariant forall k :: 0 <= k < s.Length ==> s[k] == if k < i then old(s[from + k]) else old(s[k])
    {
      s[i] := s[from + i];
      i := i + 1;
    }
  }

  /**
   * `trim_inplace`: moves the text after its leading white space (and the
   * NUL) to the front, then trims the end. Nothing from the old NUL on is
   * written.
   */
  method TrimInPlace(s: array<char>)
    requires Terminated(s[..])
    modifies s
    ensures Terminated(s[..]) && CStr(s[..]) == Trim(old(CStr(s[..])))
    ensures forall q :: old(CLen(s[..])) <= q < s.Length ==> s[q] == old(s[q])
  {
    ghost var t := CStr(s[..]);
    var p := LtrimIndex(s);
    if p != 0 {
      var len := StrLen(s);
      MoveDown(s, p, len - p + 1);
      assert s[..][..len - p] == t[p..];
      CStrOf(s[..], t[p..], len - p);
    }
    RtrimInPlace(s);
  }

  // ---------------------------------------------------------------------
  // Comments and quotes

  /**
   * The text before the first `#` that is outside quotes, scanning from a
   * state where a single or a double quote is open: a quote of one kind
   * toggles its state only while no quote of the other kind is open.
   */
  function StripFrom(t: string, single: bool, double: bool): (r: string)
    ensures |r| <= |t| && r == t[..|r|]
    ensures |r| < |t| ==> t[|r|] == '#'
  {
    if t == [] then []
    else if t[0] == '\'' && !double then [t[0]] + StripFrom(t[1..], !single, double)
    else if t[0] == '"' && !single then [t[0]] + StripFrom(t[1..], single, !double)
    else if t[0] == '#' && !single && !double then []
    else [t[0]] + StripFrom(t[1..], single, double)
  }

  /** One step of the scan, at position `i`. */
  lemma StripStep(t: string, i: nat, single: bool, double: bool)
    requires i < |t|
    ensures StripFrom(t[i..], single, double) ==
      if t[i] == '\'' && !double then [t[i]] + StripFrom(t[i + 1..], !single, double)
      else if t[i] == '"' && !single then [t[i]] + StripFrom(t[i + 1..], single, !double)
      else if t[i] == '#' && !single && !double then []
      else [t[i]] + StripFrom(t[i + 1..], single, double)
  {
    assert t[i..][0] == t[i] && t[i..][1..] == t[i + 1..];
  }

  /** What `strip_inline_comment` keeps. */
  function Strip(t: string): string {
    StripFrom(t, false, false)
  }

  /** A text with no `#` is kept whole. */
  lemma {:induction false} StripNoHash(t: string, single: bool, double: bool)
    requires forall k :: 0 <= k < |t| ==> t[k] != '#'
    ensures StripFrom(t, single, double) == t
  {
    if t != [] {
      StripNoHash(t[1..], if t[0] == '\'' && !double then !single else single,
        if t[0] == '"' && !single && !(t[0] == '\'' && !double) then !double else double);
    }
  }

  /**
   * A quoted span is kept whole, `#` and quotes of the other kind inside it
   * included, and scanning goes on after its closing quote.
   */
  lemma QuotedKept(q: char, x: string, y: string)
    requires q == '\'' || q == '"'
    requires forall k :: 0 <= k < |x| ==> x[k] != q
    ensures Strip([q] + x + [q] + y) == [q] + x + [q] + Strip(y)
  {
    assert ([q] + x + [q] + y)[1..] == x + [q] + y;
    InsideQuotes(q, x, y);
  }

  lemma {:induction false} InsideQuotes(q: char, x: string, y: string)
    requires q == '\'' || q == '"'
    requires forall k :: 0 <= k < |x| ==> x[k] != q
    ensures StripFrom(x + [q] + y, q == '\'', q == '"') == x + [q] + Strip(y)
  {
    if x == [] {
      assert (x + [q] + y)[0] == q && (x + [q] + y)[1..] == y;
    } else {
      assert (x + [q] + y)[0] == x[0] && (x + [q] + y)[1..] == x[1..] + [q] + y;
      InsideQuotes(q, x[1..], y);
    }
  }

  /**
   * `strip_inline_comment`: scans with two quote flags and writes a NUL over
   * the first `#` outside quotes; nothing else changes.
   */
  method StripInlineComment(s: array<char>)
    requires Terminated(s[..])
    modifies s
    ensures Terminated(s[..]) && CStr(s[..]) == Strip(old(CStr(s[..])))
    ensures s[..] == if |Strip(old(CStr(s[..])))| < old(CLen(s[..])) then old(s[..])[|Strip(old(CStr(s[..])))| := NUL] else old(s[..])
  {
    ghost var t := CStr(s[..]);
    var single, double := false, false;
    var i := 0;
    while s[i] != NUL
      invariant i <= |t| == CLen(s[..]) && s[..] == old(s[..])
      invariant Strip(t) == t[..i] + StripFrom(t[i..], single, double)
      decreases |t| - i
    {
      StripStep(t, i, single, double);
      assert s[i] == t[i];
      if s[i] == '\'' && !double {
        single := !single;
      } else if s[i] == '"' && !single {
        double := !double;
      } else if s[i] == '#' && !single && !double {
        s[i] := NUL;
        assert s[..][..i] == t[..i];
        CStrOf(s[..], t[..i], i);
        return;
      }
      Snoc(t, i, StripFrom(t[i + 1..], single, double));
      i := i + 1;
    }
    assert t[i..] == [] && t[..i] == t;
  }

  lemma Snoc(t: string, i: nat, rest: string)
    requires i < |t|
    ensures t[..i] + ([t[i]] + rest) == t[..i + 1] + rest
  {
    assert t[..i + 1] == t[..i] + [t[i]];
  }

  predicate IsQuote(c: char) {
    c == '"' || c == '\''
  }

  /** What `unquote_inplace` leaves: one matching pair of outer quotes removed, if there is one. */
  function Unquote(t: string): string {
    if |t| >= 2 && ((t[0] == '"' && t[|t| - 1] == '"') || (t[0] == '\'' && t[|t| - 1] == '\''))
    then t[1..|t| - 1] else t
  }

  /**
   * Removing quotes is undone by adding them back; mismatched or missing
   * quotes, and texts shorter than two characters, are kept as they are.
   */
  lemma UnquoteSpec(t: string, q: char, x: string)
    ensures IsQuote(q) ==> Unquote([q] + x + [q]) == x
    ensures (|t| < 2 || t[0] != t[|t| - 1] || !IsQuote(t[0])) ==> Unquote(t) == t
    ensures Unquote(t) != t ==> [t[0]] + Unquote(t) + [t[0]] == t && IsQuote(t[0])
  {
    if IsQuote(q) {
      assert ([q] + x + [q])[1..|x| + 1] == x;
    }
  }

  /** A buffer holding `t` and then a NUL holds the C string `t`. */
  lemma CStrOf(u: seq<char>, t: string, m: nat)
    requires m < |u| && u[..m] == t && u[m] == NUL && forall k :: 0 <= k < |t| ==> t[k] != NUL
    ensures Terminated(u) && CStr(u) == t
  {
    CLenOf(t, u[m + 1..]);
    assert u == t + [NUL] + u[m + 1..];
  }

  /** `unquote_inplace`: shifts the inner text one place left and ends it with a NUL. */
  method UnquoteInPlace(s: array<char>)
    requires Terminated(s[..])
    modifies s
    ensures Terminated(s[..]) && CStr(s[..]) == Unquote(old(CStr(s[..])))
  {
    ghost var t := CStr(s[..]);
    var n := StrLen(s);
    if n >= 2 {
      if (s[0] == '"' && s[n - 1] == '"') || (s[0] == '\'' && s[n - 1] == '\'') {
        MoveDown(s, 1, n - 2);
        assert forall k :: 0 <= k < n - 2 ==> s[k] == t[k + 1];
        s[n - 2] := NUL;
        assert s[..][..n - 2] == t[1..n - 1];
        CStrOf(s[..], t[1..n - 1], n - 2);
      }
    }
  }

  /**
   * `str_ieq`: walks both strings while both have characters, failing on
   * the first pair that differs under `tolower`; then both must be at their end.
   */
  method StrIeq(a: string, b: string) returns (r: bool)
    ensures r <==> |a| == |b| && Lower(a) == Lower(b)
  {
    var i := 0;
    while i < |a| && i < |b|
      invariant 0 <= i <= |a| && i <= |b| && Lower(a)[..i] == Lower(b)[..i]
    {
      if ToLower(a[i]) != ToLower(b[i]) {
        assert Lower(a)[i] != Lower(b)[i];
        return false;
      }
      assert Lower(a)[..i + 1] == Lower(a)[..i] + [ToLower(a[i])];
      assert Lower(b)[..i + 1] == Lower(b)[..i] + [ToLower(b[i])];
      i := i + 1;
    }
    r := i == |a| && i == |b|;
    if r {
      assert Lower(a) == Lower(a)[..i] && Lower(b) == Lower(b)[..i];
    }
  }

  /** The words `parse_bool` knows, in lower case. */
  function BoolOf(s: string): Option<bool> {
    var l := Lower(s);
    if l in {"true", "yes", "on", "1"} then Some(true)
    else if l in {"false", "no", "off", "0"} then Some(false)
    else None
  }

  /** `parse_bool`: status 0 and the value for a known word in any case, status 1 and `out` untouched otherwise. */
  method ParseBool(s: string, out0: bool) returns (rc: int, out: bool)
    ensures rc == (if BoolOf(s).Some? then 0 else 1)
    ensures out == if BoolOf(s).Some? then BoolOf(s).value else out0
  {
    var t1 := StrIeq(s, "true");
    var t2 := StrIeq(s, "yes");
    var t3 := StrIeq(s, "on");
    var t4 := StrIeq(s, "1");
    assert Lower("true") == "true" && Lower("yes") == "yes" && Lower("on") == "on" && Lower("1") == "1";
    if t1 || t2 || t3 || t4 {
      return 0, true;
    }
    var f1 := StrIeq(s, "false");
    var f2 := StrIeq(s, "no");
    var f3 := StrIeq(s, "off");
    var f4 := StrIeq(s, "0");
    assert Lower("false") == "false" && Lower("no") == "no" && Lower("off") == "off" && Lower("0") == "0";
    if f1 || f2 || f3 || f4 {
      return 0, false;
    }
    return 1, out0;
  }
}
