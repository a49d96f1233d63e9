/**
 * Character classes and string primitives of JavaScript that the extraction functions rely on:
 * the regular-expression classes `\s`, `\w` and `.`, `String.prototype.trim`, `endsWith` and
 * `split("\n")[0]`.
 * Characters are Dafny `char`s, so there is no UTF-16 surrogate handling; every character the
 * classes below name is a single `char`.
 */
module Text {

  datatype Option<T> = None | Some(value: T)

  /** The regular-expression class `\s`: ECMAScript WhiteSpace and LineTerminator code points.
      `String.prototype.trim` removes exactly the same set. */
  predicate IsSpace(c: char)
  {
    c == ' ' || ('\t' <= c <= '\r') || c == '\U{00A0}' || c == '\U{1680}'
    || ('\U{2000}' <= c <= '\U{200A}') || c == '\U{2028}' || c == '\U{2029}'
    || c == '\U{202F}' || c == '\U{205F}' || c == '\U{3000}' || c == '\U{FEFF}'
  }

  /** The regular-expression class `\S`. */
  predicate IsNonSpace(c: char) { !IsSpace(c) }

  /** The characters the regular-expression `.` does not match (no `s` flag). */
  predicate IsLineTerminator(c: char)
  {
    c == '\n' || c == '\r' || c == '\U{2028}' || c == '\U{2029}'
  }

  /** The regular-expression class `\w`. */
  predicate IsWordChar(c: char)
  {
    ('a' <= c <= 'z') || ('A' <= c <= 'Z') || ('0' <= c <= '9') || c == '_'
  }

  /** The regular-expression class `[a-z]`. */
  predicate IsLowerAlpha(c: char) { 'a' <= c <= 'z' }

  /** Every character of `s` satisfies `p`. */
  predicate All(s: string, p: char -> bool)
  {
    forall k :: 0 <= k < |s| ==> p(s[k])
  }

  /** Every character of `s[lo..hi]` satisfies `p`. */
  predicate Run(s: string, lo: nat, hi: nat, p: char -> bool)
  {
    lo <= hi <= |s| && forall k :: lo <= k < hi ==> p(s[k])
  }

  /** A slice is the string its characters spell. */
  lemma SliceIs(s: string, lo: nat, t: string)
    requires lo + |t| <= |s|
    requires forall k :: 0 <= k < |t| ==> s[lo + k] == t[k]
    ensures s[lo..lo + |t|] == t
  {
  }

  /** `String.prototype.endsWith`. */
  predicate EndsWith(s: string, suffix: string)
  {
    |suffix| <= |s| && s[|s| - |suffix|..] == suffix
  }

  /** Length of the longest run of characters satisfying `p` that starts at index `i`:
      what a greedy `[class]*` consumes there. */
  function Span(s: string, i: nat, p: char -> bool): (n: nat)
    requires i <= |s|
    ensures i + n <= |s|
    decreases |s| - i
  {
    if i < |s| && p(s[i]) then 1 + Span(s, i + 1, p) else 0
  }

  /** Every character of the run satisfies `p`. */
  lemma {:induction false} SpanRun(s: string, i: nat, p: char -> bool)
    requires i <= |s|
    ensures Run(s, i, i + Span(s, i, p), p)
    decreases |s| - i
  {
    if i < |s| && p(s[i]) {
      SpanRun(s, i + 1, p);
    }
  }

  /** The run is the longest one: it stops at the end of `s` or before a character that fails `p`. */
  lemma {:induction false} SpanStops(s: string, i: nat, p: char -> bool)
    requires i <= |s|
    ensures i + Span(s, i, p) == |s| || !p(s[i + Span(s, i, p)])
    decreases |s| - i
  {
    if i < |s| && p(s[i]) {
      SpanStops(s, i + 1, p);
    }
  }

  /** A run is determined by where it stops. */
  lemma SpanIs(s: string, i: nat, p: char -> bool, n: nat)
    requires i + n <= |s|
    requires forall k :: i <= k < i + n ==> p(s[k])
    requires i + n == |s| || !p(s[i + n])
    ensures Span(s, i, p) == n
    decreases n
  {
    if n > 0 {
      SpanIs(s, i + 1, p, n - 1);
    }
  }

  /** Length of the longest run of characters satisfying `p` that ends just before index `j`. */
  function SpanBack(s: string, j: nat, p: char -> bool): (n: nat)
    requires j <= |s|
    ensures n <= j
    ensures n == j || !p(s[j - n - 1])
  {
    if j > 0 && p(s[j - 1]) then 1 + SpanBack(s, j - 1, p) else 0
  }

  /** Every character of the trailing run satisfies `p`. */
  lemma {:induction false} SpanBackRun(s: string, j: nat, p: char -> bool)
    requires j <= |s|
    ensures Run(s, j - SpanBack(s, j, p), j, p)
  {
    if j > 0 && p(s[j - 1]) {
      SpanBackRun(s, j - 1, p);
    }
  }

  /** A trailing run is determined by where it starts. */
  lemma SpanBackIs(s: string, j: nat, p: char -> bool, n: nat)
    requires n <= j <= |s|
    requires forall k :: j - n <= k < j ==> p(s[k])
    requires n == j || !p(s[j - n - 1])
    ensures SpanBack(s, j, p) == n
    decreases n
  {
    if n > 0 {
      SpanBackIs(s, j - 1, p, n - 1);
    }
  }

  /** Removes the leading run of characters satisfying `p`. */
  function TrimStart(s: string, p: char -> bool): (r: string)
    ensures |r| <= |s|
    ensures r == [] || !p(r[0])
  {
    SpanStops(s, 0, p);
    s[Span(s, 0, p)..]
  }

  /** Removes the trailing run of characters satisfying `p`. */
  function TrimEnd(s: string, p: char -> bool): (r: string)
    ensures |r| <= |s|
    ensures r == [] || !p(r[|r| - 1])
  {
    s[..|s| - SpanBack(s, |s|, p)]
  }

  /** `TrimEnd` keeps a prefix, and every character it removes satisfies `p`. */
  lemma TrimEndRun(s: string, p: char -> bool)
    ensures TrimEnd(s, p) == s[..|TrimEnd(s, p)|]
    ensures forall k :: |TrimEnd(s, p)| <= k < |s| ==> p(s[k])
  {
    SpanBackRun(s, |s|, p);
  }

  /** A trailing run is determined by where it starts. */
  lemma TrimEndIs(s: string, p: char -> bool, n: nat)
    requires n <= |s|
    requires forall k :: n <= k < |s| ==> p(s[k])
    requires n == 0 || !p(s[n - 1])
    ensures TrimEnd(s, p) == s[..n]
  {
    SpanBackIs(s, |s|, p, |s| - n);
  }

  /** Removes both the leading and the trailing run of characters satisfying `p`. */
  function Strip(s: string, p: char -> bool): (r: string)
    ensures |r| <= |s|
    ensures r == [] || (!p(r[0]) && !p(r[|r| - 1]))
  {
    TrimEnd(TrimStart(s, p), p)
  }

  /** `s` is the stripped part padded on both sides by runs of `p` characters. */
  lemma StripBounds(s: string, p: char -> bool) returns (i: nat, j: nat)
    ensures i <= j <= |s|
    ensures Strip(s, p) == s[i..j]
    ensures All(s[..i], p) && All(s[j..], p)
  {
    i := Span(s, 0, p);
    SpanRun(s, 0, p);
    var t := s[i..];
    var r := TrimEnd(t, p);
    TrimEndRun(t, p);
    j := i + |r|;
    assert s[i..j] == r;
    forall k | 0 <= k < |s| - j ensures p(s[j..][k]) {
      assert s[j..][k] == t[|r| + k];
    }
  }

  /** Stripping a string whose ends are not `p` characters, padded by `p` characters, gives it back. */
  lemma StripPadded(a: string, m: string, b: string, p: char -> bool)
    requires All(a, p) && All(b, p)
    requires m == [] || (!p(m[0]) && !p(m[|m| - 1]))
    ensures Strip(a + m + b, p) == m
  {
    var s := a + m + b;
    if m == [] {
      forall k | 0 <= k < |s| ensures p(s[k]) {
        if k < |a| { assert s[k] == a[k]; } else { assert s[k] == b[k - |a|]; }
      }
      SpanIs(s, 0, p, |s|);
    } else {
      assert forall k :: 0 <= k < |a| ==> s[k] == a[k];
      assert s[|a|] == m[0];
      SpanIs(s, 0, p, |a|);
      var t := s[|a|..];
      assert t == m + b;
      assert forall k :: |m| <= k < |t| ==> t[k] == b[k - |m|];
      assert t[|m| - 1] == m[|m| - 1];
      TrimEndIs(t, p, |m|);
      assert t[..|m|] == m;
    }
  }

  /** `All` distributes over concatenation. */
  lemma AllConcat(x: string, y: string, p: char -> bool)
    requires All(x, p) && All(y, p)
    ensures All(x + y, p)
  {
    forall k | 0 <= k < |x + y| ensures p((x + y)[k]) {
      if k >= |x| { assert (x + y)[k] == y[k - |x|]; }
    }
  }

  /** Every slice keeps what all characters share. */
  lemma AllSlice(s: string, i: nat, j: nat, p: char -> bool)
    requires i <= j <= |s| && All(s, p)
    ensures All(s[i..j], p)
  {
    forall k | 0 <= k < j - i ensures p(s[i..j][k]) {
      assert s[i..j][k] == s[i + k];
    }
  }

  /** Padding with more `p` characters on either side does not change what stripping gives. */
  lemma StripPad(a: string, s: string, b: string, p: char -> bool)
    requires All(a, p) && All(b, p)
    ensures Strip(a + s + b, p) == Strip(s, p)
  {
    var i, j := StripBounds(s, p);
    var x, m, y := s[..i], s[i..j], s[j..];
    AllConcat(a, x, p);
    AllConcat(y, b, p);
    Regroup(a, s, b, x, m, y);
    StripPadded(a + x, m, y + b, p);
  }

  lemma Regroup(a: string, s: string, b: string, x: string, m: string, y: string)
    requires s == x + m + y
    ensures a + s + b == (a + x) + m + (y + b)
  {
  }

  /** Stripping twice is stripping once. */
  lemma StripIdempotent(s: string, p: char -> bool)
    ensures Strip(Strip(s, p), p) == Strip(s, p)
  {
    var r := Strip(s, p);
    StripPadded([], r, [], p);
    assert [] + r + [] == r;
  }

  /** `String.prototype.trim`. */
  function Trim(s: string): (r: string)
    ensures r == [] || (IsNonSpace(r[0]) && IsNonSpace(r[|r| - 1]))
  {
    Strip(s, IsSpace)
  }

  /** Where `s.slice(lo, hi).trim()` starts: past the leading `\s` characters of `s[lo..hi]`. */
  function TrimStartIndex(s: string, lo: nat, hi: nat): (r: nat)
    requires lo <= hi <= |s|
    ensures lo <= r <= hi
    decreases hi - lo
  {
    if lo < hi && IsSpace(s[lo]) then TrimStartIndex(s, lo + 1, hi) else lo
  }

  /** Where `s.slice(lo, hi).trim()` ends: before the trailing `\s` characters of `s[lo..hi]`. */
  function TrimEndIndex(s: string, lo: nat, hi: nat): (r: nat)
    requires lo <= hi <= |s|
    ensures lo <= r <= hi
    decreases hi - lo
  {
    if lo < hi && IsSpace(s[hi - 1]) then TrimEndIndex(s, lo, hi - 1) else hi
  }

  /** `s.slice(lo, hi).trim()`, computed on the indices of `s`. */
  function TrimSlice(s: string, lo: nat, hi: nat): string
    requires lo <= hi <= |s|
  {
    var i := TrimStartIndex(s, lo, hi);
    s[i..TrimEndIndex(s, i, hi)]
  }

  lemma {:induction false} TrimStartIndexRun(s: string, lo: nat, hi: nat)
    requires lo <= hi <= |s|
    ensures var i := TrimStartIndex(s, lo, hi); Run(s, lo, i, IsSpace) && (i == hi || !IsSpace(s[i]))
    decreases hi - lo
  {
    if lo < hi && IsSpace(s[lo]) {
      TrimStartIndexRun(s, lo + 1, hi);
    }
  }

  lemma {:induction false} TrimEndIndexRun(s: string, lo: nat, hi: nat)
    requires lo <= hi <= |s|
    ensures var j := TrimEndIndex(s, lo, hi); Run(s, j, hi, IsSpace) && (j == lo || !IsSpace(s[j - 1]))
    decreases hi - lo
  {
    if lo < hi && IsSpace(s[hi - 1]) {
      TrimEndIndexRun(s, lo, hi - 1);
    }
  }

  /** The index computation is `trim` of the slice. */
  lemma TrimSliceIsTrim(s: string, lo: nat, hi: nat)
    requires lo <= hi <= |s|
    ensures TrimSlice(s, lo, hi) == Trim(s[lo..hi])
  {
    var i := TrimStartIndex(s, lo, hi);
    var j := TrimEndIndex(s, i, hi);
    TrimStartIndexRun(s, lo, hi);
    TrimEndIndexRun(s, i, hi);
    var x, m, y := s[lo..i], s[i..j], s[j..hi];
    assert All(x, IsSpace) by {
      forall k | 0 <= k < |x| ensures IsSpace(x[k]) { assert x[k] == s[lo + k]; }
    }
    assert All(y, IsSpace) by {
      forall k | 0 <= k < |y| ensures IsSpace(y[k]) { assert y[k] == s[j + k]; }
    }
    if m != [] {
      assert m[0] == s[i] && m[|m| - 1] == s[j - 1];
    }
    assert s[lo..hi] == x + m + y;
    StripPadded(x, m, y, IsSpace);
  }

  /** A value computed as the trimmed slice is `s.slice(lo, hi).trim()`. */
  lemma ContentIsTrim(s: string, lo: nat, hi: nat, c: string)
    requires lo <= hi <= |s| && c == TrimSlice(s, lo, hi)
    ensures c == Trim(s[lo..hi])
  {
    TrimSliceIsTrim(s, lo, hi);
  }

  /** The trimmed slice starts and ends outside `\s`. */
  lemma TrimSliceTrimmed(s: string, lo: nat, hi: nat)
    requires lo <= hi <= |s|
    ensures var r := TrimSlice(s, lo, hi); r == [] || (IsNonSpace(r[0]) && IsNonSpace(r[|r| - 1]))
  {
    var i := TrimStartIndex(s, lo, hi);
    var j := TrimEndIndex(s, i, hi);
    TrimStartIndexRun(s, lo, hi);
    TrimEndIndexRun(s, i, hi);
    var r := s[i..j];
    if r != [] {
      assert r[0] == s[i] && r[|r| - 1] == s[j - 1];
    }
  }

  /** A slice that starts and ends outside `\s` is its own trimmed slice. */
  lemma TrimSliceUnchanged(s: string, lo: nat, hi: nat)
    requires lo <= hi <= |s|
    requires lo == hi || (IsNonSpace(s[lo]) && IsNonSpace(s[hi - 1]))
    ensures TrimSlice(s, lo, hi) == s[lo..hi]
  {
  }

  /** `trim` gives back a string that starts and ends outside `\s`. */
  lemma TrimUnchanged(s: string)
    requires s == [] || (IsNonSpace(s[0]) && IsNonSpace(s[|s| - 1]))
    ensures Trim(s) == s
  {
    StripPadded([], s, [], IsSpace);
    assert [] + s + [] == s;
  }

  /** `s.split("\n")[0]`: everything before the first line feed. */
  function FirstLine(s: string): (r: string)
    ensures |r| <= |s| && r == s[..|r|]
    ensures '\n' !in r
    ensures |r| < |s| ==> s[|r|] == '\n'
  {
    if s == [] || s[0] == '\n' then [] else [s[0]] + FirstLine(s[1..])
  }

  /** The first line is determined by the first line feed. */
  lemma FirstLineOf(line: string, rest: string)
    requires '\n' !in line
    ensures FirstLine(line + "\n" + rest) == line && FirstLine(line) == line
  {
    var s := line + "\n" + rest;
    assert forall k :: 0 <= k < |line| ==> s[k] == line[k];
    assert s[|line|] == '\n';
  }

  /** Leading `\s` goes to `trim` as well: after any run of it, the first line of the trimmed
      text is still that line. */
  lemma TrimFirstLineAfterSpace(ws: string, line: string, rest: string)
    requires All(ws, IsSpace)
    requires '\n' !in line && line != []
    requires IsNonSpace(line[0]) && IsNonSpace(line[|line| - 1])
    ensures FirstLine(Trim(ws + line + "\n" + rest)) == line
  {
    StripPad(ws, line + "\n" + rest, [], IsSpace);
    assert ws + (line + "\n" + rest) + [] == ws + line + "\n" + rest;
    TrimFirstLine(line, rest);
  }

  /** After `trim`, the first line of a text whose first line starts and ends outside `\s` is
      that line. */
  lemma TrimFirstLine(line: string, rest: string)
    requires '\n' !in line && line != []
    requires IsNonSpace(line[0]) && IsNonSpace(line[|line| - 1])
    ensures FirstLine(Trim(line + "\n" + rest)) == line
  {
    var s := line + "\n" + rest;
    assert s[0] == line[0] && s[|line| - 1] == line[|line| - 1];
    SpanIs(s, 0, IsSpace, 0);
    assert TrimStart(s, IsSpace) == s;
    var t := TrimEnd(s, IsSpace);
    TrimEndRun(s, IsSpace);
    assert |t| >= |line|;
    FirstLineOf(line, rest);
    if |t| > |line| {
      var r := s[|line| + 1..|t|];
      assert t == line + "\n" + r;
      FirstLineOf(line, r);
    } else {
      assert t == line;
    }
  }
}
