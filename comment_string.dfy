/**
 * `extractCommentString(code)` (src/extractCommentString.ts): the single token of the first
 * block comment (slash, star, token, star, slash), or failing that the token after the first `//`.
 *
 * The two regular expressions are
 *
 *     block:  \/\*\s*(\S+)\s*\*\/        line:  \/\/\s*(\S+)
 *
 * Each is stated as a ghost predicate over positions (`BlockShape`, `LineShape`) and executed by a
 * deterministic matcher (`BlockAtIndex`, `LineAtIndex`) whose contract says it returns the match the
 * backtracking engine reports at that index: the greedy one. `FindBlock` and `FindLine` are `exec`
 * from index 0, the leftmost match. Both regular expressions are fresh literals on every call, so
 * their `lastIndex` is 0.
 */
module CommentString {
  import opened Text

  /** A match: it starts at `at`, captures `s[lo..hi]` and ends before index `end`. */
  datatype Capture = Capture(at: nat, lo: nat, hi: nat, end: nat)

  /** The two characters `a` and `b` stand at `i` and `i + 1`. */
  predicate PairAt(s: string, i: nat, a: char, b: char)
  {
    i + 1 < |s| && s[i] == a && s[i + 1] == b
  }

  // ---------------------------------------------------------------------------------------------
  // The block comment `\/\*\s*(\S+)\s*\*\/`

  /** A match of the block pattern at `i`, capturing `s[lo..hi]`, with the closing star-slash at `e`. */
  ghost predicate BlockShape(s: string, i: nat, lo: nat, hi: nat, e: nat)
  {
    PairAt(s, i, '/', '*') && PairAt(s, e, '*', '/') && lo < hi
    && Run(s, i + 2, lo, IsSpace) && Run(s, lo, hi, IsNonSpace) && Run(s, hi, e, IsSpace)
  }

  /** The last closing star-slash starting strictly between `lo` and `h`. */
  function LastClose(s: string, lo: nat, h: nat): (r: Option<nat>)
    ensures r.Some? ==> lo < r.value < h && PairAt(s, r.value, '*', '/')
    ensures r.Some? ==> forall y :: r.value < y < h ==> !PairAt(s, y, '*', '/')
    ensures r.None? ==> forall y :: lo < y < h ==> !PairAt(s, y, '*', '/')
    decreases h
  {
    if h <= lo + 1 then None
    else if PairAt(s, h - 1, '*', '/') then Some(h - 1)
    else LastClose(s, lo, h - 1)
  }

  /** No match of the block pattern starts at `k`. */
  ghost predicate NoBlockAt(s: string, k: nat)
  {
    forall lo: nat, hi: nat, e: nat :: !BlockShape(s, k, lo, hi, e)
  }

  /** No match of the block pattern starts at or after `from` and before `to`. */
  ghost predicate NoBlockIn(s: string, from: nat, to: nat)
  {
    forall k: nat :: from <= k < to ==> NoBlockAt(s, k)
  }

  /** Every match of the block pattern at `i` captures at most up to `hi`. */
  ghost predicate LongestBlockAt(s: string, i: nat, hi: nat)
  {
    forall lo': nat, hi': nat, e': nat :: BlockShape(s, i, lo', hi', e') ==> hi' <= hi
  }

  /** In a block match the leading spaces are all of them, the capture lies in the run of
      non-spaces that follows, and where the closing delimiter stands is fixed by the capture:
      right after it inside that run, or after the spaces that follow the run. */
  lemma BlockShapeForced(s: string, i: nat, lo: nat, hi: nat, e: nat)
    requires BlockShape(s, i, lo, hi, e)
    ensures lo == i + 2 + Span(s, i + 2, IsSpace)
    ensures hi <= lo + Span(s, lo, IsNonSpace)
    ensures hi < lo + Span(s, lo, IsNonSpace) ==> e == hi
    ensures hi == lo + Span(s, lo, IsNonSpace) ==> e == hi + Span(s, hi, IsSpace)
  {
    assert IsNonSpace(s[lo]);
    SpanIs(s, i + 2, IsSpace, lo - (i + 2));
    SpanStops(s, lo, IsNonSpace);
    SpanRun(s, lo, IsNonSpace);
    assert IsNonSpace(s[e]);
    var r := lo + Span(s, lo, IsNonSpace);
    if hi < r {
      assert IsNonSpace(s[hi]);
    } else if hi == r {
      SpanIs(s, hi, IsSpace, e - hi);
    }
  }

  /** `exec` of the block pattern anchored at `i`. The greedy `\S+` first takes the whole run of
      non-spaces; each shorter capture is the next alternative the engine tries. */
  function BlockAtIndex(s: string, i: nat): (r: Option<Capture>)
    ensures r.Some? ==> r.value.at == i && r.value.lo < r.value.hi <= |s|
    ensures r.Some? ==> Run(s, r.value.lo, r.value.hi, IsNonSpace)
  {
    if !PairAt(s, i, '/', '*') then None
    else
      var lo := i + 2 + Span(s, i + 2, IsSpace);
      var run := lo + Span(s, lo, IsNonSpace);
      SpanRun(s, lo, IsNonSpace);
      var e := run + Span(s, run, IsSpace);
      if run == lo then None
      else if PairAt(s, e, '*', '/') then Some(Capture(i, lo, run, e + 2))
      else
        var close := LastClose(s, lo, run);
        if close.Some? then Some(Capture(i, lo, close.value, close.value + 2)) else None
  }

  /** What `BlockAtIndex` reports is a match at `i`. */
  lemma BlockAtIndexSound(s: string, i: nat)
    requires BlockAtIndex(s, i).Some?
    ensures var m := BlockAtIndex(s, i).value; m.end >= 2 && BlockShape(s, i, m.lo, m.hi, m.end - 2)
  {
    var lo := i + 2 + Span(s, i + 2, IsSpace);
    var run := lo + Span(s, lo, IsNonSpace);
    var e := run + Span(s, run, IsSpace);
    var m := BlockAtIndex(s, i).value;
    SpanRun(s, i + 2, IsSpace);
    SpanRun(s, run, IsSpace);
    assert Run(s, i + 2, lo, IsSpace);
    if PairAt(s, e, '*', '/') {
      assert m.hi == run && m.end == e + 2;
      assert Run(s, run, e, IsSpace);
    } else {
      assert m.end == m.hi + 2;
      assert Run(s, m.hi, m.hi, IsSpace);
    }
  }

  /** A match at `i` whose capture is the whole run of non-spaces: `BlockAtIndex` takes it. */
  lemma BlockAtIndexWholeRun(s: string, i: nat, lo': nat, hi': nat, e': nat)
    requires BlockShape(s, i, lo', hi', e') && hi' == lo' + Span(s, lo', IsNonSpace)
    ensures BlockAtIndex(s, i).Some? && hi' <= BlockAtIndex(s, i).value.hi
  {
    BlockShapeForced(s, i, lo', hi', e');
    var lo := i + 2 + Span(s, i + 2, IsSpace);
    var run := lo + Span(s, lo, IsNonSpace);
    var e := run + Span(s, run, IsSpace);
    assert lo' == lo && hi' == run && e' == e;
    assert PairAt(s, e, '*', '/') && run != lo;
    assert BlockAtIndex(s, i) == Some(Capture(i, lo, run, e + 2));
  }

  /** A match at `i` whose capture stops inside the run of non-spaces: `BlockAtIndex` reports it
      or a longer one. */
  lemma BlockAtIndexInsideRun(s: string, i: nat, lo': nat, hi': nat, e': nat)
    requires BlockShape(s, i, lo', hi', e') && hi' < lo' + Span(s, lo', IsNonSpace)
    ensures BlockAtIndex(s, i).Some? && hi' <= BlockAtIndex(s, i).value.hi
  {
    BlockShapeForced(s, i, lo', hi', e');
    var lo := i + 2 + Span(s, i + 2, IsSpace);
    var run := lo + Span(s, lo, IsNonSpace);
    var e := run + Span(s, run, IsSpace);
    assert lo' == lo && lo < hi' < run;
    if PairAt(s, e, '*', '/') {
      assert BlockAtIndex(s, i) == Some(Capture(i, lo, run, e + 2));
    } else {
      var close := LastClose(s, lo, run);
      assert PairAt(s, hi', '*', '/');
      assert close.Some? && hi' <= close.value;
      assert BlockAtIndex(s, i) == Some(Capture(i, lo, close.value, close.value + 2));
    }
  }

  /** `BlockAtIndex` reports a match at `i`, the one with the longest capture, whenever there is
      one. */
  lemma BlockAtIndexIsPattern(s: string, i: nat)
    ensures var r := BlockAtIndex(s, i);
            r.Some? ==> r.value.end >= 2 && BlockShape(s, i, r.value.lo, r.value.hi, r.value.end - 2)
    ensures var r := BlockAtIndex(s, i); r.Some? ==> LongestBlockAt(s, i, r.value.hi)
    ensures BlockAtIndex(s, i).None? <==> NoBlockAt(s, i)
  {
    forall lo': nat, hi': nat, e': nat | BlockShape(s, i, lo', hi', e')
      ensures BlockAtIndex(s, i).Some? && hi' <= BlockAtIndex(s, i).value.hi
    {
      BlockShapeForced(s, i, lo', hi', e');
      if hi' == lo' + Span(s, lo', IsNonSpace) {
        BlockAtIndexWholeRun(s, i, lo', hi', e');
      } else {
        BlockAtIndexInsideRun(s, i, lo', hi', e');
      }
    }
    if BlockAtIndex(s, i).Some? {
      BlockAtIndexSound(s, i);
    }
  }

  /** `multilineCommentRegex.exec(s)` from index `from`. */
  function FindBlock(s: string, from: nat): (r: Option<Capture>)
    ensures r.Some? ==> from <= r.value.at && r.value.lo < r.value.hi <= |s|
    ensures r.Some? ==> Run(s, r.value.lo, r.value.hi, IsNonSpace)
    decreases |s| - from
  {
    if from >= |s| then None
    else
      var here := BlockAtIndex(s, from);
      if here.Some? then here else FindBlock(s, from + 1)
  }

  /** A match of the block pattern at `i` starts with its delimiter, so it lies inside `s`. */
  lemma NoBlockPastEnd(s: string, from: nat)
    requires from >= |s|
    ensures forall k: nat :: from <= k ==> NoBlockAt(s, k)
  {
  }

  /** What `FindBlock(s, from)` promises: the leftmost match at or after `from` and, there, the
      longest capture; none exactly when no match starts at or after `from`. */
  ghost predicate IsLeftmostBlock(s: string, from: nat, r: Option<Capture>)
  {
    (r.Some? ==> r.value.end >= 2 && BlockShape(s, r.value.at, r.value.lo, r.value.hi, r.value.end - 2)
                 && LongestBlockAt(s, r.value.at, r.value.hi) && NoBlockIn(s, from, r.value.at))
    && (r.None? <==> forall k: nat :: from <= k ==> NoBlockAt(s, k))
  }

  /** A match at `from` itself is the leftmost one. */
  lemma FindBlockHere(s: string, from: nat)
    requires BlockAtIndex(s, from).Some?
    ensures IsLeftmostBlock(s, from, BlockAtIndex(s, from))
  {
    BlockAtIndexIsPattern(s, from);
  }

  /** Without a match at `from`, the leftmost match from `from + 1` is the leftmost from `from`. */
  lemma FindBlockSkip(s: string, from: nat, r: Option<Capture>)
    requires NoBlockAt(s, from)
    requires IsLeftmostBlock(s, from + 1, r)
    ensures IsLeftmostBlock(s, from, r)
  {
    if r.Some? {
      assert NoBlockIn(s, from, r.value.at);
    }
  }

  /** `FindBlock` reports the leftmost match and, there, the longest capture; it reports none
      exactly when no match starts at or after `from`. */
  lemma {:induction false} FindBlockIsPattern(s: string, from: nat)
    ensures IsLeftmostBlock(s, from, FindBlock(s, from))
    decreases |s| - from
  {
    if from >= |s| {
      NoBlockPastEnd(s, from);
    } else if BlockAtIndex(s, from).Some? {
      FindBlockHere(s, from);
    } else {
      BlockAtIndexIsPattern(s, from);
      FindBlockIsPattern(s, from + 1);
      FindBlockSkip(s, from, FindBlock(s, from + 1));
    }
  }

  // ---------------------------------------------------------------------------------------------
  // The line comment `\/\/\s*(\S+)`

  /** A match of the line pattern at `i`, capturing `s[lo..hi]`. */
  ghost predicate LineShape(s: string, i: nat, lo: nat, hi: nat)
  {
    PairAt(s, i, '/', '/') && lo < hi && Run(s, i + 2, lo, IsSpace) && Run(s, lo, hi, IsNonSpace)
  }

  /** No match of the line pattern starts at `k`. */
  ghost predicate NoLineAt(s: string, k: nat)
  {
    forall lo: nat, hi: nat :: !LineShape(s, k, lo, hi)
  }

  /** No match of the line pattern starts at or after `from` and before `to`. */
  ghost predicate NoLineIn(s: string, from: nat, to: nat)
  {
    forall k: nat :: from <= k < to ==> NoLineAt(s, k)
  }

  /** Every match of the line pattern at `i` captures at most up to `hi`. */
  ghost predicate LongestLineAt(s: string, i: nat, hi: nat)
  {
    forall lo': nat, hi': nat :: LineShape(s, i, lo', hi') ==> hi' <= hi
  }

  /** In a line match the leading spaces are all of them and the capture lies in the run of
      non-spaces that follows. */
  lemma LineShapeForced(s: string, i: nat, lo: nat, hi: nat)
    requires LineShape(s, i, lo, hi)
    ensures lo == i + 2 + Span(s, i + 2, IsSpace)
    ensures hi <= lo + Span(s, lo, IsNonSpace)
  {
    assert IsNonSpace(s[lo]);
    SpanIs(s, i + 2, IsSpace, lo - (i + 2));
    SpanStops(s, lo, IsNonSpace);
  }

  /** `exec` of the line pattern anchored at `i`: the greedy `\S+` takes the whole run. */
  function LineAtIndex(s: string, i: nat): (r: Option<Capture>)
    ensures r.Some? ==> r.value.at == i && r.value.lo < r.value.hi <= |s|
    ensures r.Some? ==> Run(s, r.value.lo, r.value.hi, IsNonSpace)
  {
    if !PairAt(s, i, '/', '/') then None
    else
      var lo := i + 2 + Span(s, i + 2, IsSpace);
      var hi := lo + Span(s, lo, IsNonSpace);
      SpanRun(s, lo, IsNonSpace);
      if hi == lo then None else Some(Capture(i, lo, hi, hi))
  }

  /** `LineAtIndex` reports the match at `i` with the longest capture, whenever there is one;
      that capture is the whole run of non-spaces. */
  lemma LineAtIndexIsPattern(s: string, i: nat)
    ensures var r := LineAtIndex(s, i); r.Some? ==> LineShape(s, i, r.value.lo, r.value.hi)
    ensures var r := LineAtIndex(s, i); r.Some? ==> LongestLineAt(s, i, r.value.hi)
    ensures var r := LineAtIndex(s, i); r.Some? ==> r.value.hi == |s| || IsSpace(s[r.value.hi])
    ensures LineAtIndex(s, i).None? <==> NoLineAt(s, i)
  {
    if PairAt(s, i, '/', '/') {
      var lo := i + 2 + Span(s, i + 2, IsSpace);
      forall lo': nat, hi': nat | LineShape(s, i, lo', hi')
        ensures lo' == lo && hi' <= lo + Span(s, lo, IsNonSpace)
      {
        LineShapeForced(s, i, lo', hi');
      }
      SpanRun(s, i + 2, IsSpace);
      assert Run(s, i + 2, lo, IsSpace);
      SpanStops(s, lo, IsNonSpace);
      var r := LineAtIndex(s, i);
      if r.Some? {
        assert LineShape(s, i, r.value.lo, r.value.hi);
      }
    }
  }

  /** `singleLineCommentRegex.exec(s)` from index `from`. */
  function FindLine(s: string, from: nat): (r: Option<Capture>)
    ensures r.Some? ==> from <= r.value.at && r.value.lo < r.value.hi <= |s|
    ensures r.Some? ==> Run(s, r.value.lo, r.value.hi, IsNonSpace)
    decreases |s| - from
  {
    if from >= |s| then None
    else
      var here := LineAtIndex(s, from);
      if here.Some? then here else FindLine(s, from + 1)
  }

  /** `FindLine` reports the leftmost match and, there, the longest capture; it reports none
      exactly when no match starts at or after `from`. */
  lemma {:induction false} FindLineIsPattern(s: string, from: nat)
    ensures var r := FindLine(s, from); r.Some? ==> LineShape(s, r.value.at, r.value.lo, r.value.hi)
    ensures var r := FindLine(s, from); r.Some? ==> LongestLineAt(s, r.value.at, r.value.hi)
    ensures var r := FindLine(s, from); r.Some? ==> r.value.hi == |s| || IsSpace(s[r.value.hi])
    ensures var r := FindLine(s, from); r.Some? ==> NoLineIn(s, from, r.value.at)
    ensures FindLine(s, from).None? <==> forall k: nat :: from <= k ==> NoLineAt(s, k)
    decreases |s| - from
  {
    if from < |s| {
      LineAtIndexIsPattern(s, from);
      if LineAtIndex(s, from).None? {
        FindLineIsPattern(s, from + 1);
        var r := FindLine(s, from + 1);
        if r.Some? {
          assert NoLineIn(s, from, r.value.at);
        }
      }
    }
  }

  // ---------------------------------------------------------------------------------------------
  // extractCommentString

  /** src/extractCommentString.ts:1-12; `None` is `undefined`. The capture is never empty, so the
      `match[1]` test always passes. */
  function ExtractCommentString(code: string): (r: Option<string>)
    ensures r.Some? ==> r.value != [] && All(r.value, IsNonSpace)
  {
    var block := FindBlock(code, 0);
    var line := FindLine(code, 0);
    if block.Some? then Some(CaptureText(code, block.value.lo, block.value.hi))
    else if line.Some? then Some(CaptureText(code, line.value.lo, line.value.hi))
    else None
  }

  /** `match[1].trim()`: the capture is a run of non-spaces, which `trim` leaves alone. */
  function CaptureText(code: string, lo: nat, hi: nat): (r: string)
    requires lo < hi && Run(code, lo, hi, IsNonSpace)
    ensures r == code[lo..hi] && r != [] && All(r, IsNonSpace)
  {
    var t := code[lo..hi];
    assert All(t, IsNonSpace) by {
      forall k | 0 <= k < |t| ensures IsNonSpace(t[k]) {
        assert t[k] == code[lo + k];
      }
    }
    TrimUnchanged(t);
    Trim(t)
  }

  // ---------------------------------------------------------------------------------------------
  // What the result is, in terms of the two patterns

  /** With no match before `i` and one at `i`, `FindBlock` reports the one at `i`. */
  lemma FindBlockAt(code: string, i: nat, lo: nat, hi: nat, e: nat)
    requires BlockShape(code, i, lo, hi, e) && NoBlockIn(code, 0, i)
    ensures FindBlock(code, 0).Some? && FindBlock(code, 0).value.at == i
  {
    FindBlockIsPattern(code, 0);
    assert !NoBlockAt(code, i);
    var m := FindBlock(code, 0).value;
    assert !NoBlockAt(code, m.at);
  }

  /** Two longest matches at the same index capture the same text. */
  lemma LongestBlockUnique(s: string, i: nat, lo: nat, hi: nat, e: nat, lo2: nat, hi2: nat, e2: nat)
    requires BlockShape(s, i, lo, hi, e) && LongestBlockAt(s, i, hi)
    requires BlockShape(s, i, lo2, hi2, e2) && LongestBlockAt(s, i, hi2)
    ensures lo == lo2 && hi == hi2
  {
    BlockShapeForced(s, i, lo, hi, e);
    BlockShapeForced(s, i, lo2, hi2, e2);
  }

  /** `ExtractCommentString` returns the capture of the block match `FindBlock` reports. */
  lemma ExtractFromBlock(code: string)
    requires FindBlock(code, 0).Some?
    ensures var m := FindBlock(code, 0).value; ExtractCommentString(code) == Some(code[m.lo..m.hi])
  {
  }

  /** A block comment anywhere wins: the result is the capture of the leftmost block match, the
      longest one there. */
  lemma BlockComment(code: string, i: nat, lo: nat, hi: nat, e: nat)
    requires BlockShape(code, i, lo, hi, e)
    requires NoBlockIn(code, 0, i) && LongestBlockAt(code, i, hi)
    ensures ExtractCommentString(code) == Some(code[lo..hi])
  {
    FindBlockAt(code, i, lo, hi, e);
    FindBlockIsPattern(code, 0);
    var m := FindBlock(code, 0).value;
    LongestBlockUnique(code, i, lo, hi, e, m.lo, m.hi, m.end - 2);
    ExtractFromBlock(code);
  }

  /** With no match before `i` and one at `i`, `FindLine` reports the one at `i`. */
  lemma FindLineAt(code: string, i: nat, lo: nat, hi: nat)
    requires LineShape(code, i, lo, hi) && NoLineIn(code, 0, i)
    ensures FindLine(code, 0).Some? && FindLine(code, 0).value.at == i
  {
    FindLineIsPattern(code, 0);
    assert !NoLineAt(code, i);
    var m := FindLine(code, 0).value;
    assert !NoLineAt(code, m.at);
  }

  /** A line match at `i` that takes the whole run of non-spaces is the one `FindLine` reports
      when it reports a match at `i`. */
  lemma WholeRunLineUnique(s: string, i: nat, lo: nat, hi: nat, lo2: nat, hi2: nat)
    requires LineShape(s, i, lo, hi) && (hi == |s| || IsSpace(s[hi]))
    requires LineShape(s, i, lo2, hi2) && LongestLineAt(s, i, hi2)
    ensures lo == lo2 && hi == hi2
  {
    LineShapeForced(s, i, lo, hi);
    LineShapeForced(s, i, lo2, hi2);
    SpanIs(s, lo, IsNonSpace, hi - lo);
  }

  /** With no block match, the result is the capture of the leftmost line match: the whole run
      of non-spaces after `//` and any spaces. */
  lemma LineComment(code: string, i: nat, lo: nat, hi: nat)
    requires forall k: nat :: NoBlockAt(code, k)
    requires LineShape(code, i, lo, hi) && (hi == |code| || IsSpace(code[hi]))
    requires NoLineIn(code, 0, i)
    ensures ExtractCommentString(code) == Some(code[lo..hi])
  {
    FindBlockIsPattern(code, 0);
    FindLineAt(code, i, lo, hi);
    FindLineIsPattern(code, 0);
    var m := FindLine(code, 0).value;
    WholeRunLineUnique(code, i, lo, hi, m.lo, m.hi);
  }

  /** The result is `undefined` exactly when neither pattern matches anywhere. */
  lemma NoComment(code: string)
    ensures ExtractCommentString(code).None? <==>
      (forall k: nat :: NoBlockAt(code, k)) && (forall k: nat :: NoLineAt(code, k))
  {
    FindBlockIsPattern(code, 0);
    FindLineIsPattern(code, 0);
  }

  /** Inside a block match the text between the delimiters is spaces, one token, spaces: after a
      non-space and a later space, only spaces follow up to the closing delimiter. */
  lemma OneTokenInBlock(s: string, i: nat, lo: nat, hi: nat, e: nat, a: nat, b: nat)
    requires BlockShape(s, i, lo, hi, e)
    requires i + 2 <= a < b < e && IsNonSpace(s[a]) && IsSpace(s[b])
    ensures forall d :: b < d < e ==> IsSpace(s[d])
  {
  }

  /** A block comment holding two whitespace-separated tokens before its first closing delimiter
      does not match the block pattern. */
  lemma TwoTokensNoBlock(s: string, i: nat, a: nat, b: nat, d: nat)
    requires i + 2 <= a < b < d < |s|
    requires IsNonSpace(s[a]) && IsSpace(s[b]) && IsNonSpace(s[d])
    requires forall k :: i + 2 <= k <= d ==> !PairAt(s, k, '*', '/')
    ensures NoBlockAt(s, i)
  {
    forall lo: nat, hi: nat, e: nat ensures !BlockShape(s, i, lo, hi, e) {
      if BlockShape(s, i, lo, hi, e) {
        OneTokenInBlock(s, i, lo, hi, e, a, b);
      }
    }
  }

  // ---------------------------------------------------------------------------------------------
  // Results for comments laid out piece by piece

  /** Without a star after index 0 and up to `to`, no block match starts before `to`. */
  lemma NoStarNoBlockBefore(s: string, to: nat)
    requires forall k :: 1 <= k <= to && k < |s| ==> s[k] != '*'
    ensures NoBlockIn(s, 0, to)
  {
    forall k: nat | k < to ensures NoBlockAt(s, k) {
      assert !PairAt(s, k, '/', '*');
    }
  }

  /** A block match at `i` whose capture is followed by a space, after text without a star,
      gives its capture. */
  lemma BlockCommentAt(code: string, i: nat, lo: nat, hi: nat, e: nat)
    requires BlockShape(code, i, lo, hi, e) && hi < e
    requires forall k :: 1 <= k <= i ==> code[k] != '*'
    ensures ExtractCommentString(code) == Some(code[lo..hi])
  {
    NoStarNoBlockBefore(code, i);
    SpanIs(code, lo, IsNonSpace, hi - lo);
    forall lo': nat, hi': nat, e': nat | BlockShape(code, i, lo', hi', e') ensures hi' <= hi {
      BlockShapeForced(code, i, lo', hi', e');
    }
    BlockComment(code, i, lo, hi, e);
  }

  /** Without a star, nothing matches the block pattern. */
  lemma NoStarNoBlock(s: string)
    requires '*' !in s
    ensures forall k: nat :: NoBlockAt(s, k)
  {
    forall k: nat ensures NoBlockAt(s, k) {
      if k + 1 < |s| { assert s[k + 1] in s; }
    }
  }

  /** Without a slash, neither pattern matches. */
  lemma NoSlashNoComment(code: string)
    requires '/' !in code
    ensures ExtractCommentString(code) == None
  {
    forall k: nat ensures NoBlockAt(code, k) && NoLineAt(code, k) {
      if k < |code| { assert code[k] in code; }
    }
    NoComment(code);
  }

  /** Without a star anywhere, a line match at `i` after text without a slash gives its capture
      when a space or the end of the text follows it. */
  lemma LineCommentAt(code: string, i: nat, lo: nat, hi: nat)
    requires LineShape(code, i, lo, hi) && (hi == |code| || IsSpace(code[hi]))
    requires '*' !in code
    requires forall k :: 0 <= k < i ==> code[k] != '/'
    ensures ExtractCommentString(code) == Some(code[lo..hi])
  {
    NoStarNoBlock(code);
    LineComment(code, i, lo, hi);
  }
}
