/**
 * `extractFilenameFromLine(line)` and the generator `findQuoted` (src/extractFilenameFromLine.ts):
 * the whole line when it looks like a file path, otherwise the first quoted piece of the line
 * that does. The quoted pieces are the captures of the global regular expression
 * `['"`]([^'"`]+)['"`]`, found by repeated `exec` calls that resume after each closing quote.
 */
module LineFilename {
  import opened Text
  import opened FilePath

  /** The quote characters `'`, `"` and backtick. */
  predicate IsQuote(c: char) { c == '\'' || c == '"' || c == '`' }

  /** `[^'"`]` */
  predicate IsNotQuote(c: char) { !IsQuote(c) }

  /** The pattern matches at `p`: an opening quote at `p`, the capture `s[p + 1..e]` of one or
      more non-quotes, and a closing quote at `e`. The two quotes may be of different kinds. */
  ghost predicate QuotedAt(s: string, p: nat, e: nat)
  {
    p + 1 < e < |s| && IsQuote(s[p]) && IsQuote(s[e]) && Run(s, p + 1, e, IsNotQuote)
  }

  /** The pattern does not match at `p`. */
  ghost predicate NoQuotedAt(s: string, p: nat)
  {
    forall e: nat :: !QuotedAt(s, p, e)
  }

  /** `exec` anchored at `p`. The capture class excludes the quotes, so the capture runs up to
      the first quote after `p + 1`, and there is no other way to match. */
  function QuotedAtIndex(s: string, p: nat): (r: Option<nat>)
    ensures r.Some? ==> QuotedAt(s, p, r.value)
  {
    if p < |s| && IsQuote(s[p]) then
      SpanStops(s, p + 1, IsNotQuote);
      SpanRun(s, p + 1, IsNotQuote);
      var e := p + 1 + Span(s, p + 1, IsNotQuote);
      if p + 1 < e < |s| then Some(e) else None
    else None
  }

  /** A match at `p` closes at the first quote after the opening one. */
  lemma QuotedAtForced(s: string, p: nat, e: nat)
    requires QuotedAt(s, p, e)
    ensures QuotedAtIndex(s, p) == Some(e)
  {
    SpanIs(s, p + 1, IsNotQuote, e - p - 1);
  }

  /** `QuotedAtIndex` reports a match exactly when there is one. */
  lemma QuotedAtIndexComplete(s: string, p: nat)
    requires QuotedAtIndex(s, p).None?
    ensures NoQuotedAt(s, p)
  {
    forall e: nat ensures !QuotedAt(s, p, e) {
      if QuotedAt(s, p, e) {
        QuotedAtForced(s, p, e);
      }
    }
  }

  /** `regex.exec(s)` with `lastIndex == from`: the leftmost match at or after `from`, as the
      pair (opening quote, closing quote). */
  function NextQuoted(s: string, from: nat): (r: Option<(nat, nat)>)
    ensures r.Some? ==> from <= r.value.0 && QuotedAt(s, r.value.0, r.value.1)
    decreases |s| - from
  {
    if from >= |s| then None
    else
      match QuotedAtIndex(s, from)
      case Some(e) => Some((from, e))
      case None => NextQuoted(s, from + 1)
  }

  /** `r` is the leftmost match at or after `from`, or there is none. */
  ghost predicate IsLeftmostQuoted(s: string, from: nat, r: Option<(nat, nat)>)
  {
    (r.Some? ==>
      from <= r.value.0 && QuotedAt(s, r.value.0, r.value.1) &&
      forall k: nat :: from <= k < r.value.0 ==> NoQuotedAt(s, k)) &&
    (r.None? ==> forall k: nat :: from <= k ==> NoQuotedAt(s, k))
  }

  lemma {:induction false} NextQuotedIsPattern(s: string, from: nat)
    ensures IsLeftmostQuoted(s, from, NextQuoted(s, from))
    decreases |s| - from
  {
    if from < |s| {
      if QuotedAtIndex(s, from).None? {
        QuotedAtIndexComplete(s, from);
        NextQuotedIsPattern(s, from + 1);
      }
    }
  }

  /** No match starts in a run of non-quotes: the scan skips it. */
  lemma {:induction false} SkipUnquoted(s: string, from: nat, to: nat)
    requires Run(s, from, to, IsNotQuote)
    ensures NextQuoted(s, from) == NextQuoted(s, to)
    decreases |s| - from
  {
    if from < to {
      SkipUnquoted(s, from + 1, to);
    }
  }

  /** A string without quotes has no match. */
  lemma UnquotedNoMatch(s: string, from: nat)
    requires from <= |s| && Run(s, from, |s|, IsNotQuote)
    ensures NextQuoted(s, from) == None
  {
    SkipUnquoted(s, from, |s|);
  }

  /** The (opening, closing) quote positions of the successive matches, `lastIndex` starting at
      `from`: in order, each one the leftmost after the previous closing quote, so they do not
      overlap. */
  function QuotedSpans(s: string, from: nat): (r: seq<(nat, nat)>)
    ensures forall i :: 0 <= i < |r| ==> from <= r[i].0 && QuotedAt(s, r[i].0, r[i].1)
    ensures forall i :: 0 < i < |r| ==> r[i - 1].1 < r[i].0
    decreases |s| - from
  {
    match NextQuoted(s, from)
    case None => []
    case Some(m) => [m] + QuotedSpans(s, m.1 + 1)
  }

  /** Between two matches, before the first and after the last, the pattern matches nowhere the
      scan looks: every match the scan passes over starts inside an earlier match. */
  lemma {:induction false} QuotedSpansLeftmost(s: string, from: nat)
    ensures var r := QuotedSpans(s, from);
      (|r| > 0 ==> forall k: nat :: from <= k < r[0].0 ==> NoQuotedAt(s, k)) &&
      (forall i, k: nat :: 0 < i < |r| && r[i - 1].1 < k < r[i].0 ==> NoQuotedAt(s, k)) &&
      (|r| == 0 ==> forall k: nat :: from <= k ==> NoQuotedAt(s, k)) &&
      (|r| > 0 ==> forall k: nat :: r[|r| - 1].1 < k ==> NoQuotedAt(s, k))
    decreases |s| - from
  {
    SpansHeadClear(s, from);
    SpansGapsClear(s, from);
    SpansTailClear(s, from);
  }

  /** Before the first match the pattern matches nowhere at or after `from`. */
  lemma SpansHeadClear(s: string, from: nat)
    ensures var r := QuotedSpans(s, from);
      |r| > 0 ==> forall k: nat :: from <= k < r[0].0 ==> NoQuotedAt(s, k)
  {
    NextQuotedIsPattern(s, from);
  }

  /** Between two successive matches the pattern matches nowhere. */
  lemma {:induction false} SpansGapsClear(s: string, from: nat)
    ensures var r := QuotedSpans(s, from);
      forall i, k: nat :: 0 < i < |r| && r[i - 1].1 < k < r[i].0 ==> NoQuotedAt(s, k)
    decreases |s| - from
  {
    var m := NextQuoted(s, from);
    if m.Some? {
      var r := QuotedSpans(s, from);
      var rest := QuotedSpans(s, m.value.1 + 1);
      SpansGapsClear(s, m.value.1 + 1);
      SpansHeadClear(s, m.value.1 + 1);
      assert r == [m.value] + rest;
      GapsCons(s, m.value, rest);
    }
  }

  /** Putting a match in front keeps the gaps clear when nothing matches between its closing
      quote and the next match. */
  lemma GapsCons(s: string, m: (nat, nat), rest: seq<(nat, nat)>)
    requires forall i, k: nat :: 0 < i < |rest| && rest[i - 1].1 < k < rest[i].0 ==> NoQuotedAt(s, k)
    requires |rest| > 0 ==> forall k: nat :: m.1 + 1 <= k < rest[0].0 ==> NoQuotedAt(s, k)
    ensures var r := [m] + rest;
      forall i, k: nat :: 0 < i < |r| && r[i - 1].1 < k < r[i].0 ==> NoQuotedAt(s, k)
  {
    var r := [m] + rest;
    forall i, k: nat | 0 < i < |r| && r[i - 1].1 < k < r[i].0 ensures NoQuotedAt(s, k) {
      if i > 1 {
        assert r[i - 1] == rest[i - 2] && r[i] == rest[i - 1];
      } else {
        assert r[i] == rest[0];
      }
    }
  }

  /** After the last match, or from `from` when there is none, the pattern matches nowhere. */
  lemma {:induction false} SpansTailClear(s: string, from: nat)
    ensures var r := QuotedSpans(s, from);
      (|r| == 0 ==> forall k: nat :: from <= k ==> NoQuotedAt(s, k)) &&
      (|r| > 0 ==> forall k: nat :: r[|r| - 1].1 < k ==> NoQuotedAt(s, k))
    decreases |s| - from
  {
    NextQuotedIsPattern(s, from);
    var m := NextQuoted(s, from);
    if m.Some? {
      var r := QuotedSpans(s, from);
      var rest := QuotedSpans(s, m.value.1 + 1);
      SpansTailClear(s, m.value.1 + 1);
      assert r == [m.value] + rest;
      assert r[|r| - 1] == if |rest| > 0 then rest[|rest| - 1] else m.value;
    }
  }

  /** The captures `match[1]` of the successive matches, `lastIndex` starting at `from`. */
  function CandidatesFrom(s: string, from: nat): (r: seq<string>)
    ensures forall i :: 0 <= i < |r| ==> r[i] != [] && All(r[i], IsNotQuote)
    decreases |s| - from
  {
    match NextQuoted(s, from)
    case None => []
    case Some(m) =>
      var c := s[m.0 + 1..m.1];
      assert All(c, IsNotQuote) by {
        forall k | 0 <= k < |c| ensures IsNotQuote(c[k]) {
          assert c[k] == s[m.0 + 1 + k];
        }
      }
      [c] + CandidatesFrom(s, m.1 + 1)
  }

  /** Each candidate is the text between the quotes of the corresponding match. */
  lemma {:induction false} CandidatesAreCaptures(s: string, from: nat)
    ensures |CandidatesFrom(s, from)| == |QuotedSpans(s, from)|
    ensures forall i :: 0 <= i < |QuotedSpans(s, from)| ==>
      CandidatesFrom(s, from)[i] == s[QuotedSpans(s, from)[i].0 + 1..QuotedSpans(s, from)[i].1]
    decreases |s| - from
  {
    var m := NextQuoted(s, from);
    if m.Some? {
      CandidatesAreCaptures(s, m.value.1 + 1);
      var c, r := CandidatesFrom(s, from), QuotedSpans(s, from);
      var c', r' := CandidatesFrom(s, m.value.1 + 1), QuotedSpans(s, m.value.1 + 1);
      assert c == [s[m.value.0 + 1..m.value.1]] + c' && r == [m.value] + r';
      CapturesCons(s, m.value, c', r', c, r);
    }
  }

  /** `c` holds, one for one, the text inside the spans `r` of `s`. */
  ghost predicate Captures(s: string, c: seq<string>, r: seq<(nat, nat)>)
  {
    |c| == |r| && forall i :: 0 <= i < |r| ==> r[i].0 + 1 <= r[i].1 <= |s| && c[i] == s[r[i].0 + 1..r[i].1]
  }

  /** Prepending a match and its capture keeps each capture beside its match. */
  lemma CapturesCons(s: string, m: (nat, nat), c': seq<string>, r': seq<(nat, nat)>,
                     c: seq<string>, r: seq<(nat, nat)>)
    requires m.0 + 1 <= m.1 <= |s| && Captures(s, c', r')
    requires c == [s[m.0 + 1..m.1]] + c' && r == [m] + r'
    ensures Captures(s, c, r)
  {
    forall i | 0 < i < |r| ensures r[i].0 + 1 <= r[i].1 <= |s| && c[i] == s[r[i].0 + 1..r[i].1] {
      assert c[i] == c'[i - 1] && r[i] == r'[i - 1];
    }
  }

  /** One `exec` that matches: its capture comes first, and the scan resumes after the closing
      quote. */
  lemma CandidatesStep(s: string, from: nat, p: nat, e: nat)
    requires NextQuoted(s, from) == Some((p, e))
    ensures from < e + 1 && p + 1 < e < |s|
    ensures CandidatesFrom(s, from) == [s[p + 1..e]] + CandidatesFrom(s, e + 1)
  {
  }

  /** The loop's invariant survives one `exec` that matches at `(p, e)`. */
  lemma CandidatesAdvance(s: string, from: nat, p: nat, e: nat, done: seq<string>, all: seq<string>)
    requires NextQuoted(s, from) == Some((p, e)) && done + CandidatesFrom(s, from) == all
    ensures from < e + 1 && p + 1 < e < |s|
    ensures (done + [s[p + 1..e]]) + CandidatesFrom(s, e + 1) == all
  {
    CandidatesStep(s, from, p, e);
    assert done + [s[p + 1..e]] + CandidatesFrom(s, e + 1) == done + ([s[p + 1..e]] + CandidatesFrom(s, e + 1));
  }

  /** What `findQuoted(line)` yields. */
  function Candidates(line: string): (r: seq<string>)
    ensures forall i :: 0 <= i < |r| ==> r[i] != [] && All(r[i], IsNotQuote)
  {
    CandidatesFrom(line, 0)
  }

  /** src/extractFilenameFromLine.ts:13-20: the `exec` loop, each match's capture yielded in
      turn. The sequence stands for the generator, consumed eagerly. */
  method FindQuoted(line: string) returns (quoted: seq<string>)
    ensures quoted == Candidates(line)
  {
    quoted := [];
    var lastIndex: nat := 0;
    var found := NextQuoted(line, lastIndex);
    while found.Some?
      invariant quoted + CandidatesFrom(line, lastIndex) == Candidates(line)
      invariant found == NextQuoted(line, lastIndex)
      decreases |line| - lastIndex
    {
      var p, e := found.value.0, found.value.1;
      CandidatesAdvance(line, lastIndex, p, e, quoted, Candidates(line));
      quoted := quoted + [line[p + 1..e]];
      lastIndex := e + 1;
      found := NextQuoted(line, lastIndex);
    }
    assert quoted + [] == quoted;
  }

  /** The first index at or after `from` whose string is a file path. */
  function FirstPathIndex(cs: seq<string>, from: nat): (r: Option<nat>)
    ensures r.Some? ==> from <= r.value < |cs| && IsFilePath(cs[r.value])
    ensures r.Some? ==> forall j :: from <= j < r.value ==> !IsFilePath(cs[j])
    ensures r.None? ==> forall j :: from <= j < |cs| ==> !IsFilePath(cs[j])
    decreases |cs| - from
  {
    if from >= |cs| then None
    else if IsFilePath(cs[from]) then Some(from)
    else FirstPathIndex(cs, from + 1)
  }

  /** src/extractFilenameFromLine.ts:3-11; `None` is `undefined`. */
  function ExtractFilenameFromLine(line: string): (r: Option<string>)
    ensures r.Some? ==> IsFilePath(r.value)
    ensures IsFilePath(line) ==> r == Some(line)
  {
    if IsFilePath(line) then Some(line)
    else
      var cs := Candidates(line);
      match FirstPathIndex(cs, 0)
      case Some(i) => Some(cs[i])
      case None => None
  }

  /** A line that is not a file path gives its first quoted candidate that is one. */
  lemma FirstCandidateWins(line: string, i: nat)
    requires !IsFilePath(line)
    requires i < |Candidates(line)| && IsFilePath(Candidates(line)[i])
    requires forall j :: 0 <= j < i ==> !IsFilePath(Candidates(line)[j])
    ensures ExtractFilenameFromLine(line) == Some(Candidates(line)[i])
  {
    var r := FirstPathIndex(Candidates(line), 0);
    assert r.Some? && r.value == i;
  }

  /** Anything returned is the line itself or one of its candidates, the first that is a path. */
  lemma ResultIsLineOrCandidate(line: string)
    requires ExtractFilenameFromLine(line).Some?
    ensures var f := ExtractFilenameFromLine(line).value;
      f == line ||
      (exists i :: 0 <= i < |Candidates(line)| && Candidates(line)[i] == f &&
         forall j :: 0 <= j < i ==> !IsFilePath(Candidates(line)[j]))
  {
    if !IsFilePath(line) {
      var i := FirstPathIndex(Candidates(line), 0).value;
      assert Candidates(line)[i] == ExtractFilenameFromLine(line).value;
    }
  }

  /** Nothing is found exactly when neither the line nor any candidate is a file path. */
  lemma NothingFound(line: string)
    ensures ExtractFilenameFromLine(line).None? <==>
      !IsFilePath(line) && forall i :: 0 <= i < |Candidates(line)| ==> !IsFilePath(Candidates(line)[i])
  {
  }

  /** A line without quotes has no candidates. */
  lemma UnquotedNoCandidates(line: string)
    requires All(line, IsNotQuote)
    ensures Candidates(line) == []
  {
    UnquotedNoMatch(line, 0);
  }

  /** A match at the first quote after `from` gives the first candidate from there. */
  lemma CandidateAt(s: string, from: nat, p: nat, e: nat)
    requires from <= p && Run(s, from, p, IsNotQuote) && QuotedAt(s, p, e)
    ensures CandidatesFrom(s, from) == [s[p + 1..e]] + CandidatesFrom(s, e + 1)
  {
    SkipUnquoted(s, from, p);
    QuotedAtForced(s, p, e);
  }

  /** A file path contains no quote. */
  lemma PathHasNoQuote(name: string)
    requires IsFilePath(name)
    ensures name != [] && All(name, IsNotQuote)
  {
    forall k | 0 <= k < |name| ensures IsNotQuote(name[k]) {
      assert IsValidChar(name[k]);
    }
  }

  /** Where the pieces of `head + gap + q1 + name + q2 + post` lie, when `gap` and `name` have no
      quotes: the pattern matches at `q1` and captures `name`. */
  lemma QuotedLayout(line: string, head: string, body: string, gap: string, q1: char, name: string,
                     q2: char, post: string)
    requires line == head + body && body == gap + [q1] + name + [q2] + post
    requires All(gap, IsNotQuote) && IsQuote(q1) && IsQuote(q2)
    requires name != [] && All(name, IsNotQuote)
    ensures var p := |head| + |gap|;
      Run(line, |head|, p, IsNotQuote) && QuotedAt(line, p, p + |name| + 1) &&
      line[p + 1..p + |name| + 1] == name
  {
    var p := |head| + |gap|;
    forall k | |head| <= k < p ensures IsNotQuote(line[k]) {
      assert line[k] == gap[k - |head|];
    }
    forall k | p + 1 <= k < p + 1 + |name| ensures line[k] == name[k - p - 1] {
      assert line[k] == body[k - |head|];
    }
    assert line[p] == body[|gap|];
    assert line[p + 1 + |name|] == body[|gap| + 1 + |name|];
  }

  /** The first quoted piece of the line, `line[p + 1..e]`, with no quote before it. */
  ghost predicate FirstQuotedAt(line: string, p: nat, e: nat)
  {
    Run(line, 0, p, IsNotQuote) && QuotedAt(line, p, e)
  }

  /** The second quoted piece, `line[p2 + 1..e2]`, after the first one closing at `e1`. */
  ghost predicate SecondQuotedAt(line: string, e1: nat, p2: nat, e2: nat)
  {
    e1 < p2 && Run(line, e1 + 1, p2, IsNotQuote) && QuotedAt(line, p2, e2)
  }

  lemma FirstLayout(line: string, pre: string, q1: char, name: string, q2: char, post: string)
    requires line == pre + [q1] + name + [q2] + post
    requires All(pre, IsNotQuote) && IsQuote(q1) && IsQuote(q2)
    requires name != [] && All(name, IsNotQuote)
    ensures FirstQuotedAt(line, |pre|, |pre| + |name| + 1)
    ensures line[|pre| + 1..|pre| + |name| + 1] == name
  {
    var p := |pre|;
    forall k | 0 <= k < p ensures IsNotQuote(line[k]) {
      assert line[k] == pre[k];
    }
    forall k | p + 1 <= k < p + 1 + |name| ensures line[k] == name[k - p - 1] {
    }
    assert line[p] == q1 && line[p + 1 + |name|] == q2;
  }

  lemma SecondLayout(line: string, head: string, rest: string, mid: string, q3: char, name: string,
                     q4: char, post: string)
    requires line == head + rest && rest == mid + [q3] + name + [q4] + post && |head| > 0
    requires All(mid, IsNotQuote) && IsQuote(q3) && IsQuote(q4)
    requires name != [] && All(name, IsNotQuote)
    ensures SecondQuotedAt(line, |head| - 1, |head| + |mid|, |head| + |mid| + |name| + 1)
    ensures line[|head| + |mid| + 1..|head| + |mid| + |name| + 1] == name
  {
    QuotedLayout(line, head, rest, mid, q3, name, q4, post);
  }

  /** When the first quoted piece is a file path, it is the result. */
  lemma FirstQuotedPath(line: string, p: nat, e: nat)
    requires FirstQuotedAt(line, p, e) && IsFilePath(line[p + 1..e])
    ensures ExtractFilenameFromLine(line) == Some(line[p + 1..e])
  {
    assert !IsValidChar(line[p]);
    CandidateAt(line, 0, p, e);
    FirstCandidateWins(line, 0);
  }

  /** When the first quoted piece is not a file path and the second one is, the second one is
      the result. */
  lemma SecondQuotedPath(line: string, p1: nat, e1: nat, p2: nat, e2: nat)
    requires FirstQuotedAt(line, p1, e1) && !IsFilePath(line[p1 + 1..e1])
    requires SecondQuotedAt(line, e1, p2, e2) && IsFilePath(line[p2 + 1..e2])
    ensures ExtractFilenameFromLine(line) == Some(line[p2 + 1..e2])
  {
    assert !IsValidChar(line[p1]);
    TwoCandidates(line, p1, e1, p2, e2);
    FirstCandidateWins(line, 1);
  }

  /** The first two matches give the first two candidates. */
  lemma TwoCandidates(line: string, p1: nat, e1: nat, p2: nat, e2: nat)
    requires FirstQuotedAt(line, p1, e1) && SecondQuotedAt(line, e1, p2, e2)
    ensures |Candidates(line)| > 1
    ensures Candidates(line)[0] == line[p1 + 1..e1] && Candidates(line)[1] == line[p2 + 1..e2]
  {
    CandidateAt(line, 0, p1, e1);
    CandidateAt(line, e1 + 1, p2, e2);
  }

  /** A line whose first quoted piece is a file path gives that path: the opening quote makes the
      whole line fail the path test (src/extractFilenameFromLine.test.ts:11-16, 30-42, 49-54). */
  lemma QuotedPathFound(line: string, pre: string, q1: char, name: string, q2: char, post: string)
    requires line == pre + [q1] + name + [q2] + post
    requires All(pre, IsNotQuote) && IsQuote(q1) && IsQuote(q2) && IsFilePath(name)
    ensures ExtractFilenameFromLine(line) == Some(name)
  {
    PathHasNoQuote(name);
    FirstLayout(line, pre, q1, name, q2, post);
    FirstQuotedPath(line, |pre|, |pre| + |name| + 1);
  }

  /** A line whose first quoted piece is not a file path and whose second is gives the second
      (src/extractFilenameFromLine.test.ts:23-28). */
  lemma SecondQuotedPathFound(line: string, head: string, rest: string, pre: string, q1: char,
                              n1: string, q2: char, mid: string, q3: char, n2: string, q4: char,
                              post: string)
    requires line == head + rest
    requires head == pre + [q1] + n1 + [q2] && rest == mid + [q3] + n2 + [q4] + post
    requires All(pre, IsNotQuote) && IsQuote(q1) && IsQuote(q2) && IsQuote(q3) && IsQuote(q4)
    requires n1 != [] && All(n1, IsNotQuote) && !IsFilePath(n1)
    requires All(mid, IsNotQuote) && IsFilePath(n2)
    ensures ExtractFilenameFromLine(line) == Some(n2)
  {
    var p1, e1 := |pre|, |pre| + |n1| + 1;
    var p2, e2 := |head| + |mid|, |head| + |mid| + |n2| + 1;
    assert FirstQuotedAt(line, p1, e1) && !IsFilePath(line[p1 + 1..e1]) by {
      FirstLayout(line, pre, q1, n1, q2, rest);
    }
    assert SecondQuotedAt(line, e1, p2, e2) && line[p2 + 1..e2] == n2 by {
      PathHasNoQuote(n2);
      SecondLayout(line, head, rest, mid, q3, n2, q4, post);
      assert |head| - 1 == e1;
    }
    SecondQuotedPath(line, p1, e1, p2, e2);
  }

  /** Without quotes, a line that is not a file path gives nothing
      (src/extractFilenameFromLine.test.ts:18-21, 44-47). */
  lemma UnquotedNonPath(line: string)
    requires All(line, IsNotQuote) && !IsFilePath(line)
    ensures ExtractFilenameFromLine(line) == None
  {
    UnquotedNoCandidates(line);
  }
}
