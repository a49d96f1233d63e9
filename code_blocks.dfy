/**
 * `extractCodeBlocks(response)` (src/extractCodeBlocks.ts): the fenced code blocks of a reply,
 * in order. The source runs the global regular expression `/```([a-z]*?)\n([\s\S]*?)\n```/g`
 * with repeated `exec` calls, each resuming where the previous match ended, and yields the
 * trimmed tag and the trimmed body of every match.
 */
module CodeBlocks {
  import opened Text

  /** One yielded record `{ fileType, content }`. */
  datatype CodeBlock = CodeBlock(fileType: string, content: string)

  /** Empty, or starting and ending outside `\s`: what `trim` leaves. */
  predicate Trimmed(x: string)
  {
    x == [] || (IsNonSpace(x[0]) && IsNonSpace(x[|x| - 1]))
  }

  /** The record's tag holds lowercase letters only, and its content is trimmed. */
  predicate WellFormed(b: CodeBlock)
  {
    All(b.fileType, IsLowerAlpha) && Trimmed(b.content)
  }

  /** The opening fence "```" at `i`. */
  predicate OpenAt(s: string, i: nat)
  {
    i + 3 <= |s| && s[i] == '`' && s[i + 1] == '`' && s[i + 2] == '`'
  }

  /** The closing fence, a line feed and "```", at `k`. */
  predicate CloseAt(s: string, k: nat)
  {
    k + 4 <= |s| && s[k] == '\n' && s[k + 1] == '`' && s[k + 2] == '`' && s[k + 3] == '`'
  }

  /** No closing fence starts in `[lo, hi)`. */
  ghost predicate NoCloseIn(s: string, lo: nat, hi: nat)
  {
    forall j: nat :: lo <= j < hi ==> !CloseAt(s, j)
  }

  /** The pattern without its lazy choices, at `i`: the opening fence, lowercase letters up to
      `te`, a line feed at `te`, the body `s[te + 1..k]` and a closing fence at `k`. */
  ghost predicate FenceShape(s: string, i: nat, te: nat, k: nat)
  {
    OpenAt(s, i) && Run(s, i + 3, te, IsLowerAlpha) && te < |s| && s[te] == '\n'
    && te < k && CloseAt(s, k)
  }

  /** The match at `i`: the lazy tag can only end at the line feed, since a line feed is no
      letter, and the lazy body ends at the first closing fence after that line feed. */
  ghost predicate FenceAt(s: string, i: nat, te: nat, k: nat)
  {
    FenceShape(s, i, te, k) && NoCloseIn(s, te + 1, k)
  }

  /** The first closing fence at or after `from`. */
  function NextClose(s: string, from: nat): (r: Option<nat>)
    ensures r.Some? ==> from <= r.value && CloseAt(s, r.value) && NoCloseIn(s, from, r.value)
    ensures r.None? ==> forall j: nat :: from <= j ==> !CloseAt(s, j)
    decreases |s| - from
  {
    if from + 4 > |s| then None
    else if CloseAt(s, from) then Some(from)
    else NextClose(s, from + 1)
  }

  /** The pattern does not match at `i`. */
  ghost predicate NoFenceAt(s: string, i: nat)
  {
    forall te: nat, k: nat :: !FenceShape(s, i, te, k)
  }

  /** `exec` anchored at `i`: where the tag ends and where the closing fence starts. */
  function FenceAtIndex(s: string, i: nat): (r: Option<(nat, nat)>)
    ensures r.Some? ==> i + 3 <= r.value.0 < r.value.1 && r.value.1 + 4 <= |s|
  {
    if !OpenAt(s, i) then None
    else
      var te := i + 3 + Span(s, i + 3, IsLowerAlpha);
      if te < |s| && s[te] == '\n' then
        match NextClose(s, te + 1)
        case Some(k) => Some((te, k))
        case None => None
      else None
  }

  /** What `FenceAtIndex` reports is a match. */
  lemma FenceAtIndexSound(s: string, i: nat)
    requires FenceAtIndex(s, i).Some?
    ensures FenceAt(s, i, FenceAtIndex(s, i).value.0, FenceAtIndex(s, i).value.1)
  {
    SpanRun(s, i + 3, IsLowerAlpha);
  }

  /** Any way of matching at `i` has the tag `FenceAtIndex` found, and a closing fence no
      earlier than the one it found. */
  lemma FenceAtIndexComplete(s: string, i: nat, te: nat, k: nat)
    requires FenceShape(s, i, te, k)
    ensures FenceAtIndex(s, i).Some?
    ensures FenceAtIndex(s, i).value.0 == te && FenceAtIndex(s, i).value.1 <= k
  {
    SpanIs(s, i + 3, IsLowerAlpha, te - i - 3);
  }

  /** A match at `i` is the one `FenceAtIndex` reports. */
  lemma FenceAtForced(s: string, i: nat, te: nat, k: nat)
    requires FenceAt(s, i, te, k)
    ensures FenceAtIndex(s, i) == Some((te, k))
  {
    FenceAtIndexComplete(s, i, te, k);
  }

  lemma FenceAtIndexNone(s: string, i: nat)
    requires FenceAtIndex(s, i).None?
    ensures NoFenceAt(s, i)
  {
    forall te: nat, k: nat ensures !FenceShape(s, i, te, k) {
      if FenceShape(s, i, te, k) {
        FenceAtIndexComplete(s, i, te, k);
      }
    }
  }

  /** `regex.exec(response)` with `lastIndex == from`: the leftmost match at or after `from`, as
      (opening fence, tag end, closing fence). */
  function NextFence(s: string, from: nat): (r: Option<(nat, nat, nat)>)
    ensures r.Some? ==> from <= r.value.0 && r.value.0 + 3 <= r.value.1 < r.value.2
                        && r.value.2 + 4 <= |s|
    decreases |s| - from
  {
    if from >= |s| then None
    else
      match FenceAtIndex(s, from)
      case Some(m) => Some((from, m.0, m.1))
      case None => NextFence(s, from + 1)
  }

  /** `r` is the leftmost match at or after `from`, or there is none. */
  ghost predicate IsLeftmostFence(s: string, from: nat, r: Option<(nat, nat, nat)>)
  {
    (r.Some? ==>
      from <= r.value.0 && FenceAt(s, r.value.0, r.value.1, r.value.2) &&
      forall i: nat :: from <= i < r.value.0 ==> NoFenceAt(s, i)) &&
    (r.None? ==> forall i: nat :: from <= i ==> NoFenceAt(s, i))
  }

  lemma {:induction false} NextFenceIsPattern(s: string, from: nat)
    ensures IsLeftmostFence(s, from, NextFence(s, from))
    decreases |s| - from
  {
    if from < |s| {
      if FenceAtIndex(s, from).None? {
        FenceAtIndexNone(s, from);
        NextFenceIsPattern(s, from + 1);
      } else {
        FenceAtIndexSound(s, from);
      }
    }
  }

  /** A match `(i, te, k)` with its tag, body and closing fence inside `s`. */
  predicate InBounds(s: string, m: (nat, nat, nat))
  {
    m.0 + 3 <= m.1 < m.2 && m.2 + 4 <= |s|
  }

  /** (opening fence, tag end, closing fence) of the successive matches from `lastIndex ==
      from`. */
  function FenceSpans(s: string, from: nat): seq<(nat, nat, nat)>
    decreases |s| - from
  {
    match NextFence(s, from)
    case None => []
    case Some(m) => [m] + FenceSpans(s, m.2 + 4)
  }

  /** The matches lie inside `s`, in order and without overlap, each one at least the eight
      characters of the two fences and a line feed long. */
  lemma {:induction false} FenceSpansOrdered(s: string, from: nat)
    ensures forall j :: 0 <= j < |FenceSpans(s, from)| ==>
      from <= FenceSpans(s, from)[j].0 && InBounds(s, FenceSpans(s, from)[j]) &&
      FenceSpans(s, from)[j].0 + 8 <= FenceSpans(s, from)[j].2 + 4
    ensures forall j :: 0 < j < |FenceSpans(s, from)| ==>
      FenceSpans(s, from)[j - 1].2 + 4 <= FenceSpans(s, from)[j].0
    decreases |s| - from
  {
    var m := NextFence(s, from);
    if m.Some? {
      var next := m.value.2 + 4;
      FenceSpansOrdered(s, next);
      var r, rest := FenceSpans(s, from), FenceSpans(s, next);
      assert r == [m.value] + rest;
      forall j | 0 < j < |r| ensures from <= r[j].0 && InBounds(s, r[j]) && r[j - 1].2 + 4 <= r[j].0 {
        assert r[j] == rest[j - 1];
        assert next <= rest[j - 1].0;
        if j > 1 { assert r[j - 1] == rest[j - 2]; }
      }
    }
  }

  /** Every span is a match of the pattern. */
  lemma {:induction false} FenceSpansMatch(s: string, from: nat)
    ensures forall j :: 0 <= j < |FenceSpans(s, from)| ==>
      var m := FenceSpans(s, from)[j];
      FenceAt(s, m.0, m.1, m.2)
    decreases |s| - from
  {
    NextFenceIsPattern(s, from);
    var m := NextFence(s, from);
    if m.Some? {
      FenceSpansMatch(s, m.value.2 + 4);
      var r, r' := FenceSpans(s, from), FenceSpans(s, m.value.2 + 4);
      assert r == [m.value] + r';
      forall j | 0 < j < |r| ensures FenceAt(s, r[j].0, r[j].1, r[j].2) {
        assert r[j] == r'[j - 1];
      }
    }
  }

  /** The record of the match `m`: `match[1].trim()` and `match[2].trim()`. */
  function BlockAt(s: string, m: (nat, nat, nat)): CodeBlock
    requires InBounds(s, m)
  {
    CodeBlock(TrimSlice(s, m.0 + 3, m.1), TrimSlice(s, m.1 + 1, m.2))
  }

  /** The tag of a match is lowercase. */
  lemma TagIsLowercase(s: string, i: nat, te: nat, k: nat)
    requires FenceAt(s, i, te, k)
    ensures All(s[i + 3..te], IsLowerAlpha)
  {
    var tag := s[i + 3..te];
    forall j | 0 <= j < |tag| ensures IsLowerAlpha(tag[j]) {
      assert tag[j] == s[i + 3 + j];
    }
  }

  /** Trimming leaves the lowercase tag of a match as it is, since letters are not whitespace. */
  lemma BlockAtTag(s: string, m: (nat, nat, nat))
    requires InBounds(s, m) && FenceAt(s, m.0, m.1, m.2)
    ensures BlockAt(s, m).fileType == s[m.0 + 3..m.1] && All(BlockAt(s, m).fileType, IsLowerAlpha)
  {
    var tag := s[m.0 + 3..m.1];
    TagIsLowercase(s, m.0, m.1, m.2);
    if tag != [] {
      assert IsLowerAlpha(tag[0]) && IsLowerAlpha(tag[|tag| - 1]);
      assert tag[0] == s[m.0 + 3] && tag[|tag| - 1] == s[m.1 - 1];
    }
    TrimSliceUnchanged(s, m.0 + 3, m.1);
  }

  /** The content starts and ends outside `\s`. */
  lemma BlockAtContentTrimmed(s: string, m: (nat, nat, nat))
    requires InBounds(s, m)
    ensures Trimmed(BlockAt(s, m).content)
  {
    TrimSliceTrimmed(s, m.1 + 1, m.2);
  }

  /** Every match of `ms` lies inside `s`. */
  predicate AllInBounds(s: string, ms: seq<(nat, nat, nat)>)
  {
    forall j :: 0 <= j < |ms| ==> InBounds(s, ms[j])
  }

  lemma FenceSpansInBounds(s: string, from: nat)
    ensures AllInBounds(s, FenceSpans(s, from))
  {
    FenceSpansOrdered(s, from);
  }

  /** The records of the matches `ms`, in their order. */
  function Records(s: string, ms: seq<(nat, nat, nat)>): seq<CodeBlock>
    requires AllInBounds(s, ms)
  {
    if ms == [] then [] else Records(s, ms[..|ms| - 1]) + [BlockAt(s, ms[|ms| - 1])]
  }

  /** What `extractCodeBlocks(response)` yields: the record of every match, in order. */
  function Blocks(response: string): seq<CodeBlock>
  {
    FenceSpansInBounds(response, 0);
    Records(response, FenceSpans(response, 0))
  }

  /** One record per match, the record of that match. */
  lemma {:induction false} RecordsAt(s: string, ms: seq<(nat, nat, nat)>)
    requires AllInBounds(s, ms)
    ensures |Records(s, ms)| == |ms|
    ensures forall j :: 0 <= j < |ms| ==> Records(s, ms)[j] == BlockAt(s, ms[j])
  {
    if ms != [] {
      var init := ms[..|ms| - 1];
      RecordsAt(s, init);
      forall j | 0 <= j < |ms| - 1 ensures Records(s, ms)[j] == BlockAt(s, ms[j]) {
        assert ms[j] == init[j];
      }
    }
  }

  /** The `j`-th record holds the tag of the `j`-th match, lowercase, and its body, trimmed. */
  lemma BlockIsMatch(s: string, j: nat)
    requires j < |FenceSpans(s, 0)|
    ensures |Blocks(s)| == |FenceSpans(s, 0)| && InBounds(s, FenceSpans(s, 0)[j])
    ensures var m := FenceSpans(s, 0)[j];
      Blocks(s)[j].fileType == s[m.0 + 3..m.1] && Blocks(s)[j].content == Trim(s[m.1 + 1..m.2])
    ensures WellFormed(Blocks(s)[j])
  {
    var ms := FenceSpans(s, 0);
    FenceSpansInBounds(s, 0);
    var m := ms[j];
    assert |Blocks(s)| == |ms| && Blocks(s)[j] == BlockAt(s, m) by {
      RecordsAt(s, ms);
    }
    assert FenceAt(s, m.0, m.1, m.2) by {
      FenceSpansMatch(s, 0);
    }
    BlockAtFacts(s, m, Blocks(s)[j]);
  }

  /** The record of one match: its tag and its trimmed body, well formed. */
  lemma BlockAtFacts(s: string, m: (nat, nat, nat), b: CodeBlock)
    requires InBounds(s, m) && FenceAt(s, m.0, m.1, m.2) && b == BlockAt(s, m)
    ensures b.fileType == s[m.0 + 3..m.1] && b.content == Trim(s[m.1 + 1..m.2])
    ensures WellFormed(b)
  {
    BlockAtTag(s, m);
    BlockAtContent(s, m);
    BlockAtContentTrimmed(s, m);
  }

  /** The content of a match's record is `match[2].trim()`. */
  lemma BlockAtContent(s: string, m: (nat, nat, nat))
    requires InBounds(s, m)
    ensures BlockAt(s, m).content == Trim(s[m.1 + 1..m.2])
  {
    ContentIsTrim(s, m.1 + 1, m.2, BlockAt(s, m).content);
  }

  /** Every record has a lowercase tag and trimmed content. */
  lemma BlocksWellFormed(s: string)
    ensures forall j :: 0 <= j < |Blocks(s)| ==> WellFormed(Blocks(s)[j])
  {
    FenceSpansInBounds(s, 0);
    RecordsAt(s, FenceSpans(s, 0));
    forall j | 0 <= j < |Blocks(s)| ensures WellFormed(Blocks(s)[j]) {
      BlockIsMatch(s, j);
    }
  }

  /** Appending one match appends its record. */
  lemma RecordsSnoc(s: string, ms: seq<(nat, nat, nat)>, m: (nat, nat, nat))
    requires AllInBounds(s, ms) && InBounds(s, m)
    ensures AllInBounds(s, ms + [m])
    ensures Records(s, ms + [m]) == Records(s, ms) + [BlockAt(s, m)]
  {
    assert (ms + [m])[..|ms|] == ms;
  }

  /** The matches from `lastIndex == from`, after the matches `acc` already found. */
  function MatchesAfter(s: string, from: nat, acc: seq<(nat, nat, nat)>): seq<(nat, nat, nat)>
    decreases |s| - from
  {
    match NextFence(s, from)
    case None => acc
    case Some(m) => MatchesAfter(s, m.2 + 4, acc + [m])
  }

  /** The matches found so far come first, followed by the rest. */
  lemma {:induction false} MatchesAfterIsAppend(s: string, from: nat, acc: seq<(nat, nat, nat)>)
    ensures MatchesAfter(s, from, acc) == acc + FenceSpans(s, from)
    decreases |s| - from
  {
    var m := NextFence(s, from);
    if m.Some? {
      MatchesAfterIsAppend(s, m.value.2 + 4, acc + [m.value]);
      assert acc + [m.value] + FenceSpans(s, m.value.2 + 4) == acc + ([m.value] + FenceSpans(s, m.value.2 + 4));
    } else {
      assert acc + [] == acc;
    }
  }

  /** One `exec` that matches: the scan resumes after its closing fence. */
  lemma MatchesAfterStep(s: string, from: nat, acc: seq<(nat, nat, nat)>, m: (nat, nat, nat))
    requires NextFence(s, from) == Some(m)
    ensures from < m.2 + 4 && InBounds(s, m)
    ensures MatchesAfter(s, from, acc) == MatchesAfter(s, m.2 + 4, acc + [m])
  {
  }

  /** What the `exec` loop keeps: `done` holds the matches found before `lastIndex`, and
      `blocks` their records. */
  ghost predicate ScanInvariant(s: string, lastIndex: nat, done: seq<(nat, nat, nat)>, blocks: seq<CodeBlock>)
  {
    MatchesAfter(s, lastIndex, done) == MatchesAfter(s, 0, []) &&
    AllInBounds(s, done) && blocks == Records(s, done)
  }

  /** One `exec` that matches keeps the invariant, with its record appended. */
  lemma ScanStep(s: string, lastIndex: nat, done: seq<(nat, nat, nat)>, blocks: seq<CodeBlock>,
                 m: (nat, nat, nat))
    requires ScanInvariant(s, lastIndex, done, blocks) && NextFence(s, lastIndex) == Some(m)
    ensures lastIndex < m.2 + 4 && InBounds(s, m)
    ensures ScanInvariant(s, m.2 + 4, done + [m], blocks + [BlockAt(s, m)])
  {
    MatchesAfterStep(s, lastIndex, done, m);
    RecordsSnoc(s, done, m);
  }

  /** An `exec` that fails ends the scan with every record. */
  lemma ScanEnd(s: string, lastIndex: nat, done: seq<(nat, nat, nat)>, blocks: seq<CodeBlock>)
    requires ScanInvariant(s, lastIndex, done, blocks) && NextFence(s, lastIndex).None?
    ensures blocks == Blocks(s)
  {
    MatchesAfterIsAppend(s, 0, []);
    assert [] + FenceSpans(s, 0) == FenceSpans(s, 0);
  }

  /** src/extractCodeBlocks.ts:9-20: the `exec` loop, each match's record yielded in turn. The
      sequence stands for the generator, consumed eagerly; `done` holds the matches so far. */
  method ExtractCodeBlocks(response: string) returns (blocks: seq<CodeBlock>)
    ensures blocks == Blocks(response)
  {
    blocks := [];
    var lastIndex: nat := 0;
    ghost var done: seq<(nat, nat, nat)> := [];
    var found := NextFence(response, lastIndex);
    while found.Some?
      invariant ScanInvariant(response, lastIndex, done, blocks)
      invariant found == NextFence(response, lastIndex)
      decreases |response| - lastIndex
    {
      ScanStep(response, lastIndex, done, blocks, found.value);
      var block := BlockAt(response, found.value);
      blocks := blocks + [block];
      done := done + [found.value];
      lastIndex := found.value.2 + 4;
      found := NextFence(response, lastIndex);
    }
    ScanEnd(response, lastIndex, done, blocks);
  }

  // ---------------------------------------------------------------------------------------------
  // The matches behind the records

  /** The raw body of every match holds no `\n````: the lazy body stops at the first one. */
  lemma RawBodyHasNoFence(s: string, j: nat)
    requires j < |FenceSpans(s, 0)|
    ensures var m := FenceSpans(s, 0)[j];
      forall x: nat :: m.1 < x < m.2 ==> !CloseAt(s, x)
  {
    FenceSpansMatch(s, 0);
  }

  /** Between two matches, before the first and after the last, the pattern matches nowhere the
      scan looks. */
  lemma {:induction false} FenceSpansLeftmost(s: string, from: nat)
    ensures var r := FenceSpans(s, from);
      (|r| > 0 ==> forall i: nat :: from <= i < r[0].0 ==> NoFenceAt(s, i)) &&
      (forall j, i: nat :: 0 < j < |r| && r[j - 1].2 + 4 <= i < r[j].0 ==> NoFenceAt(s, i)) &&
      (|r| == 0 ==> forall i: nat :: from <= i ==> NoFenceAt(s, i)) &&
      (|r| > 0 ==> forall i: nat :: r[|r| - 1].2 + 4 <= i ==> NoFenceAt(s, i))
    decreases |s| - from
  {
    NextFenceIsPattern(s, from);
    var m := NextFence(s, from);
    if m.Some? {
      FenceSpansLeftmost(s, m.value.2 + 4);
      var r := FenceSpans(s, from);
      var rest := FenceSpans(s, m.value.2 + 4);
      assert r == [m.value] + rest;
      forall j, i: nat | 0 < j < |r| && r[j - 1].2 + 4 <= i < r[j].0 ensures NoFenceAt(s, i) {
        if j > 1 {
          assert r[j - 1] == rest[j - 2] && r[j] == rest[j - 1];
        } else {
          assert r[j] == rest[0];
        }
      }
      if |rest| > 0 {
        assert r[|r| - 1] == rest[|rest| - 1];
      }
    }
  }

  // ---------------------------------------------------------------------------------------------
  // When there is nothing to find

  /** No opening fence at or after `from`, or no closing fence at or after `from`: no match. */
  lemma NoFenceNoSpans(s: string, from: nat)
    requires (forall x: nat :: from <= x ==> !OpenAt(s, x)) ||
             (forall x: nat :: from <= x ==> !CloseAt(s, x))
    ensures FenceSpans(s, from) == []
  {
    NextFenceIsPattern(s, from);
  }

  /** An opening fence with no closing fence anywhere after it starts no match. */
  lemma UnterminatedFence(s: string, i: nat)
    requires OpenAt(s, i)
    requires forall x: nat :: i <= x ==> !CloseAt(s, x)
    ensures FenceSpans(s, i) == []
  {
    NoFenceNoSpans(s, i);
  }

  /** A reply without a backtick has no code block. */
  lemma NoBacktickNoBlocks(s: string)
    requires forall x :: 0 <= x < |s| ==> s[x] != '`'
    ensures Blocks(s) == []
  {
    NoFenceNoSpans(s, 0);
  }
}
