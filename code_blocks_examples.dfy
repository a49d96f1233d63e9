/**
 * The cases of src/extractCodeBlocks.test.ts, as the code computes them (the records carry no
 * `previousLine`). Each reply is written as its pieces: the text between the blocks, and the
 * tag and the body of every block.
 */
module CodeBlocksExamples {
  import opened Text
  import opened CodeBlocks

  /** `x` holds no backtick, so no fence starts inside it. */
  predicate NoBacktick(x: string)
  {
    forall k :: 0 <= k < |x| ==> x[k] != '`'
  }

  /** No line feed in `x` is followed by a backtick, so no closing fence starts inside it. */
  predicate NoFenceInBody(x: string)
  {
    forall k :: 0 <= k < |x| - 1 ==> x[k] == '\n' ==> x[k + 1] != '`'
  }

  // ---------------------------------------------------------------------------------------------
  // The scan over a reply laid out in pieces

  /** Positions without a backtick are passed over. */
  lemma {:induction false} NextFenceSkips(s: string, from: nat, i: nat)
    requires from <= i <= |s|
    requires forall x :: from <= x < i ==> s[x] != '`'
    ensures NextFence(s, from) == NextFence(s, i)
    decreases i - from
  {
    if from < i {
      assert !OpenAt(s, from);
      NextFenceSkips(s, from + 1, i);
    }
  }

  /** `s` spells `w` from index `i` on. */
  predicate SpelledAt(s: string, i: nat, w: string)
  {
    i + |w| <= |s| && forall x :: 0 <= x < |w| ==> s[i + x] == w[x]
  }

  /** The text of one block. */
  function FenceText(tag: string, body: string): (t: string)
    ensures |t| == |tag| + |body| + 8
  {
    "```" + tag + "\n" + body + "\n```"
  }

  /** `s` holds the block of `tag` and `body` at `i`, piece by piece. */
  predicate BlockSpelledAt(s: string, i: nat, tag: string, body: string)
  {
    i + |tag| + |body| + 8 <= |s| && OpenAt(s, i) && SpelledAt(s, i + 3, tag)
    && s[i + 3 + |tag|] == '\n' && SpelledAt(s, i + 4 + |tag|, body)
    && CloseAt(s, i + 4 + |tag| + |body|)
  }

  /** The pieces of a block spelled at `i`. */
  lemma FencePieces(s: string, i: nat, tag: string, body: string)
    requires SpelledAt(s, i, FenceText(tag, body))
    ensures BlockSpelledAt(s, i, tag, body)
  {
    var t := FenceText(tag, body);
    assert t == ("```" + tag) + "\n" + (body + "\n```");
    var te := i + 3 + |tag|;
    var k := te + 1 + |body|;
    assert s[i] == t[0] && s[i + 1] == t[1] && s[i + 2] == t[2] && s[te] == t[3 + |tag|];
    assert s[k] == t[|t| - 4] && s[k + 1] == t[|t| - 3] && s[k + 2] == t[|t| - 2];
    assert s[k + 3] == t[|t| - 1];
    forall x | 0 <= x < |tag| ensures s[i + 3 + x] == tag[x] {
      assert s[i + 3 + x] == t[3 + x];
    }
    forall x | 0 <= x < |body| ensures s[te + 1 + x] == body[x] {
      assert s[te + 1 + x] == t[4 + |tag| + x];
    }
  }

  /** Where `s` spells a block at `i`, the pattern matches there. */
  lemma FenceMatch(s: string, i: nat, tag: string, body: string)
    requires BlockSpelledAt(s, i, tag, body)
    requires All(tag, IsLowerAlpha) && NoFenceInBody(body)
    ensures FenceAt(s, i, i + 3 + |tag|, i + 4 + |tag| + |body|)
  {
    var te := i + 3 + |tag|;
    var k := te + 1 + |body|;
    assert Run(s, i + 3, te, IsLowerAlpha) by {
      forall x | i + 3 <= x < te ensures IsLowerAlpha(s[x]) {
        assert s[x] == tag[x - i - 3];
      }
    }
    assert NoCloseIn(s, te + 1, k) by {
      forall x: nat | te + 1 <= x < k ensures !CloseAt(s, x) {
        if x + 1 < k {
          assert s[x] == body[x - te - 1] && s[x + 1] == body[x + 1 - te - 1];
        }
      }
    }
  }

  /** The record of a match whose tag and body are already trimmed. */
  lemma RecordOf(s: string, m: (nat, nat, nat), tag: string, body: string)
    requires InBounds(s, m) && s[m.0 + 3..m.1] == tag && s[m.1 + 1..m.2] == body
    requires All(tag, IsLowerAlpha) && Trimmed(body)
    ensures BlockAt(s, m) == CodeBlock(tag, body)
  {
    if m.0 + 3 < m.1 {
      assert s[m.0 + 3] == tag[0] && s[m.1 - 1] == tag[|tag| - 1];
    }
    TrimSliceUnchanged(s, m.0 + 3, m.1);
    if m.1 + 1 < m.2 {
      assert s[m.1 + 1] == body[0] && s[m.2 - 1] == body[|body| - 1];
    }
    TrimSliceUnchanged(s, m.1 + 1, m.2);
  }

  /** A block after a gap without backticks is the next match. */
  lemma FenceHere(s: string, from: nat, i: nat, tag: string, body: string)
    requires from <= i && BlockSpelledAt(s, i, tag, body)
    requires forall x :: from <= x < i ==> s[x] != '`'
    requires All(tag, IsLowerAlpha) && NoFenceInBody(body) && Trimmed(body)
    ensures var te := i + 3 + |tag|;
      var k := te + 1 + |body|;
      NextFence(s, from) == Some((i, te, k)) && InBounds(s, (i, te, k))
      && s[i + 3..te] == tag && s[te + 1..k] == body
  {
    FenceMatch(s, i, tag, body);
    SliceIs(s, i + 3, tag);
    SliceIs(s, i + 4 + |tag|, body);
    FenceAtForced(s, i, i + 3 + |tag|, i + 4 + |tag| + |body|);
    NextFenceSkips(s, from, i);
  }

  /** After the last block, text without backticks holds no match. */
  lemma NoFenceAfter(s: string, from: nat)
    requires forall x :: from <= x < |s| ==> s[x] != '`'
    ensures FenceSpans(s, from) == []
  {
    NoFenceNoSpans(s, from);
  }

  /** A string spells its two halves. */
  lemma SpelledSplit(s: string, i: nat, a: string, b: string)
    requires SpelledAt(s, i, a + b)
    ensures SpelledAt(s, i, a) && SpelledAt(s, i + |a|, b)
  {
    assert forall x :: 0 <= x < |a| ==> (a + b)[x] == a[x];
    assert forall x :: 0 <= x < |b| ==> (a + b)[|a| + x] == b[x];
  }

  /** Where `s` spells text without backticks, it has none. */
  lemma SpelledNoBacktick(s: string, i: nat, w: string)
    requires SpelledAt(s, i, w) && NoBacktick(w)
    ensures forall x :: i <= x < i + |w| ==> s[x] != '`'
  {
    forall x | i <= x < i + |w| ensures s[x] != '`' {
      assert s[x] == w[x - i];
    }
  }

  /** A reply whose only match is `m`. */
  lemma OnlyMatch(s: string, m: (nat, nat, nat), e: nat, tag: string, body: string)
    requires NextFence(s, 0) == Some(m) && e == m.2 + 4 && FenceSpans(s, e) == []
    requires InBounds(s, m) && s[m.0 + 3..m.1] == tag && s[m.1 + 1..m.2] == body
    requires All(tag, IsLowerAlpha) && Trimmed(body)
    ensures Blocks(s) == [CodeBlock(tag, body)]
  {
    RecordOf(s, m, tag, body);
    assert FenceSpans(s, 0) == [m];
    assert Records(s, [m]) == Records(s, []) + [BlockAt(s, m)];
  }

  /** A reply whose only matches are `m1` and then `m2`. */
  lemma TwoSpans(s: string, m1: (nat, nat, nat), e1: nat, m2: (nat, nat, nat), e2: nat)
    requires NextFence(s, 0) == Some(m1) && e1 == m1.2 + 4 && NextFence(s, e1) == Some(m2)
    requires e2 == m2.2 + 4 && FenceSpans(s, e2) == []
    ensures InBounds(s, m1) && InBounds(s, m2) && Blocks(s) == [BlockAt(s, m1), BlockAt(s, m2)]
  {
    var ms := FenceSpans(s, 0);
    assert ms == [m1, m2] by { SpansOfTwo(s, m1, e1, m2, e2); }
    FenceSpansInBounds(s, 0);
    assert InBounds(s, ms[0]) && InBounds(s, ms[1]);
    RecordsOfTwo(s, m1, m2);
  }

  /** Two successive matches and nothing after them give exactly those two spans. */
  lemma SpansOfTwo(s: string, m1: (nat, nat, nat), e1: nat, m2: (nat, nat, nat), e2: nat)
    requires NextFence(s, 0) == Some(m1) && e1 == m1.2 + 4 && NextFence(s, e1) == Some(m2)
    requires e2 == m2.2 + 4 && FenceSpans(s, e2) == []
    ensures FenceSpans(s, 0) == [m1, m2]
  {
    assert FenceSpans(s, e1) == [m2];
  }

  /** The records of two matches are their two records. */
  lemma RecordsOfTwo(s: string, m1: (nat, nat, nat), m2: (nat, nat, nat))
    requires InBounds(s, m1) && InBounds(s, m2)
    ensures Records(s, [m1, m2]) == [BlockAt(s, m1), BlockAt(s, m2)]
  {
    assert [m1, m2][..1] == [m1];
    assert Records(s, [m1]) == Records(s, []) + [BlockAt(s, m1)];
  }

  lemma TwoMatches(s: string, m1: (nat, nat, nat), e1: nat, m2: (nat, nat, nat), e2: nat,
                    tag1: string, body1: string, tag2: string, body2: string)
    requires NextFence(s, 0) == Some(m1) && e1 == m1.2 + 4 && NextFence(s, e1) == Some(m2)
    requires e2 == m2.2 + 4 && FenceSpans(s, e2) == []
    requires InBounds(s, m1) && s[m1.0 + 3..m1.1] == tag1 && s[m1.1 + 1..m1.2] == body1
    requires InBounds(s, m2) && s[m2.0 + 3..m2.1] == tag2 && s[m2.1 + 1..m2.2] == body2
    requires All(tag1, IsLowerAlpha) && Trimmed(body1) && All(tag2, IsLowerAlpha) && Trimmed(body2)
    ensures Blocks(s) == [CodeBlock(tag1, body1), CodeBlock(tag2, body2)]
  {
    TwoSpans(s, m1, e1, m2, e2);
    RecordOf(s, m1, tag1, body1);
    RecordOf(s, m2, tag2, body2);
  }

  /** A concatenation spells its parts at their offsets. */
  lemma SpelledThree(s: string, a: string, b: string, c: string)
    requires s == a + b + c
    ensures SpelledAt(s, 0, a) && SpelledAt(s, |a|, b) && SpelledAt(s, |a| + |b|, c)
    ensures |s| == |a| + |b| + |c|
  {
    assert SpelledAt(s, 0, s);
    SpelledSplit(s, 0, a + b, c);
    SpelledSplit(s, 0, a, b);
  }

  /** A gap without backticks and a block, spelled from `from` on: the scan's next match. */
  lemma GapThenBlock(s: string, from: nat, gap: string, tag: string, body: string)
      returns (m: (nat, nat, nat))
    requires SpelledAt(s, from, gap) && BlockSpelledAt(s, from + |gap|, tag, body)
    requires NoBacktick(gap) && All(tag, IsLowerAlpha) && NoFenceInBody(body) && Trimmed(body)
    ensures NextFence(s, from) == Some(m) && m.2 + 4 == from + |gap| + |tag| + |body| + 8
    ensures InBounds(s, m) && s[m.0 + 3..m.1] == tag && s[m.1 + 1..m.2] == body
  {
    SpelledNoBacktick(s, from, gap);
    FenceHere(s, from, from + |gap|, tag, body);
    m := (from + |gap|, from + |gap| + 3 + |tag|, from + |gap| + 4 + |tag| + |body|);
  }

  /** A gap without backticks, a block and text without backticks to the end of `s`, spelled
      from `from` on: the scan's last match. */
  lemma LastBlock(s: string, from: nat, gap: string, tag: string, body: string, rest: string)
      returns (m: (nat, nat, nat), e: nat)
    requires SpelledAt(s, from, gap) && BlockSpelledAt(s, from + |gap|, tag, body)
    requires SpelledAt(s, from + |gap| + |tag| + |body| + 8, rest)
    requires |s| == from + |gap| + |tag| + |body| + 8 + |rest|
    requires NoBacktick(gap) && All(tag, IsLowerAlpha) && NoFenceInBody(body) && Trimmed(body)
    requires NoBacktick(rest)
    ensures NextFence(s, from) == Some(m) && e == m.2 + 4 && FenceSpans(s, e) == []
    ensures InBounds(s, m) && s[m.0 + 3..m.1] == tag && s[m.1 + 1..m.2] == body
  {
    m := GapThenBlock(s, from, gap, tag, body);
    e := m.2 + 4;
    SpelledNoBacktick(s, e, rest);
    NoFenceAfter(s, e);
  }

  /** A reply holding exactly one block, `gap + FenceText(tag, body) + rest`. */
  lemma OneBlock(s: string, gap: string, tag: string, body: string, rest: string)
    requires SpelledAt(s, 0, gap) && BlockSpelledAt(s, |gap|, tag, body)
    requires SpelledAt(s, |gap| + |tag| + |body| + 8, rest)
    requires |s| == |gap| + |tag| + |body| + 8 + |rest|
    requires NoBacktick(gap) && All(tag, IsLowerAlpha) && NoFenceInBody(body) && Trimmed(body)
    requires NoBacktick(rest)
    ensures Blocks(s) == [CodeBlock(tag, body)]
  {
    var m, e := LastBlock(s, 0, gap, tag, body, rest);
    OnlyMatch(s, m, e, tag, body);
  }

  // ---------------------------------------------------------------------------------------------
  // The tests

  /** A single line holds no closing fence. */
  lemma LineClear(x: string)
    requires forall k :: 0 <= k < |x| ==> x[k] != '\n'
    ensures NoFenceInBody(x)
  {
  }

  /** Two bodies joined by a line feed hold no closing fence when the second does not start with
      a backtick. */
  lemma JoinClear(a: string, b: string)
    requires NoFenceInBody(a) && NoFenceInBody(b) && b != [] && b[0] != '`'
    ensures NoFenceInBody(a + "\n" + b)
  {
    var x := a + "\n" + b;
    forall k | 0 <= k < |x| - 1 && x[k] == '\n' ensures x[k + 1] != '`' {
      if k + 1 < |a| {
        assert x[k] == a[k] && x[k + 1] == a[k + 1];
      } else if k + 1 > |a| + 1 {
        assert x[k] == b[k - |a| - 1] && x[k + 1] == b[k + 1 - |a| - 1];
      }
    }
  }

  /** Two lines joined by a line feed are trimmed when the first starts and the second ends
      outside `\s`. */
  lemma JoinTrimmed(a: string, b: string)
    requires a != [] && b != [] && IsNonSpace(a[0]) && IsNonSpace(b[|b| - 1])
    ensures Trimmed(a + "\n" + b)
  {
    var x := a + "\n" + b;
    assert x[0] == a[0] && x[|x| - 1] == b[|b| - 1];
  }

  /** The TypeScript body of src/extractCodeBlocks.test.ts:26-91, line by line. */
  lemma GreetScript(l1: string, l2: string, l3: string)
    requires l1 == "const greet = (name: string) => {" && l2 == "  console.log(`Hello, ${name}!`);"
    requires l3 == "};"
    ensures NoFenceInBody(l1 + "\n" + l2 + "\n" + l3) && Trimmed(l1 + "\n" + l2 + "\n" + l3)
  {
    assert forall k :: 0 <= k < |l1| ==> l1[k] != '\n';
    assert forall k :: 0 <= k < |l2| ==> l2[k] != '\n';
    assert forall k :: 0 <= k < |l3| ==> l3[k] != '\n';
    LineClear(l1);
    LineClear(l2);
    LineClear(l3);
    JoinClear(l1, l2);
    JoinClear(l1 + "\n" + l2, l3);
    JoinTrimmed(l1 + "\n" + l2, l3);
  }

  /** The Python body of src/extractCodeBlocks.test.ts:26-91, line by line. */
  lemma GreetPython(l1: string, l2: string)
    requires l1 == "def greet(name):" && l2 == "  print(f\"Hello, {name}!\")"
    ensures NoFenceInBody(l1 + "\n" + l2) && Trimmed(l1 + "\n" + l2)
  {
    assert forall k :: 0 <= k < |l1| ==> l1[k] != '\n';
    assert forall k :: 0 <= k < |l2| ==> l2[k] != '\n';
    LineClear(l1);
    LineClear(l2);
    JoinClear(l1, l2);
    JoinTrimmed(l1, l2);
  }

  /** The tags of src/extractCodeBlocks.test.ts:26-91. */
  lemma GreetTags(tag1: string, tag2: string)
    requires tag1 == "typescript" && tag2 == "python"
    ensures All(tag1, IsLowerAlpha) && All(tag2, IsLowerAlpha)
  {
    assert forall k :: 0 <= k < |tag1| ==> IsLowerAlpha(tag1[k]);
    assert forall k :: 0 <= k < |tag2| ==> IsLowerAlpha(tag2[k]);
  }

  /** What `w` spells, `s` spells too where it spells `w`. */
  lemma SpelledWithin(s: string, i: nat, w: string, j: nat, v: string)
    requires SpelledAt(s, i, w) && SpelledAt(w, j, v)
    ensures SpelledAt(s, i + j, v)
  {
    forall x | 0 <= x < |v| ensures s[i + j + x] == v[x] {
      assert w[j + x] == v[x];
    }
  }

  /** After the first block: the second block and the text around it, spelled from `e1` on. */
  lemma TailPieces(s: string, e1: nat, tail: string, mid: string, tag: string, body: string,
                   rest: string)
    requires SpelledAt(s, e1, tail) && |s| == e1 + |tail|
    requires tail == mid + FenceText(tag, body) + rest
    ensures SpelledAt(s, e1, mid) && BlockSpelledAt(s, e1 + |mid|, tag, body)
    ensures SpelledAt(s, e1 + |mid| + |tag| + |body| + 8, rest)
    ensures |s| == e1 + |mid| + |tag| + |body| + 8 + |rest|
  {
    var t := FenceText(tag, body);
    SpelledThree(tail, mid, t, rest);
    SpelledWithin(s, e1, tail, 0, mid);
    SpelledWithin(s, e1, tail, |mid|, t);
    SpelledWithin(s, e1, tail, |mid| + |t|, rest);
    FencePieces(s, e1 + |mid|, tag, body);
  }

  /** The second and last block of a reply, after the first ends at `e1`. */
  lemma SecondBlock(s: string, m1: (nat, nat, nat), e1: nat, tag1: string, body1: string,
                    tail: string, mid: string, tag2: string, body2: string, rest: string)
    requires NextFence(s, 0) == Some(m1) && e1 == m1.2 + 4
    requires InBounds(s, m1) && s[m1.0 + 3..m1.1] == tag1 && s[m1.1 + 1..m1.2] == body1
    requires SpelledAt(s, e1, tail) && |s| == e1 + |tail|
    requires tail == mid + FenceText(tag2, body2) + rest
    requires All(tag1, IsLowerAlpha) && Trimmed(body1)
    requires NoBacktick(mid) && All(tag2, IsLowerAlpha) && NoFenceInBody(body2) && Trimmed(body2)
    requires NoBacktick(rest)
    ensures Blocks(s) == [CodeBlock(tag1, body1), CodeBlock(tag2, body2)]
  {
    TailPieces(s, e1, tail, mid, tag2, body2, rest);
    var m2, e := LastBlock(s, e1, mid, tag2, body2, rest);
    TwoMatches(s, m1, e1, m2, e, tag1, body1, tag2, body2);
  }

  /** A block followed by a tail that holds one more block. */
  lemma BlockThenTail(s: string, gap: string, tag1: string, body1: string, tail: string,
                      mid: string, tag2: string, body2: string, rest: string)
    requires s == gap + FenceText(tag1, body1) + tail
    requires tail == mid + FenceText(tag2, body2) + rest
    requires NoBacktick(gap) && All(tag1, IsLowerAlpha) && NoFenceInBody(body1) && Trimmed(body1)
    requires NoBacktick(mid) && All(tag2, IsLowerAlpha) && NoFenceInBody(body2) && Trimmed(body2)
    requires NoBacktick(rest)
    ensures Blocks(s) == [CodeBlock(tag1, body1), CodeBlock(tag2, body2)]
  {
    SpelledThree(s, gap, FenceText(tag1, body1), tail);
    FencePieces(s, |gap|, tag1, body1);
    var m1 := GapThenBlock(s, 0, gap, tag1, body1);
    SecondBlock(s, m1, m1.2 + 4, tag1, body1, tail, mid, tag2, body2, rest);
  }

  /** A reply of two blocks, from its literal pieces. */
  lemma TwoBlockReply(s: string, gap: string, tag1: string, body1: string, mid: string,
                      tag2: string, body2: string, rest: string)
    requires s == gap + FenceText(tag1, body1) + mid + FenceText(tag2, body2) + rest
    requires NoBacktick(gap) && All(tag1, IsLowerAlpha) && NoFenceInBody(body1) && Trimmed(body1)
    requires NoBacktick(mid) && All(tag2, IsLowerAlpha) && NoFenceInBody(body2) && Trimmed(body2)
    requires NoBacktick(rest)
    ensures Blocks(s) == [CodeBlock(tag1, body1), CodeBlock(tag2, body2)]
  {
    var tail := mid + FenceText(tag2, body2) + rest;
    assert s == gap + FenceText(tag1, body1) + tail;
    BlockThenTail(s, gap, tag1, body1, tail, mid, tag2, body2, rest);
  }

  /** A reply of one block, from its literal pieces. */
  lemma OneBlockReply(s: string, gap: string, tag: string, body: string, rest: string)
    requires s == gap + FenceText(tag, body) + rest
    requires NoBacktick(gap) && All(tag, IsLowerAlpha) && NoFenceInBody(body) && Trimmed(body)
    requires NoBacktick(rest)
    ensures Blocks(s) == [CodeBlock(tag, body)]
  {
    SpelledThree(s, gap, FenceText(tag, body), rest);
    FencePieces(s, |gap|, tag, body);
    OneBlock(s, gap, tag, body, rest);
  }

  /** src/extractCodeBlocks.test.ts:5-24 */
  lemma JavaScriptBlock(s: string, gap: string, tag: string, body: string, rest: string)
    requires gap == "\nHere is some JavaScript code:\n\n" && tag == "javascript"
    requires body == "console.log(\"Hello, World!\");" && rest == "\n"
    requires s == gap + FenceText(tag, body) + rest
    ensures Blocks(s) == [CodeBlock("javascript", "console.log(\"Hello, World!\");")]
  {
    assert forall k :: 0 <= k < |tag| ==> IsLowerAlpha(tag[k]);
    OneBlockReply(s, gap, tag, body, rest);
  }

  /** src/extractCodeBlocks.test.ts:26-60 */
  lemma TwoBlocksWithProse(s: string, gap: string, mid: string, rest: string,
                           l1: string, l2: string, l3: string, p1: string, p2: string)
    requires gap == "\nHere is some TypeScript code:\n\n" && mid == "\n\nAnd here is some Python:\n\n"
    requires rest == "\n  "
    requires l1 == "const greet = (name: string) => {" && l2 == "  console.log(`Hello, ${name}!`);"
    requires l3 == "};"
    requires p1 == "def greet(name):" && p2 == "  print(f\"Hello, {name}!\")"
    requires s == gap + FenceText("typescript", l1 + "\n" + l2 + "\n" + l3) + mid
                  + FenceText("python", p1 + "\n" + p2) + rest
    ensures Blocks(s) == [CodeBlock("typescript", l1 + "\n" + l2 + "\n" + l3),
                          CodeBlock("python", p1 + "\n" + p2)]
  {
    GreetTags("typescript", "python");
    GreetScript(l1, l2, l3);
    GreetPython(p1, p2);
    TwoBlockReply(s, gap, "typescript", l1 + "\n" + l2 + "\n" + l3, mid, "python", p1 + "\n" + p2, rest);
  }

  /** src/extractCodeBlocks.test.ts:62-91: the second opening fence follows the first closing
      fence after a single line feed. */
  lemma AdjacentBlocks(s: string, gap: string, mid: string, rest: string,
                       l1: string, l2: string, l3: string, p1: string, p2: string)
    requires gap == "\n" && mid == "\n" && rest == "\n  "
    requires l1 == "const greet = (name: string) => {" && l2 == "  console.log(`Hello, ${name}!`);"
    requires l3 == "};"
    requires p1 == "def greet(name):" && p2 == "  print(f\"Hello, {name}!\")"
    requires s == gap + FenceText("typescript", l1 + "\n" + l2 + "\n" + l3) + mid
                  + FenceText("python", p1 + "\n" + p2) + rest
    ensures Blocks(s) == [CodeBlock("typescript", l1 + "\n" + l2 + "\n" + l3),
                          CodeBlock("python", p1 + "\n" + p2)]
  {
    GreetTags("typescript", "python");
    GreetScript(l1, l2, l3);
    GreetPython(p1, p2);
    TwoBlockReply(s, gap, "typescript", l1 + "\n" + l2 + "\n" + l3, mid, "python", p1 + "\n" + p2, rest);
  }

  /** src/extractCodeBlocks.test.ts:93-112 */
  lemma UntypedBlock(s: string, gap: string, body: string, rest: string)
    requires gap == "\nHere is a code block without a type:\n\n"
    requires body == "console.log(\"This is without a type block\");" && rest == "\n  "
    requires s == gap + FenceText("", body) + rest
    ensures Blocks(s) == [CodeBlock("", body)]
  {
    LineClear(body);
    assert IsNonSpace(body[0]) && IsNonSpace(body[|body| - 1]);
    OneBlockReply(s, gap, "", body, rest);
  }

  /** src/extractCodeBlocks.test.ts:114-131 */
  lemma BareBlock(s: string, gap: string, body: string, rest: string)
    requires gap == "\n" && rest == "\n  "
    requires body == "console.log(\"This is without a type block\");"
    requires s == gap + FenceText("", body) + rest
    ensures Blocks(s) == [CodeBlock("", body)]
  {
    LineClear(body);
    assert IsNonSpace(body[0]) && IsNonSpace(body[|body| - 1]);
    OneBlockReply(s, gap, "", body, rest);
  }

  /** src/extractCodeBlocks.test.ts:133-145 */
  lemma ProseOnly(s: string)
    requires s == "\nNo code blocks here, just regular text.\n  "
    ensures Blocks(s) == []
  {
    assert forall x :: 0 <= x < |s| ==> s[x] != '`';
    NoBacktickNoBlocks(s);
  }

  /** src/extractCodeBlocks.test.ts:147-159 */
  lemma BlankInput(s: string)
    requires s == " "
    ensures Blocks(s) == []
  {
    assert s[0] != '`';
    NoBacktickNoBlocks(s);
  }
}
