/**
 * The cases of src/extractFilenameFromLine.test.ts, as the code computes them. A quoted line is
 * written as the text before the first quote, the quotes, the quoted pieces and the text after.
 */
module LineFilenameExamples {
  import opened Text
  import opened FilePath
  import opened LineFilename

  // ---------------------------------------------------------------------------------------------
  // The path test on the pieces

  lemma RootedScriptAccepted(s: string)
    requires s == "/path/to/file.js"
    ensures IsFilePath(s)
  {
    AbsoluteBody(s[..13]);
    AcceptedFromPieces(s, 0, 13);
  }

  lemma RelativeTextBody(m: string)
    requires m == "file/path"
    ensures Body(m)
  {
    SegmentsAppend("/path", []);
    assert "/path" + [] == "/path";
    assert m == "file" + "/path";
    RelativeAppend("file", "/path");
  }

  lemma RelativeTextAccepted(s: string)
    requires s == "file/path.txt"
    ensures IsFilePath(s)
  {
    assert forall i :: 0 <= i < |s| ==> IsValidChar(s[i]);
    RelativeTextBody(s[..9]);
    AcceptedFromPieces(s, 0, 9);
  }

  /** `### a` holds no separator, so it is a relative head like any other. */
  lemma HashPrefixedBody(m: string)
    requires m == "### a/file/path"
    ensures Body(m)
  {
    TwoSegments("/file", "/path");
    assert m == "### a" + ("/file" + "/path");
    RelativeAppend("### a", "/file" + "/path");
  }

  lemma HashPrefixedAccepted(s: string)
    requires s == "### a/file/path.txt"
    ensures IsFilePath(s)
  {
    assert forall i :: 0 <= i < |s| ==> IsValidChar(s[i]);
    HashPrefixedBody(s[..15]);
    AcceptedFromPieces(s, 0, 15);
  }

  /** A trailing `.` is not an extension. */
  lemma TrailingDotPieceRejected(s: string)
    requires s == "/@invalid/path."
    ensures !IsFilePath(s)
  {
    AcceptedPathShape(s);
  }

  lemma ProseRejected(s: string)
    requires s == "No file path here!"
    ensures !IsFilePath(s) && All(s, IsNotQuote)
  {
    AcceptedPathShape(s);
    assert forall k :: 0 <= k < |s| ==> IsNotQuote(s[k]);
  }

  lemma HashSuffixedRejected(s: string)
    requires s == "##### a/file/path.txt ###"
    ensures !IsFilePath(s) && All(s, IsNotQuote)
  {
    AcceptedPathShape(s);
    assert forall k :: 0 <= k < |s| ==> IsNotQuote(s[k]);
  }

  // ---------------------------------------------------------------------------------------------
  // The tests

  /** src/extractFilenameFromLine.test.ts:6-9 */
  lemma UnquotedPath(line: string)
    requires line == "/path/to/file.js"
    ensures ExtractFilenameFromLine(line) == Some(line)
  {
    RootedScriptAccepted(line);
  }

  /** src/extractFilenameFromLine.test.ts:11-16 */
  lemma DoubleQuotedPath(line: string, pre: string, name: string, post: string)
    requires pre == "This is a test " && name == "/path/to/file.js" && post == " for extraction."
    requires line == pre + ['"'] + name + ['"'] + post
    ensures ExtractFilenameFromLine(line) == Some(name)
  {
    assert All(pre, IsNotQuote) by {
      assert forall k :: 0 <= k < |pre| ==> IsNotQuote(pre[k]);
    }
    RootedScriptAccepted(name);
    QuotedPathFound(line, pre, '"', name, '"', post);
  }

  /** src/extractFilenameFromLine.test.ts:18-21 */
  lemma NoPathInProse(line: string)
    requires line == "No file path here!"
    ensures ExtractFilenameFromLine(line) == None
  {
    ProseRejected(line);
    UnquotedNonPath(line);
  }

  /** src/extractFilenameFromLine.test.ts:23-28: the first quoted piece ends in a bare `.`. */
  lemma SecondQuotedIsPath(line: string, head: string, rest: string, pre: string, n1: string,
                           mid: string, n2: string, post: string)
    requires pre == "Here is a test: " && n1 == "/@invalid/path." && mid == " and then this one "
    requires n2 == "/path/to/file.js" && post == "."
    requires head == pre + ['"'] + n1 + ['"'] && rest == mid + ['"'] + n2 + ['"'] + post
    requires line == head + rest
    ensures ExtractFilenameFromLine(line) == Some(n2)
  {
    assert All(pre, IsNotQuote) by {
      assert forall k :: 0 <= k < |pre| ==> IsNotQuote(pre[k]);
    }
    assert All(mid, IsNotQuote) by {
      assert forall k :: 0 <= k < |mid| ==> IsNotQuote(mid[k]);
    }
    assert All(n1, IsNotQuote) by {
      assert forall k :: 0 <= k < |n1| ==> IsNotQuote(n1[k]);
    }
    TrailingDotPieceRejected(n1);
    RootedScriptAccepted(n2);
    SecondQuotedPathFound(line, head, rest, pre, '"', n1, '"', mid, '"', n2, '"', post);
  }

  /** src/extractFilenameFromLine.test.ts:30-35; the text before the quote is written in two
      pieces. */
  lemma SingleQuotedPath(line: string, pre1: string, pre2: string, name: string)
    requires pre1 == "Here is a test with a " && pre2 == "single quoted file path: "
    requires name == "/path/to/file.js"
    requires line == (pre1 + pre2) + ['\''] + name + ['\''] + []
    ensures ExtractFilenameFromLine(line) == Some(name)
  {
    assert All(pre1, IsNotQuote) by {
      assert forall k :: 0 <= k < |pre1| ==> IsNotQuote(pre1[k]);
    }
    assert All(pre2, IsNotQuote) by {
      assert forall k :: 0 <= k < |pre2| ==> IsNotQuote(pre2[k]);
    }
    AllConcat(pre1, pre2, IsNotQuote);
    RootedScriptAccepted(name);
    QuotedPathFound(line, pre1 + pre2, '\'', name, '\'', []);
  }

  /** src/extractFilenameFromLine.test.ts:37-42 */
  lemma BacktickQuotedPath(line: string, pre: string, name: string, post: string)
    requires pre == "Using a backtick: " && name == "/path/to/file.js" && post == "."
    requires line == pre + ['`'] + name + ['`'] + post
    ensures ExtractFilenameFromLine(line) == Some(name)
  {
    assert All(pre, IsNotQuote) by {
      assert forall k :: 0 <= k < |pre| ==> IsNotQuote(pre[k]);
    }
    RootedScriptAccepted(name);
    QuotedPathFound(line, pre, '`', name, '`', post);
  }

  /** src/extractFilenameFromLine.test.ts:44-47 */
  lemma EmptyLine()
    ensures ExtractFilenameFromLine("") == None
  {
    UnquotedNonPath("");
  }

  /** src/extractFilenameFromLine.test.ts:49-54 */
  lemma QuotedRelativePath(line: string, pre: string, name: string, post: string)
    requires pre == "A quoted text " && name == "file/path.txt" && post == " that is valid."
    requires line == pre + ['"'] + name + ['"'] + post
    ensures ExtractFilenameFromLine(line) == Some(name)
  {
    assert All(pre, IsNotQuote) by {
      assert forall k :: 0 <= k < |pre| ==> IsNotQuote(pre[k]);
    }
    RelativeTextAccepted(name);
    QuotedPathFound(line, pre, '"', name, '"', post);
  }

  /** src/extractFilenameFromLine.test.ts:56-59 expects `a/file/path.txt`; the code returns the
      whole line, which passes the path test. */
  lemma HashPrefixedLine(line: string)
    requires line == "### a/file/path.txt"
    ensures ExtractFilenameFromLine(line) == Some(line)
  {
    HashPrefixedAccepted(line);
  }

  /** src/extractFilenameFromLine.test.ts:61-64 expects `a/file/path.txt`; the code finds
      nothing: the line ends in `#`, and it has no quotes. */
  lemma HashSuffixedLine(line: string)
    requires line == "##### a/file/path.txt ###"
    ensures ExtractFilenameFromLine(line) == None
  {
    HashSuffixedRejected(line);
    UnquotedNonPath(line);
  }
}
