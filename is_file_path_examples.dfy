/** The cases of src/isFilePath.test.ts, as lemmas about `IsFilePath`. */
module FilePathExamples {
  import opened Text
  import opened FilePath

  // ---------------------------------------------------------------------------------------------
  // The pieces the test paths are made of

  /** `[a-zA-Z]:` */
  predicate DriveText(d: string)
  {
    |d| == 2 && IsAsciiLetter(d[0]) && d[1] == ':'
  }

  /** `[\\/].+` without invalid characters. */
  predicate RootedText(m: string)
  {
    |m| >= 2 && IsSeparator(m[0]) && (forall i :: 1 <= i < |m| ==> IsAnyChar(m[i])) && All(m, IsValidChar)
  }

  /** `[^\\/]+` without invalid characters. */
  predicate RelativeText(h: string)
  {
    |h| >= 1 && All(h, IsNotSeparator) && All(h, IsValidChar)
  }

  /** One `[\\/][\w .-]+` group without invalid characters. */
  ghost predicate GroupText(a: string)
  {
    SegmentPiece(a) && All(a, IsValidChar)
  }

  /** `\w+` */
  predicate ExtensionText(e: string)
  {
    e != [] && All(e, IsWordChar)
  }

  // ---------------------------------------------------------------------------------------------
  // Accepted shapes

  /** A stem without invalid characters, a dot and an extension make an accepted path. */
  lemma StemAccepted(p: string, e: string)
    requires Stem(p) && All(p, IsValidChar) && ExtensionText(e)
    ensures IsFilePath(p + "." + e)
  {
    var s := p + "." + e;
    var k := |p|;
    assert s[..k] == p;
    assert s[k + 1..] == e;
    assert s[k] == '.';
    assert MatchesPathRegex(s);
    forall i | 0 <= i < |s| ensures IsValidChar(s[i]) {
      if i < k {
        assert s[i] == p[i];
      } else if i > k {
        assert s[i] == e[i - k - 1];
      }
    }
    IsFilePathIsPattern(s);
  }

  /** A drive in front of a body is a stem. */
  lemma DriveStem(d: string, m: string)
    requires DriveText(d) && Body(m) && All(m, IsValidChar)
    ensures Stem(d + m) && All(d + m, IsValidChar)
  {
    assert (d + m)[2..] == m;
    assert (d + m)[0] == d[0] && (d + m)[1] == d[1];
    assert All(d, IsValidChar) by {
      assert IsValidChar(d[0]) && IsValidChar(d[1]);
    }
    AllConcat(d, m, IsValidChar);
  }

  lemma RootedAccepted(m: string, e: string)
    requires RootedText(m) && ExtensionText(e)
    ensures IsFilePath(m + "." + e)
  {
    AbsoluteBody(m);
    StemAccepted(m, e);
  }

  lemma DriveRootedAccepted(d: string, m: string, e: string)
    requires DriveText(d) && RootedText(m) && ExtensionText(e)
    ensures IsFilePath(d + m + "." + e)
  {
    AbsoluteBody(m);
    DriveStem(d, m);
    StemAccepted(d + m, e);
  }

  lemma RelativeAccepted(h: string, g: string, e: string)
    requires RelativeText(h) && Segments(g) && All(g, IsValidChar) && ExtensionText(e)
    ensures IsFilePath(h + g + "." + e)
  {
    RelativeAppend(h, g);
    AllConcat(h, g, IsValidChar);
    StemAccepted(h + g, e);
  }

  lemma DriveRelativeAccepted(d: string, h: string, g: string, e: string)
    requires DriveText(d) && RelativeText(h) && Segments(g) && All(g, IsValidChar) && ExtensionText(e)
    ensures IsFilePath(d + (h + g) + "." + e)
  {
    RelativeAppend(h, g);
    AllConcat(h, g, IsValidChar);
    DriveStem(d, h + g);
    StemAccepted(d + (h + g), e);
  }

  lemma OneGroup(a: string)
    requires GroupText(a)
    ensures Segments(a) && All(a, IsValidChar)
  {
    SegmentsAppend(a, []);
    assert a + [] == a;
  }

  lemma TwoGroups(a1: string, a2: string)
    requires GroupText(a1) && GroupText(a2)
    ensures Segments(a1 + a2) && All(a1 + a2, IsValidChar)
  {
    TwoSegments(a1, a2);
    AllConcat(a1, a2, IsValidChar);
  }

  lemma ThreeGroups(a1: string, a2: string, a3: string)
    requires GroupText(a1) && GroupText(a2) && GroupText(a3)
    ensures Segments(a1 + a2 + a3) && All(a1 + a2 + a3, IsValidChar)
  {
    ThreeSegments(a1, a2, a3);
    AllConcat(a1, a2, IsValidChar);
    AllConcat(a1 + a2, a3, IsValidChar);
  }

  /** A string without a dot is rejected: the pattern ends with `\.\w+`. */
  lemma NoDotRejected(s: string)
    requires forall i :: 0 <= i < |s| ==> s[i] != '.'
    ensures !IsFilePath(s)
  {
    AcceptedPathShape(s);
  }

  // ---------------------------------------------------------------------------------------------
  // The test paths cut into their pieces

  lemma DrivePathPieces(s: string)
    requires s == "C:\\path\\to\\file.txt"
    ensures s == "C:" + "\\path\\to\\file" + "." + "txt"
  {
  }

  lemma DrivePathTexts()
    ensures DriveText("C:") && RootedText("\\path\\to\\file") && ExtensionText("txt")
  {
  }

  lemma RootedPathPieces(s: string)
    requires s == "/path/to/file.txt"
    ensures s == "/path/to/file" + "." + "txt"
  {
  }

  lemma RootedPathTexts()
    ensures RootedText("/path/to/file") && ExtensionText("txt")
  {
  }

  lemma DocumentPathPieces(s: string)
    requires s == "D:\\Documents\\file.doc"
    ensures s == "D:" + "\\Documents\\file" + "." + "doc"
  {
  }

  lemma DocumentPathTexts()
    ensures DriveText("D:") && RootedText("\\Documents\\file") && ExtensionText("doc")
  {
  }

  lemma ScriptPathPieces(s: string)
    requires s == "/usr/local/bin/script.sh"
    ensures s == "/usr/local/bin/script" + "." + "sh"
  {
  }

  lemma ScriptPathTexts()
    ensures RootedText("/usr/local/bin/script") && ExtensionText("sh")
  {
  }

  lemma RelativePathPieces(s: string)
    requires s == "relative/path/file.txt"
    ensures s == "relative" + ("/path" + "/file") + "." + "txt"
  {
  }

  lemma RelativePathTexts()
    ensures RelativeText("relative") && GroupText("/path") && GroupText("/file") && ExtensionText("txt")
  {
  }

  lemma ParentRelativePathPieces(s: string)
    requires s == "..\\relative\\path\\file.txt"
    ensures s == ".." + ("\\relative" + "\\path" + "\\file") + "." + "txt"
  {
  }

  lemma ParentRelativePathTexts()
    ensures RelativeText("..") && GroupText("\\relative") && GroupText("\\path") && GroupText("\\file")
    ensures ExtensionText("txt")
  {
  }

  lemma UnusualCharactersPieces(s: string)
    requires s == "C:\\path\\to\\@invalid~file.txt"
    ensures s == "C:" + "\\path\\to\\@invalid~file" + "." + "txt"
  {
  }

  lemma UnusualCharactersTexts()
    ensures DriveText("C:") && RootedText("\\path\\to\\@invalid~file") && ExtensionText("txt")
  {
  }

  lemma DriveWithoutSeparatorPieces(s: string)
    requires s == "C:wrong\\path\\file.txt"
    ensures s == "C:" + ("wrong" + ("\\path" + "\\file")) + "." + "txt"
  {
  }

  lemma DriveWithoutSeparatorTexts()
    ensures DriveText("C:") && RelativeText("wrong") && GroupText("\\path") && GroupText("\\file")
    ensures ExtensionText("txt")
  {
  }

  lemma StyleSheetPieces(s: string)
    requires s == "subdir2/file5.css"
    ensures s == "subdir2" + "/file5" + "." + "css"
  {
  }

  lemma StyleSheetTexts()
    ensures RelativeText("subdir2") && GroupText("/file5") && ExtensionText("css")
  {
  }

  lemma ScriptPieces(s: string)
    requires s == "subdir2/file5.js"
    ensures s == "subdir2" + "/file5" + "." + "js"
  {
  }

  lemma ScriptTexts()
    ensures RelativeText("subdir2") && GroupText("/file5") && ExtensionText("js")
  {
  }

  // ---------------------------------------------------------------------------------------------
  // The tests

  /** src/isFilePath.test.ts:6-8 */
  lemma EmptyRejected()
    ensures !IsFilePath("")
  {
  }

  /** src/isFilePath.test.ts:11 */
  lemma DrivePathAccepted(s: string)
    requires s == "C:\\path\\to\\file.txt"
    ensures IsFilePath(s)
  {
    DrivePathPieces(s);
    DrivePathTexts();
    DriveRootedAccepted("C:", "\\path\\to\\file", "txt");
  }

  /** src/isFilePath.test.ts:12 */
  lemma RootedPathAccepted(s: string)
    requires s == "/path/to/file.txt"
    ensures IsFilePath(s)
  {
    RootedPathPieces(s);
    RootedPathTexts();
    RootedAccepted("/path/to/file", "txt");
  }

  /** src/isFilePath.test.ts:13 */
  lemma DocumentPathAccepted(s: string)
    requires s == "D:\\Documents\\file.doc"
    ensures IsFilePath(s)
  {
    DocumentPathPieces(s);
    DocumentPathTexts();
    DriveRootedAccepted("D:", "\\Documents\\file", "doc");
  }

  /** src/isFilePath.test.ts:14 */
  lemma ScriptPathAccepted(s: string)
    requires s == "/usr/local/bin/script.sh"
    ensures IsFilePath(s)
  {
    ScriptPathPieces(s);
    ScriptPathTexts();
    RootedAccepted("/usr/local/bin/script", "sh");
  }

  /** src/isFilePath.test.ts:18: a relative head and two groups. */
  lemma RelativePathAccepted(s: string)
    requires s == "relative/path/file.txt"
    ensures IsFilePath(s)
  {
    RelativePathPieces(s);
    RelativePathTexts();
    TwoGroups("/path", "/file");
    RelativeAccepted("relative", "/path" + "/file", "txt");
  }

  /** src/isFilePath.test.ts:19: a relative head and three groups. */
  lemma ParentRelativePathAccepted(s: string)
    requires s == "..\\relative\\path\\file.txt"
    ensures IsFilePath(s)
  {
    ParentRelativePathPieces(s);
    ParentRelativePathTexts();
    ThreeGroups("\\relative", "\\path", "\\file");
    RelativeAccepted("..", "\\relative" + "\\path" + "\\file", "txt");
  }

  /** src/isFilePath.test.ts:22-25: no extension. */
  lemma DriveNoExtensionRejected(s: string)
    requires s == "C:\\path\\to\\file"
    ensures !IsFilePath(s)
  {
    assert forall i :: 0 <= i < |s| ==> s[i] != '.';
    NoDotRejected(s);
  }

  /** src/isFilePath.test.ts:22-25: no extension. */
  lemma RootedNoExtensionRejected(s: string)
    requires s == "/path/to/file"
    ensures !IsFilePath(s)
  {
    assert forall i :: 0 <= i < |s| ==> s[i] != '.';
    NoDotRejected(s);
  }

  /** src/isFilePath.test.ts:27-29 is a skipped test: `@` and `~` are accepted after a rooted
      separator, because `.+` takes any character. */
  lemma UnusualCharactersAccepted(s: string)
    requires s == "C:\\path\\to\\@invalid~file.txt"
    ensures IsFilePath(s)
  {
    UnusualCharactersPieces(s);
    UnusualCharactersTexts();
    DriveRootedAccepted("C:", "\\path\\to\\@invalid~file", "txt");
  }

  /** src/isFilePath.test.ts:31-33 is a skipped test: a drive without a separator is accepted,
      because the body may start with a relative component. */
  lemma DriveWithoutSeparatorAccepted(s: string)
    requires s == "C:wrong\\path\\file.txt"
    ensures IsFilePath(s)
  {
    DriveWithoutSeparatorPieces(s);
    DriveWithoutSeparatorTexts();
    TwoGroups("\\path", "\\file");
    DriveRelativeAccepted("C:", "wrong", "\\path" + "\\file", "txt");
  }

  /** src/isFilePath.test.ts:35-38: a bare trailing dot. */
  lemma TrailingDotRejected(s: string)
    requires s == "C:\\path\\to\\file."
    ensures !IsFilePath(s)
  {
    AcceptedPathShape(s);
  }

  /** src/isFilePath.test.ts:35-38: the only dot is not in the last component. */
  lemma ExtensionInDirectoryRejected(s: string)
    requires s == "path/to/file.txt/invalidextension"
    ensures !IsFilePath(s)
  {
    AcceptedPathShape(s);
    assert IsSeparator(s[16]);
    assert forall i :: 0 <= i < |s[17..]| ==> s[17..][i] != '.';
  }

  /** The names in src/extractFilenameFromCodeBlock.test.ts:6-13 and 15-22. */
  lemma SubdirStyleSheetAccepted(s: string)
    requires s == "subdir2/file5.css"
    ensures IsFilePath(s)
  {
    StyleSheetPieces(s);
    StyleSheetTexts();
    OneGroup("/file5");
    RelativeAccepted("subdir2", "/file5", "css");
  }

  /** The names in src/extractFilenameFromCodeBlock.test.ts:24-31 and 33-40. */
  lemma SubdirScriptAccepted(s: string)
    requires s == "subdir2/file5.js"
    ensures IsFilePath(s)
  {
    ScriptPieces(s);
    ScriptTexts();
    OneGroup("/file5");
    RelativeAccepted("subdir2", "/file5", "js");
  }
}
