/**
 * The cases of src/extractFilenameFromCodeBlock.test.ts, as the code computes them. Each test's
 * content is a line feed, the comment line, a line feed and one line of code with its line feed.
 */
module CodeBlockFilenameExamples {
  import opened Text
  import opened CodeBlockFilename
  import FilePathExamples

  /** The test file names have no whitespace. */
  lemma StyleSheetNameNonSpace(name: string)
    requires name == "subdir2/file5.css"
    ensures All(name, IsNonSpace)
  {
    assert forall k :: 0 <= k < |name| ==> IsNonSpace(name[k]);
  }

  lemma ScriptNameNonSpace(name: string)
    requires name == "subdir2/file5.js"
    ensures All(name, IsNonSpace)
  {
    assert forall k :: 0 <= k < |name| ==> IsNonSpace(name[k]);
  }

  lemma LineFeedIsSpace(ws: string)
    requires ws == "\n"
    ensures All(ws, IsSpace)
  {
    assert IsSpace(ws[0]);
  }

  /** src/extractFilenameFromCodeBlock.test.ts:6-13 */
  lemma StyleSheetWithFileComment(content: string, line: string, name: string)
    requires name == "subdir2/file5.css" && line == "/* " + name + " */"
    requires content == "\n" + (line + "\n" + "body { background-color: white; }\n")
    ensures ExtractFilenameFromCodeBlock(content) == Some(name)
  {
    FilePathExamples.SubdirStyleSheetAccepted(name);
    StyleSheetNameNonSpace(name);
    LineFeedIsSpace("\n");
    BlockCommentName(content, "\n", line, name, "body { background-color: white; }\n");
  }

  /** src/extractFilenameFromCodeBlock.test.ts:15-22 */
  lemma StyleSheetWithQuotedName(content: string, line: string, tok: string, name: string)
    requires name == "subdir2/file5.css" && tok == "`" + name + "`" && line == "/* " + tok + " */"
    requires content == "\n" + (line + "\n" + "body { background-color: white; }\n")
    ensures ExtractFilenameFromCodeBlock(content) == Some(name)
  {
    FilePathExamples.SubdirStyleSheetAccepted(name);
    StyleSheetNameNonSpace(name);
    LineFeedIsSpace("\n");
    BlockQuotedName(content, "\n", line, tok, name, "body { background-color: white; }\n");
  }

  /** src/extractFilenameFromCodeBlock.test.ts:24-31 */
  lemma ScriptWithFileComment(content: string, line: string, name: string)
    requires name == "subdir2/file5.js" && line == "// " + name
    requires content == "\n" + (line + "\n" + "const x = 1;\n")
    ensures ExtractFilenameFromCodeBlock(content) == Some(name)
  {
    FilePathExamples.SubdirScriptAccepted(name);
    ScriptNameNonSpace(name);
    LineFeedIsSpace("\n");
    LineCommentName(content, "\n", line, name, "const x = 1;\n");
  }

  /** src/extractFilenameFromCodeBlock.test.ts:33-40 */
  lemma ScriptWithQuotedName(content: string, line: string, tok: string, name: string)
    requires name == "subdir2/file5.js" && tok == "`" + name + "`" && line == "// " + tok
    requires content == "\n" + (line + "\n" + "const x = 1;\n")
    ensures ExtractFilenameFromCodeBlock(content) == Some(name)
  {
    FilePathExamples.SubdirScriptAccepted(name);
    ScriptNameNonSpace(name);
    LineFeedIsSpace("\n");
    LineQuotedName(content, "\n", line, tok, name, "const x = 1;\n");
  }
}
