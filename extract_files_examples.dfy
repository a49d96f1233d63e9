/**
 * The cases of src/extractFiles.test.ts that the code implements, with the context of
 * src/extractFiles.test.ts:6-11. Each reply is written as its pieces, as in the code block
 * cases; the token drawn for the `n`-th block is `randomId(n)`, whatever it is.
 */
module ExtractFilesExamples {
  import opened Text
  import opened CodeBlocks
  import opened CodeBlocksExamples
  import opened ExtractFiles

  /** src/extractFiles.test.ts:6-11 */
  const TestContext: seq<(string, string)> :=
    [("file1.ts", "existing TypeScript file"), ("file2.js", "existing JavaScript file"),
     ("file3.json", "existing JSON file"), ("subdir/file4.css", "existing CSS file in subdir")]

  // ---------------------------------------------------------------------------------------------
  // Replies of one or two blocks

  /** Storing one filing in no file makes one file. */
  lemma StoreOne(key: string, content: string)
    ensures StoreAll([(key, content)]) == map[key := content + "\n"]
  {
    StoreAllSnoc([], key, content);
    assert [] + [(key, content)] == [(key, content)];
  }

  /** Storing two filings: two files under two keys, one file holding both under one key. */
  lemma StoreTwo(k1: string, c1: string, k2: string, c2: string)
    ensures k1 != k2 ==> StoreAll([(k1, c1), (k2, c2)]) == map[k1 := c1 + "\n", k2 := c2 + "\n"]
    ensures k1 == k2 ==> StoreAll([(k1, c1), (k2, c2)]) == map[k1 := c1 + "\n" + "\n" + c2 + "\n"]
  {
    StoreOne(k1, c1);
    StoreAllSnoc([(k1, c1)], k2, c2);
    assert [(k1, c1)] + [(k2, c2)] == [(k1, c1), (k2, c2)];
  }

  /** A reply of one block makes one file, holding the block's content and a line feed. */
  lemma OneFile(response: string, contextFiles: seq<(string, string)>, randomId: nat -> string,
                block: CodeBlock, key: string)
    requires Blocks(response) == [block] && KeyFor(Keys(contextFiles), block, randomId(0)) == key
    ensures Files(response, contextFiles, randomId) == map[key := block.content + "\n"]
  {
    var fs := Filings(Blocks(response), Keys(contextFiles), randomId);
    FilingsAt(Blocks(response), Keys(contextFiles), randomId);
    assert fs == [(key, block.content)];
    StoreOne(key, block.content);
  }

  /** A reply of two blocks makes two files when their keys differ, and one file holding both
      contents when they are the same. */
  lemma TwoFiles(response: string, contextFiles: seq<(string, string)>, randomId: nat -> string,
                 b1: CodeBlock, b2: CodeBlock, k1: string, k2: string)
    requires Blocks(response) == [b1, b2]
    requires KeyFor(Keys(contextFiles), b1, randomId(0)) == k1
    requires KeyFor(Keys(contextFiles), b2, randomId(1)) == k2
    ensures k1 != k2 ==>
      Files(response, contextFiles, randomId) == map[k1 := b1.content + "\n", k2 := b2.content + "\n"]
    ensures k1 == k2 ==>
      Files(response, contextFiles, randomId) == map[k1 := b1.content + "\n" + "\n" + b2.content + "\n"]
  {
    var fs := Filings(Blocks(response), Keys(contextFiles), randomId);
    FilingsAt(Blocks(response), Keys(contextFiles), randomId);
    assert fs == [(k1, b1.content), (k2, b2.content)];
    StoreTwo(k1, b1.content, k2, b2.content);
  }

  // ---------------------------------------------------------------------------------------------
  // The context's paths and the extensions

  /** The paths of the test context, in order. */
  lemma TestPaths(paths: seq<string>)
    requires paths == Keys(TestContext)
    ensures paths == ["file1.ts", "file2.js", "file3.json", "subdir/file4.css"]
  {
  }

  /** No test path ends with ".html" or "txt". */
  lemma TestPathsMiss(paths: seq<string>, ext: string)
    requires paths == ["file1.ts", "file2.js", "file3.json", "subdir/file4.css"]
    requires ext == ".html" || ext == "txt"
    ensures forall j :: 0 <= j < |paths| ==> !EndsWith(paths[j], ext)
  {
    forall j | 0 <= j < |paths| ensures !EndsWith(paths[j], ext) {
      var p := paths[j];
      if |ext| <= |p| {
        assert p[|p| - 1] != ext[|ext| - 1];
        assert p[|p| - |ext|..][|ext| - 1] == p[|p| - 1];
      }
    }
  }

  /** A one-line body free of line feeds, starting and ending outside `\s`. */
  lemma PlainBody(body: string)
    requires forall k :: 0 <= k < |body| ==> body[k] != '\n' && body[k] != '`'
    requires body != [] && IsNonSpace(body[0]) && IsNonSpace(body[|body| - 1])
    ensures NoFenceInBody(body) && Trimmed(body)
  {
    LineClear(body);
  }

  /** The bodies of the one-block cases hold no closing fence and are trimmed. */
  lemma OneBlockBodies()
    ensures NoFenceInBody("const x: number = 1;") && Trimmed("const x: number = 1;")
    ensures NoFenceInBody("const x = 1;") && Trimmed("const x = 1;")
    ensures NoFenceInBody("{\"key\": \"value\"}") && Trimmed("{\"key\": \"value\"}")
    ensures NoFenceInBody("does not matter") && Trimmed("does not matter")
  {
    var b1, b2, b3, b4 := "const x: number = 1;", "const x = 1;", "{\"key\": \"value\"}", "does not matter";
    assert forall k :: 0 <= k < |b1| ==> b1[k] != '\n' && b1[k] != '`';
    assert forall k :: 0 <= k < |b2| ==> b2[k] != '\n' && b2[k] != '`';
    assert forall k :: 0 <= k < |b3| ==> b3[k] != '\n' && b3[k] != '`';
    assert forall k :: 0 <= k < |b4| ==> b4[k] != '\n' && b4[k] != '`';
    PlainBody(b1);
    PlainBody(b2);
    PlainBody(b3);
    PlainBody(b4);
  }

  /** The other bodies hold no closing fence and are trimmed. */
  lemma MoreBodies()
    ensures NoFenceInBody("<div>Hello World</div>") && Trimmed("<div>Hello World</div>")
    ensures NoFenceInBody("body { background-color: white; }")
    ensures Trimmed("body { background-color: white; }")
    ensures NoFenceInBody("const y = 2;") && Trimmed("const y = 2;")
    ensures NoFenceInBody("const y: number = 2;") && Trimmed("const y: number = 2;")
  {
    var b1, b2, b3, b4 := "<div>Hello World</div>", "body { background-color: white; }", "const y = 2;",
                          "const y: number = 2;";
    assert forall k :: 0 <= k < |b1| ==> b1[k] != '\n' && b1[k] != '`';
    assert forall k :: 0 <= k < |b2| ==> b2[k] != '\n' && b2[k] != '`';
    assert forall k :: 0 <= k < |b3| ==> b3[k] != '\n' && b3[k] != '`';
    assert forall k :: 0 <= k < |b4| ==> b4[k] != '\n' && b4[k] != '`';
    PlainBody(b1);
    PlainBody(b2);
    PlainBody(b3);
    PlainBody(b4);
  }

  /** The prose before the single blocks holds no backtick. */
  lemma Prose()
    ensures NoBacktick("Here is some TypeScript code:\n") && NoBacktick("Here is some JavaScript code:\n")
    ensures NoBacktick("Here is some JSON data:\n") && NoBacktick("Here is some unsupported language:\n")
    ensures NoBacktick("Here is some text:\n") && NoBacktick("Here is some HTML:\n")
    ensures NoBacktick("Here is some CSS code:\n")
  {
  }

  /** The prose around the pairs of blocks holds no backtick. */
  lemma PairProse()
    ensures NoBacktick("\nHere is TypeScript:\n") && NoBacktick("\n    ")
    ensures NoBacktick("\n\nAnd here is JavaScript:\n") && NoBacktick("\n\nAnd here is another TypeScript:\n")
  {
  }

  /** The tags of the cases are lower-case letters. */
  lemma LowerTags()
    ensures All("typescript", IsLowerAlpha) && All("javascript", IsLowerAlpha) && All("json", IsLowerAlpha)
    ensures All("html", IsLowerAlpha) && All("css", IsLowerAlpha) && All("unsupported", IsLowerAlpha)
  {
    var t1, t2, t3, t4, t5, t6 := "typescript", "javascript", "json", "html", "css", "unsupported";
    assert forall k :: 0 <= k < |t1| ==> IsLowerAlpha(t1[k]);
    assert forall k :: 0 <= k < |t2| ==> IsLowerAlpha(t2[k]);
    assert forall k :: 0 <= k < |t3| ==> IsLowerAlpha(t3[k]);
    assert forall k :: 0 <= k < |t4| ==> IsLowerAlpha(t4[k]);
    assert forall k :: 0 <= k < |t5| ==> IsLowerAlpha(t5[k]);
    assert forall k :: 0 <= k < |t6| ==> IsLowerAlpha(t6[k]);
  }

  /** The TypeScript block gets the test context's first path, the only one ending ".ts". */
  lemma TypeScriptKey(block: CodeBlock, token: string)
    requires block.fileType == "typescript"
    ensures KeyFor(Keys(TestContext), block, token) == "file1.ts"
  {
    var paths := Keys(TestContext);
    TestPaths(paths);
    assert "file1.ts"[5..] == ".ts";
    KeyForPrefersContext(paths, block, token, 0);
  }

  /** The JavaScript block gets "file2.js", the first path ending ".js". */
  lemma JavaScriptKey(block: CodeBlock, token: string)
    requires block.fileType == "javascript"
    ensures KeyFor(Keys(TestContext), block, token) == "file2.js"
  {
    var paths := Keys(TestContext);
    TestPaths(paths);
    assert "file2.js"[5..] == ".js" && "file1.ts"[5..][1] != ".js"[1];
    KeyForPrefersContext(paths, block, token, 1);
  }

  /** The JSON block gets "file3.json", the first path ending ".json". */
  lemma JsonKey(block: CodeBlock, token: string)
    requires block.fileType == "json"
    ensures KeyFor(Keys(TestContext), block, token) == "file3.json"
  {
    var paths := Keys(TestContext);
    TestPaths(paths);
    assert "file3.json"[5..] == ".json";
    assert "file1.ts"[3..][1] != ".json"[1] && "file2.js"[3..][1] != ".json"[1];
    KeyForPrefersContext(paths, block, token, 2);
  }

  /** The CSS block gets "subdir/file4.css", the first path ending ".css". */
  lemma CssKey(block: CodeBlock, token: string)
    requires block.fileType == "css"
    ensures KeyFor(Keys(TestContext), block, token) == "subdir/file4.css"
  {
    var paths := Keys(TestContext);
    TestPaths(paths);
    assert "subdir/file4.css"[12..] == ".css";
    assert "file1.ts"[4..][0] != ".css"[0] && "file2.js"[4..][0] != ".css"[0] && "file3.json"[6..][1] != ".css"[1];
    KeyForPrefersContext(paths, block, token, 3);
  }

  /** The other tags get a made-up name in the test context. */
  lemma MadeUpKeys(block: CodeBlock, token: string)
    requires block.fileType == "html" || !KnownType(block.fileType)
    ensures KeyFor(Keys(TestContext), block, token) == NewFilename(block.fileType, token)
  {
    var paths := Keys(TestContext);
    TestPaths(paths);
    if block.fileType == "html" {
      TestPathsMiss(paths, ".html");
    } else {
      ExtensionTableAgrees(block.fileType);
      TestPathsMiss(paths, "txt");
    }
    KeyForFallsBack(paths, block, token);
  }

  /** A reply of one block and nothing after it, with the test context. */
  lemma OneBlockFile(response: string, gap: string, tag: string, body: string, randomId: nat -> string)
    requires response == gap + FenceText(tag, body)
    requires NoBacktick(gap) && All(tag, IsLowerAlpha) && NoFenceInBody(body) && Trimmed(body)
    ensures Files(response, TestContext, randomId)
      == map[KeyFor(Keys(TestContext), CodeBlock(tag, body), randomId(0)) := body + "\n"]
  {
    assert response == gap + FenceText(tag, body) + "";
    OneBlockReply(response, gap, tag, body, "");
    OneFile(response, TestContext, randomId, CodeBlock(tag, body),
            KeyFor(Keys(TestContext), CodeBlock(tag, body), randomId(0)));
  }

  /** A reply of two blocks with the test context. */
  lemma TwoBlockFiles(response: string, gap: string, tag1: string, body1: string, mid: string,
                      tag2: string, body2: string, rest: string, randomId: nat -> string)
    requires response == gap + FenceText(tag1, body1) + mid + FenceText(tag2, body2) + rest
    requires NoBacktick(gap) && All(tag1, IsLowerAlpha) && NoFenceInBody(body1) && Trimmed(body1)
    requires NoBacktick(mid) && All(tag2, IsLowerAlpha) && NoFenceInBody(body2) && Trimmed(body2)
    requires NoBacktick(rest)
    ensures var k1 := KeyFor(Keys(TestContext), CodeBlock(tag1, body1), randomId(0));
            var k2 := KeyFor(Keys(TestContext), CodeBlock(tag2, body2), randomId(1));
            Files(response, TestContext, randomId)
              == if k1 == k2 then map[k1 := body1 + "\n" + "\n" + body2 + "\n"]
                 else map[k1 := body1 + "\n", k2 := body2 + "\n"]
  {
    TwoBlockReply(response, gap, tag1, body1, mid, tag2, body2, rest);
    TwoFiles(response, TestContext, randomId, CodeBlock(tag1, body1), CodeBlock(tag2, body2),
             KeyFor(Keys(TestContext), CodeBlock(tag1, body1), randomId(0)),
             KeyFor(Keys(TestContext), CodeBlock(tag2, body2), randomId(1)));
  }

  // ---------------------------------------------------------------------------------------------
  // The cases

  /** src/extractFiles.test.ts:13-20 */
  lemma TypeScriptFile(response: string, gap: string, body: string, randomId: nat -> string)
    requires gap == "Here is some TypeScript code:\n" && body == "const x: number = 1;"
    requires response == gap + FenceText("typescript", body)
    ensures Files(response, TestContext, randomId) == map["file1.ts" := "const x: number = 1;\n"]
  {
    Prose();
    OneBlockBodies();
    LowerTags();
    OneBlockFile(response, gap, "typescript", body, randomId);
    TypeScriptKey(CodeBlock("typescript", body), randomId(0));
    assert body + "\n" == "const x: number = 1;\n";
  }

  /** src/extractFiles.test.ts:22-29 */
  lemma JavaScriptFile(response: string, gap: string, body: string, randomId: nat -> string)
    requires gap == "Here is some JavaScript code:\n" && body == "const x = 1;"
    requires response == gap + FenceText("javascript", body)
    ensures Files(response, TestContext, randomId) == map["file2.js" := "const x = 1;\n"]
  {
    Prose();
    OneBlockBodies();
    LowerTags();
    OneBlockFile(response, gap, "javascript", body, randomId);
    JavaScriptKey(CodeBlock("javascript", body), randomId(0));
    assert body + "\n" == "const x = 1;\n";
  }

  /** src/extractFiles.test.ts:31-37 */
  lemma JsonFile(response: string, gap: string, body: string, randomId: nat -> string)
    requires gap == "Here is some JSON data:\n" && body == "{\"key\": \"value\"}"
    requires response == gap + FenceText("json", body)
    ensures Files(response, TestContext, randomId) == map["file3.json" := "{\"key\": \"value\"}\n"]
  {
    Prose();
    OneBlockBodies();
    LowerTags();
    OneBlockFile(response, gap, "json", body, randomId);
    JsonKey(CodeBlock("json", body), randomId(0));
    assert body + "\n" == "{\"key\": \"value\"}\n";
  }

  /** src/extractFiles.test.ts:39-46: an unknown tag gets "txt", and a made-up name. */
  lemma UnknownTypeFile(response: string, gap: string, body: string, randomId: nat -> string)
    requires gap == "Here is some unsupported language:\n" && body == "does not matter"
    requires response == gap + FenceText("unsupported", body)
    ensures Files(response, TestContext, randomId) == map["unsupported" + randomId(0) + ".txt" := "does not matter\n"]
  {
    Prose();
    OneBlockBodies();
    LowerTags();
    OneBlockFile(response, gap, "unsupported", body, randomId);
    ExtensionTableAgrees("unsupported");
    assert NewFilename("unsupported", randomId(0)) == "unsupported" + randomId(0) + ".txt";
    MadeUpKeys(CodeBlock("unsupported", body), randomId(0));
    assert body + "\n" == "does not matter\n";
  }

  /** src/extractFiles.test.ts:48-54: the empty tag gets "txt" too. */
  lemma NoTypeFile(response: string, gap: string, body: string, randomId: nat -> string)
    requires gap == "Here is some text:\n" && body == "does not matter"
    requires response == gap + FenceText("", body)
    ensures Files(response, TestContext, randomId) == map[randomId(0) + ".txt" := "does not matter\n"]
  {
    Prose();
    OneBlockBodies();
    OneBlockFile(response, gap, "", body, randomId);
    ExtensionTableAgrees("");
    assert NewFilename("", randomId(0)) == randomId(0) + ".txt";
    MadeUpKeys(CodeBlock("", body), randomId(0));
    assert body + "\n" == "does not matter\n";
  }

  /** src/extractFiles.test.ts:94-100: no context path ends with ".html", so the name is made
      up, with two dots before the extension's letters. */
  lemma UniqueFilename(response: string, gap: string, body: string, randomId: nat -> string)
    requires gap == "Here is some HTML:\n" && body == "<div>Hello World</div>"
    requires response == gap + FenceText("html", body)
    ensures Files(response, TestContext, randomId) == map["html" + randomId(0) + "..html" := "<div>Hello World</div>\n"]
  {
    Prose();
    MoreBodies();
    LowerTags();
    OneBlockFile(response, gap, "html", body, randomId);
    assert NewFilename("html", randomId(0)) == "html" + randomId(0) + "..html";
    MadeUpKeys(CodeBlock("html", body), randomId(0));
    assert body + "\n" == "<div>Hello World</div>\n";
  }

  /** src/extractFiles.test.ts:102-112: the matching path lies in a sub-directory. */
  lemma SubdirFile(response: string, gap: string, body: string, randomId: nat -> string)
    requires gap == "Here is some CSS code:\n" && body == "body { background-color: white; }"
    requires response == gap + FenceText("css", body)
    ensures Files(response, TestContext, randomId) == map["subdir/file4.css" := "body { background-color: white; }\n"]
  {
    Prose();
    MoreBodies();
    LowerTags();
    OneBlockFile(response, gap, "css", body, randomId);
    CssKey(CodeBlock("css", body), randomId(0));
    assert body + "\n" == "body { background-color: white; }\n";
  }

  /** src/extractFiles.test.ts:56-73: two blocks of different types, two files. */
  lemma TwoTypesTwoFiles(response: string, gap: string, mid: string, rest: string, b1: string,
                         b2: string, randomId: nat -> string)
    requires gap == "\nHere is TypeScript:\n" && mid == "\n\nAnd here is JavaScript:\n"
    requires rest == "\n    " && b1 == "const x: number = 1;" && b2 == "const y = 2;"
    requires response == gap + FenceText("typescript", b1) + mid + FenceText("javascript", b2) + rest
    ensures Files(response, TestContext, randomId)
      == map["file1.ts" := "const x: number = 1;\n", "file2.js" := "const y = 2;\n"]
  {
    PairProse();
    OneBlockBodies();
    MoreBodies();
    LowerTags();
    TwoBlockFiles(response, gap, "typescript", b1, mid, "javascript", b2, rest, randomId);
    TypeScriptKey(CodeBlock("typescript", b1), randomId(0));
    JavaScriptKey(CodeBlock("javascript", b2), randomId(1));
    assert b1 + "\n" == "const x: number = 1;\n" && b2 + "\n" == "const y = 2;\n";
  }

  /** src/extractFiles.test.ts:75-92, as the code computes it: both blocks are filed under
      "file1.ts", and the second is appended to the first rather than replacing it. */
  lemma SameTypeAppends(response: string, gap: string, mid: string, rest: string, b1: string,
                        b2: string, randomId: nat -> string)
    requires gap == "\nHere is TypeScript:\n" && mid == "\n\nAnd here is another TypeScript:\n"
    requires rest == "\n    " && b1 == "const x: number = 1;" && b2 == "const y: number = 2;"
    requires response == gap + FenceText("typescript", b1) + mid + FenceText("typescript", b2) + rest
    ensures Files(response, TestContext, randomId)
      == map["file1.ts" := "const x: number = 1;\n" + "\n" + "const y: number = 2;\n"]
  {
    PairProse();
    OneBlockBodies();
    MoreBodies();
    LowerTags();
    TwoBlockFiles(response, gap, "typescript", b1, mid, "typescript", b2, rest, randomId);
    TypeScriptKey(CodeBlock("typescript", b1), randomId(0));
    TypeScriptKey(CodeBlock("typescript", b2), randomId(1));
    assert b1 + "\n" + "\n" + b2 + "\n" == (b1 + "\n") + "\n" + (b2 + "\n");
    assert b1 + "\n" == "const x: number = 1;\n";
    assert b2 + "\n" == "const y: number = 2;\n";
  }
}
