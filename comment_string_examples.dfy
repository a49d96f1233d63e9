/**
 * The cases of src/extractCommentString.test.ts, as the code computes them. Each case is written
 * as the text around the token, with the token itself as a parameter.
 */
module CommentStringExamples {
  import opened Text
  import opened CommentString

  /** src/extractCommentString.test.ts:7-9 */
  lemma BlockCommentAlone(code: string, tok: string)
    requires tok == "myFile.css"
    requires code == "/* " + tok + " */"
    ensures ExtractCommentString(code) == Some(tok)
  {
    assert BlockShape(code, 0, 3, 13, 14);
    assert code[3..13] == tok;
    BlockCommentAt(code, 0, 3, 13, 14);
  }

  /** src/extractCommentString.test.ts:11-16 */
  lemma BlockCommentThenText(code: string, tok: string)
    requires tok == "anotherFile.js"
    requires code == "/* " + tok + " */ some random text"
    ensures ExtractCommentString(code) == Some(tok)
  {
    assert BlockShape(code, 0, 3, 17, 18);
    assert code[3..17] == tok;
    BlockCommentAt(code, 0, 3, 17, 18);
  }

  /** src/extractCommentString.test.ts:18-23 */
  lemma CodeThenBlockComment(code: string, tok: string)
    requires tok == "lastFile.html"
    requires code == "Some code here \n/* " + tok + " */"
    ensures ExtractCommentString(code) == Some(tok)
  {
    assert BlockShape(code, 16, 19, 32, 33);
    assert code[19..32] == tok;
    BlockCommentAt(code, 16, 19, 32, 33);
  }

  /** src/extractCommentString.test.ts:26-31 */
  lemma LineCommentAlone(code: string, tok: string)
    requires tok == "mySingleLineFile.js"
    requires code == "// " + tok
    ensures ExtractCommentString(code) == Some(tok)
  {
    assert LineShape(code, 0, 3, 22);
    assert code[3..22] == tok;
    LineCommentAt(code, 0, 3, 22);
  }

  /** src/extractCommentString.test.ts:33-38 */
  lemma CodeThenLineComment(code: string, tok: string)
    requires tok == "testFile.txt"
    requires code == "const a = 10; // " + tok
    ensures ExtractCommentString(code) == Some(tok)
  {
    assert LineShape(code, 14, 17, 29);
    assert code[17..29] == tok;
    LineCommentAt(code, 14, 17, 29);
  }

  /** The block comment wins over the line comment that follows it. src/extractCommentString.test.ts:41-46 */
  lemma BlockBeforeLineComment(code: string, tok: string)
    requires tok == "file1.css"
    requires code == "/* " + tok + " */ some text // file2.js"
    ensures ExtractCommentString(code) == Some(tok)
  {
    assert BlockShape(code, 0, 3, 12, 13);
    assert code[3..12] == tok;
    BlockCommentAt(code, 0, 3, 12, 13);
  }

  /** The block comment wins over a line comment before it, too: the code returns the block
      token where the skipped test expects the line token. src/extractCommentString.test.ts:48-53 */
  lemma LineBeforeBlockComment(code: string, tok: string)
    requires tok == "file4.css"
    requires code == "// file3.js\n/* " + tok + " */"
    ensures ExtractCommentString(code) == Some(tok)
  {
    assert BlockShape(code, 12, 15, 24, 25);
    assert code[15..24] == tok;
    BlockCommentAt(code, 12, 15, 24, 25);
  }

  /** src/extractCommentString.test.ts:64-69 */
  lemma LeadingSpaces(code: string, tok: string)
    requires tok == "leadingSpaceFile.js"
    requires code == "   // " + tok + "  "
    ensures ExtractCommentString(code) == Some(tok)
  {
    assert code == "   " + "// " + tok + "  ";
    assert 0 < |tok| && All(tok, IsNonSpace) && '*' !in tok;
    SpacedLineComment("   ", tok, "  ");
  }

  /** A line comment between runs of spaces, with no `*` anywhere, gives its token. */
  lemma SpacedLineComment(a: string, tok: string, b: string)
    requires forall k :: 0 <= k < |a| ==> a[k] == ' '
    requires 0 < |tok| && All(tok, IsNonSpace) && '*' !in tok
    requires 0 < |b| && forall k :: 0 <= k < |b| ==> b[k] == ' '
    ensures ExtractCommentString(a + "// " + tok + b) == Some(tok)
  {
    var code := a + "// " + tok + b;
    var i, lo, hi := |a|, |a| + 3, |a| + 3 + |tok|;
    assert code[i] == '/' && code[i + 1] == '/' && IsSpace(code[i + 2]);
    assert forall k :: lo <= k < hi ==> code[k] == tok[k - lo];
    assert code[lo..hi] == tok;
    assert IsSpace(code[hi]);
    assert LineShape(code, i, lo, hi);
    assert forall k :: 0 <= k < |code| ==> code[k] != '*' by {
      forall k | 0 <= k < |code| ensures code[k] != '*' {
        if lo <= k < hi { assert code[k] == tok[k - lo]; }
      }
    }
    LineCommentAt(code, i, lo, hi);
  }

  /** src/extractCommentString.test.ts:71-76 */
  lemma TrailingSpaces(code: string, tok: string)
    requires tok == "trailingSpaceFile.css"
    requires code == "   /* " + tok + " */   "
    ensures ExtractCommentString(code) == Some(tok)
  {
    assert BlockShape(code, 3, 6, 27, 28);
    assert code[6..27] == tok;
    BlockCommentAt(code, 3, 6, 27, 28);
  }

  /** src/extractCommentString.test.ts:56-61 */
  lemma NoCommentInProse(code: string)
    requires code == "This is just some code without comments."
    ensures ExtractCommentString(code) == None
  {
    NoSlashNoComment(code);
  }

  /** src/extractCommentString.test.ts:79-81 */
  lemma EmptyCode(code: string)
    requires code == ""
    ensures ExtractCommentString(code) == None
  {
    NoSlashNoComment(code);
  }

  /** Two tokens inside the block comment: the block pattern does not match there, and with no
      `//` anywhere the result is `undefined`. */
  lemma TwoTokenBlock(code: string)
    requires code == "/* a b */"
    ensures NoBlockAt(code, 0)
    ensures ExtractCommentString(code) == None
  {
    TwoTokensNoBlock(code, 0, 3, 4, 5);
    forall k: nat ensures NoBlockAt(code, k) && NoLineAt(code, k) {
      if 0 < k {
        assert !PairAt(code, k, '/', '*');
      }
      assert !PairAt(code, k, '/', '/');
    }
    NoComment(code);
  }
}
