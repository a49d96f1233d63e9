/**
 * `extractFilenameFromCodeBlock(content)` (src/extractFilenameFromCodeBlock.ts): the file name a
 * code block announces in a comment on its first line. The content is trimmed, its first line
 * taken, the comment token extracted, backticks stripped from both ends of the token, and the
 * result kept only when it looks like a file path.
 */
module CodeBlockFilename {
  import opened Text
  import opened TrimChar
  import opened FilePath
  import opened CommentString

  /** `trimChar(s, "`")`. */
  function TrimBackticks(s: string): (r: string)
    ensures r == [] || (r[0] != '`' && r[|r| - 1] != '`')
  {
    assert IsLiteralClass("`");
    TrimChar.TrimChar(s, "`")
  }

  /** What stripping backticks leaves lies between two runs of backticks. */
  lemma BackticksSplit(s: string) returns (p: string, q: string)
    ensures s == p + TrimBackticks(s) + q
    ensures All(p, InClass("`")) && All(q, InClass("`"))
  {
    p, q := TrimCharSplits(s, "`");
  }

  /** A token neither starting nor ending with a backtick keeps its backticks. */
  lemma BackticksUnchanged(s: string)
    requires s == [] || (s[0] != '`' && s[|s| - 1] != '`')
    ensures TrimBackticks(s) == s
  {
    TrimCharUnchanged(s, "`");
  }

  /** A token between single backticks loses them. */
  lemma BackticksAround(m: string)
    requires m == [] || (m[0] != '`' && m[|m| - 1] != '`')
    ensures TrimBackticks("`" + m + "`") == m
  {
    TrimCharOfPadded("`", m, "`", "`");
  }

  /** Stripping backticks from a token without whitespace leaves one without whitespace. */
  lemma BackticksKeepNonSpace(s: string)
    requires All(s, IsNonSpace)
    ensures All(TrimBackticks(s), IsNonSpace)
  {
    TrimCharKeeps(s, "`", IsNonSpace);
  }

  /** src/extractFilenameFromCodeBlock.ts:5-16; `None` is `undefined`. */
  function ExtractFilenameFromCodeBlock(content: string): (r: Option<string>)
    ensures r.Some? ==> IsFilePath(r.value)
    ensures r.Some? ==> All(r.value, IsNonSpace) && '`' !in r.value
  {
    var firstLine := FirstLine(Trim(content));
    if firstLine == [] then None
    else
      var comment := ExtractCommentString(firstLine);
      if comment.None? then None
      else
        var trimmed := TrimBackticks(comment.value);
        BackticksKeepNonSpace(comment.value);
        if IsFilePath(trimmed) then
          assert forall k :: 0 <= k < |trimmed| ==> trimmed[k] != '`' by {
            forall k | 0 <= k < |trimmed| ensures trimmed[k] != '`' {
              assert IsValidChar(trimmed[k]);
            }
          }
          Some(trimmed)
        else None
  }

  /** The comment token of the first line of the trimmed content, if any. */
  function FirstLineToken(content: string): (r: Option<string>)
    ensures r.Some? ==> r.value != [] && All(r.value, IsNonSpace)
  {
    ExtractCommentString(FirstLine(Trim(content)))
  }

  /** An empty first line has no comment token. */
  lemma EmptyLineNoToken()
    ensures ExtractCommentString("") == None
  {
    NoSlashNoComment("");
  }

  /** A file name is returned exactly when the first line holds a comment token that, with
      backticks stripped from its ends, is a file path. The `!firstLine` exit adds no case of its
      own: an empty first line has no comment token. */
  lemma FilenameIffToken(content: string)
    ensures ExtractFilenameFromCodeBlock(content).Some? <==>
      FirstLineToken(content).Some? && IsFilePath(TrimBackticks(FirstLineToken(content).value))
  {
    EmptyLineNoToken();
  }

  /** The returned name is what stripping backticks leaves of the first line's comment token. */
  lemma FilenameOfToken(content: string, f: string)
    requires ExtractFilenameFromCodeBlock(content) == Some(f)
    ensures FirstLineToken(content).Some? && f == TrimBackticks(FirstLineToken(content).value)
  {
  }

  /** The returned name is the comment token less a run of backticks at each end. */
  lemma FilenameIsToken(content: string, f: string) returns (p: string, q: string)
    requires ExtractFilenameFromCodeBlock(content) == Some(f)
    ensures FirstLineToken(content) == Some(p + f + q)
    ensures All(p, InClass("`")) && All(q, InClass("`"))
  {
    FilenameOfToken(content, f);
    p, q := BackticksSplit(FirstLineToken(content).value);
  }

  /** Only the first line counts: leading whitespace, blank lines included, is skipped. */
  lemma LeadingSpaceSkipped(ws: string, content: string)
    requires All(ws, IsSpace)
    ensures ExtractFilenameFromCodeBlock(ws + content) == ExtractFilenameFromCodeBlock(content)
  {
    StripPad(ws, content, [], IsSpace);
    assert ws + content + [] == ws + content;
  }

  /** Only the first line counts: what follows the first line feed is never looked at. */
  lemma FirstLineDecides(line: string, rest: string)
    requires '\n' !in line && line != []
    requires IsNonSpace(line[0]) && IsNonSpace(line[|line| - 1])
    ensures ExtractFilenameFromCodeBlock(line + "\n" + rest) == ExtractFilenameFromCodeBlock(line)
  {
    TrimFirstLine(line, rest);
    TrimUnchanged(line);
    FirstLineOf(line, rest);
  }

  /** A first line with comment token `tok` gives `tok` with its backticks stripped, when that
      is a file path. */
  lemma FromLine(line: string, tok: string)
    requires '\n' !in line && line != []
    requires IsNonSpace(line[0]) && IsNonSpace(line[|line| - 1])
    requires ExtractCommentString(line) == Some(tok)
    requires IsFilePath(TrimBackticks(tok))
    ensures ExtractFilenameFromCodeBlock(line) == Some(TrimBackticks(tok))
  {
    TrimUnchanged(line);
    FirstLineOf(line, []);
  }

  /** The same line after leading whitespace and before further lines gives the same name. */
  lemma FromCommentLine(content: string, ws: string, line: string, rest: string, tok: string)
    requires content == ws + (line + "\n" + rest) && All(ws, IsSpace)
    requires '\n' !in line && line != []
    requires IsNonSpace(line[0]) && IsNonSpace(line[|line| - 1])
    requires ExtractCommentString(line) == Some(tok)
    requires IsFilePath(TrimBackticks(tok))
    ensures ExtractFilenameFromCodeBlock(content) == Some(TrimBackticks(tok))
  {
    LeadingSpaceSkipped(ws, line + "\n" + rest);
    FirstLineDecides(line, rest);
    FromLine(line, tok);
  }

  // ---------------------------------------------------------------------------------------------
  // The four first-line forms of the tests, for any name

  /** A file path has no backtick. */
  lemma PathHasNoBacktick(name: string)
    requires IsFilePath(name)
    ensures forall k :: 0 <= k < |name| ==> name[k] != '`'
  {
    forall k | 0 <= k < |name| ensures name[k] != '`' {
      assert IsValidChar(name[k]);
    }
  }

  /** Where the token sits in `slash-star token star-slash`. */
  lemma BlockLineShape(line: string, tok: string)
    requires line == "/* " + tok + " */" && tok != [] && All(tok, IsNonSpace)
    ensures BlockShape(line, 0, 3, 3 + |tok|, 4 + |tok|) && line[3..3 + |tok|] == tok
  {
    assert forall k :: 0 <= k < |tok| ==> line[3 + k] == tok[k];
  }

  /** Where the token sits in `// token`. */
  lemma LineLineShape(line: string, tok: string)
    requires line == "// " + tok && tok != [] && All(tok, IsNonSpace) && '*' !in tok
    ensures LineShape(line, 0, 3, 3 + |tok|) && line[3..3 + |tok|] == tok
    ensures '*' !in line
  {
    assert forall k :: 0 <= k < |tok| ==> line[3 + k] == tok[k];
    forall k | 0 <= k < |line| ensures line[k] != '*' {
      if 3 <= k { assert line[k] == tok[k - 3]; assert tok[k - 3] in tok; } else { assert line[k] == "// "[k]; }
    }
  }

  /** A line made of a token without whitespace between fixed delimiters is one line that starts
      and ends outside `\s`. */
  lemma DelimitedLine(line: string, open: string, tok: string, close: string)
    requires line == open + tok + close && tok != [] && All(tok, IsNonSpace)
    requires '\n' !in open && '\n' !in close
    requires open != [] && IsNonSpace(open[0])
    requires close == [] || IsNonSpace(close[|close| - 1])
    ensures '\n' !in line && IsNonSpace(line[0]) && IsNonSpace(line[|line| - 1])
  {
    forall k | 0 <= k < |line| ensures line[k] != '\n' {
      if k < |open| { assert line[k] == open[k]; }
      else if k < |open| + |tok| { assert line[k] == tok[k - |open|]; assert IsNonSpace(tok[k - |open|]); }
      else { assert line[k] == close[k - |open| - |tok|]; }
    }
    if close == [] { assert line[|line| - 1] == tok[|tok| - 1]; }
    else { assert line[|line| - 1] == close[|close| - 1]; }
  }

  /** `slash-star token star-slash` as a first line gives the token. */
  lemma BlockLineToken(line: string, tok: string)
    requires line == "/* " + tok + " */" && tok != [] && All(tok, IsNonSpace)
    ensures ExtractCommentString(line) == Some(tok)
  {
    BlockLineShape(line, tok);
    BlockCommentAt(line, 0, 3, 3 + |tok|, 4 + |tok|);
  }

  /** `// token` as a first line gives the token. */
  lemma LineLineToken(line: string, tok: string)
    requires line == "// " + tok && tok != [] && All(tok, IsNonSpace) && '*' !in tok
    ensures ExtractCommentString(line) == Some(tok)
  {
    LineLineShape(line, tok);
    LineCommentAt(line, 0, 3, 3 + |tok|);
  }

  /** A file path has no asterisk. */
  lemma PathHasNoStar(name: string)
    requires IsFilePath(name)
    ensures '*' !in name
  {
    forall k | 0 <= k < |name| ensures name[k] != '*' {
      assert IsValidChar(name[k]);
    }
  }

  /** A file name between backticks is a token without whitespace or asterisk. */
  lemma QuotedToken(name: string, tok: string)
    requires tok == "`" + name + "`" && All(name, IsNonSpace) && IsFilePath(name)
    ensures tok != [] && All(tok, IsNonSpace) && '*' !in tok
    ensures TrimBackticks(tok) == name
  {
    AllConcat("`", name, IsNonSpace);
    AllConcat("`" + name, "`", IsNonSpace);
    PathHasNoStar(name);
    PathHasNoBacktick(name);
    forall k | 0 <= k < |tok| ensures tok[k] != '*' {
      if 1 <= k < |tok| - 1 { assert tok[k] == name[k - 1]; assert name[k - 1] in name; }
    }
    BackticksAround(name);
  }

  /** A file path neither starts nor ends with a backtick, so stripping backticks keeps it. */
  lemma PathKeepsBackticks(name: string)
    requires IsFilePath(name)
    ensures TrimBackticks(name) == name
  {
    PathHasNoBacktick(name);
    BackticksUnchanged(name);
  }

  /** What the first line `line` must be for its comment token `tok` to be read. */
  predicate CommentLineFor(line: string, tok: string)
  {
    '\n' !in line && line != [] && IsNonSpace(line[0]) && IsNonSpace(line[|line| - 1])
    && ExtractCommentString(line) == Some(tok)
  }

  lemma BlockLineFor(line: string, tok: string)
    requires line == "/* " + tok + " */" && tok != [] && All(tok, IsNonSpace)
    ensures CommentLineFor(line, tok)
  {
    DelimitedLine(line, "/* ", tok, " */");
    BlockLineToken(line, tok);
  }

  lemma LineLineFor(line: string, tok: string)
    requires line == "// " + tok && tok != [] && All(tok, IsNonSpace) && '*' !in tok
    ensures CommentLineFor(line, tok)
  {
    DelimitedLine(line, "// ", tok, []);
    LineLineToken(line, tok);
  }

  /** A first line with token `tok`, after leading whitespace, announces the name `tok` leaves. */
  lemma NameFromLine(content: string, ws: string, line: string, rest: string, tok: string, name: string)
    requires content == ws + (line + "\n" + rest) && All(ws, IsSpace)
    requires CommentLineFor(line, tok) && TrimBackticks(tok) == name && IsFilePath(name)
    ensures ExtractFilenameFromCodeBlock(content) == Some(name)
  {
    FromCommentLine(content, ws, line, rest, tok);
  }

  /** `slash-star name star-slash` on the first line announces `name` (src/extractFilenameFromCodeBlock.test.ts:6-13). */
  lemma BlockCommentName(content: string, ws: string, line: string, name: string, rest: string)
    requires line == "/* " + name + " */" && content == ws + (line + "\n" + rest)
    requires All(ws, IsSpace) && IsFilePath(name) && All(name, IsNonSpace)
    ensures ExtractFilenameFromCodeBlock(content) == Some(name)
  {
    BlockLineFor(line, name);
    PathKeepsBackticks(name);
    NameFromLine(content, ws, line, rest, name, name);
  }

  /** `// name` on the first line announces `name`. */
  lemma LineCommentName(content: string, ws: string, line: string, name: string, rest: string)
    requires line == "// " + name && content == ws + (line + "\n" + rest)
    requires All(ws, IsSpace) && IsFilePath(name) && All(name, IsNonSpace)
    ensures ExtractFilenameFromCodeBlock(content) == Some(name)
  {
    PathHasNoStar(name);
    LineLineFor(line, name);
    PathKeepsBackticks(name);
    NameFromLine(content, ws, line, rest, name, name);
  }

  /** `slash-star ` + backtick-quoted name + ` star-slash` announces the name without backticks. */
  lemma BlockQuotedName(content: string, ws: string, line: string, tok: string, name: string, rest: string)
    requires tok == "`" + name + "`" && line == "/* " + tok + " */" && content == ws + (line + "\n" + rest)
    requires All(ws, IsSpace) && IsFilePath(name) && All(name, IsNonSpace)
    ensures ExtractFilenameFromCodeBlock(content) == Some(name)
  {
    QuotedToken(name, tok);
    BlockLineFor(line, tok);
    NameFromLine(content, ws, line, rest, tok, name);
  }

  /** `// ` + backtick-quoted name announces the name without backticks. */
  lemma LineQuotedName(content: string, ws: string, line: string, tok: string, name: string, rest: string)
    requires tok == "`" + name + "`" && line == "// " + tok && content == ws + (line + "\n" + rest)
    requires All(ws, IsSpace) && IsFilePath(name) && All(name, IsNonSpace)
    ensures ExtractFilenameFromCodeBlock(content) == Some(name)
  {
    QuotedToken(name, tok);
    LineLineFor(line, tok);
    NameFromLine(content, ws, line, rest, tok, name);
  }
}
