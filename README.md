# llm-file-diff: extracting files from a language-model reply

This project models the core of `llm-file-diff` in Dafny and proves properties of the model.
The core takes a language model's reply, finds its fenced code blocks, and files each block
under a path. The path is the first context file whose name ends with the block's extension.
When no context file has that extension, the path is a made-up name. The core also has helpers
that read a file name from a line of prose or from a comment on a block's first line.

Each source file is one module:

| module | file | what it is |
|---|---|---|
| `Text` | (shared) | JavaScript's `\s`, `\S`, `\w` and `[a-z]` classes, greedy runs, `trim`, `split("\n")[0]`, `endsWith` |
| `TrimChar` | `trim_char.dfy` | `trimChar(s, ends)`: removes a run of `ends` characters at each end |
| `FilePath` | `is_file_path.dfy` | `isFilePath`: the path pattern and the invalid-character test |
| `CommentString` | `comment_string.dfy` | `extractCommentString`: the block-comment pattern first, then the line-comment pattern |
| `LineFilename` | `line_filename.dfy` | `extractFilenameFromLine` and the `findQuoted` scan |
| `CodeBlockFilename` | `code_block_filename.dfy` | `extractFilenameFromCodeBlock` |
| `CodeBlocks` | `code_blocks.dfy` | `extractCodeBlocks`: the `exec` loop over the fence pattern |
| `ExtractFiles` | `extract_files.dfy` | `extractFilesFromAIResponse`: the loop that fills the result object |

Each `*_examples.dfy` module proves the cases of the matching test file as the code computes them. Where a test expects something the code does not produce, the lemma states what the code produces; the list below names those tests.

Models of the regular expressions:

- Each pattern has a predicate that states the pattern by positions, for example `CodeBlocks.FenceShape` and `CommentString.BlockShape`.
- Each pattern also has a function that finds the match the JavaScript engine reports: the leftmost one, with the lazy or greedy choice the pattern makes.
- Lemmas named `...IsPattern` prove that function against the predicate.

Scans:

- The two `exec` loops are methods with loop invariants: `CodeBlocks.ExtractCodeBlocks` and `LineFilename.FindQuoted`. So is the loop that fills the result object, `ExtractFiles.ExtractFilesFromAIResponse`.
- Each method is proved equal to a function. Lemmas then state what the source promises about that function.
- A generator becomes the sequence of everything it yields, read to the end.

Modelling choices:

- `randomId()` is a parameter `randomId: nat -> string`. The block with index `n` draws `randomId(n)`.
- `contextFiles` is a sequence of (path, content) pairs in `Object.keys` order.
- The result object is a `map<string, string>`.

Where the code and its tests disagree, the model follows the code:

- `src/extractFiles.test.ts:75-92` expects the second TypeScript block to replace the first. The code at `src/extractFiles.ts:82-84` appends it after a line feed. `ExtractFilesExamples.SameTypeAppends` proves what the code returns.
- `src/extractCommentString.test.ts:48-53` is a skipped test. It expects a line comment placed before a block comment to win. The code tries the block pattern over the whole text first (`src/extractCommentString.ts:7-8`), so the block comment wins.
- `src/extractFilenameFromLine.test.ts:56-64` expects a leading or trailing `#` to be stripped. The code does not strip it.
- Five tests of `extractCodeBlocks` compare with `deepStrictEqual` against records that carry a `previousLine` field: `src/extractCodeBlocks.test.ts:14-19`, `44-56`, `75-87`, `102-107` and `121-127`. The code at `src/extractCodeBlocks.ts:16-18` yields only `{fileType, content}`, so these five tests fail against it. `CodeBlocksExamples.JavaScriptBlock`, `TwoBlocksWithProse`, `AdjacentBlocks`, `UntypedBlock` and `BareBlock` prove the `fileType` and `content` the code yields, and nothing about `previousLine`.
- Each of these cases is proved as the code computes it.

## Model

| member | source | states |
|---|---|---|
| Text.Trim | src/extractCodeBlocks.ts:16-17 | `trim` leaves an empty string or one that starts and ends outside `\s` |
| Text.TrimSliceIsTrim | src/extractCodeBlocks.ts:16-17 | trimming a slice by index arithmetic equals `trim` of the slice |
| Text.TrimSliceTrimmed | src/extractCodeBlocks.ts:16-17 | the trimmed slice starts and ends outside `\s` |
| Text.TrimUnchanged | src/extractCommentString.ts:11 | `trim` gives back a string that starts and ends outside `\s` |
| Text.FirstLine | src/extractFilenameFromCodeBlock.ts:8 | `split("\n")[0]` is a prefix with no line feed, followed by a line feed or the end |
| Text.FirstLineOf | src/extractFilenameFromCodeBlock.ts:8 | a line with no line feed, followed by a line feed and anything, is the first line |
| Text.TrimFirstLine | src/extractFilenameFromCodeBlock.ts:8 | a first line that starts and ends outside `\s` is the first line of the trimmed text, whatever follows it |
| Text.TrimFirstLineAfterSpace | src/extractFilenameFromCodeBlock.ts:8 | after any run of leading whitespace, such a first line is still the first line of the trimmed text |
| Text.Strip | src/trimChar.ts:3-6 | the result is no longer than the input and neither starts nor ends with a character of the class |
| Text.StripBounds | src/trimChar.ts:3-6 | the input is the stripped part padded on each side by a run of class characters |
| Text.StripPadded | src/trimChar.ts:3-6 | padding a string whose ends lie outside the class, then stripping, gives the string back |
| Text.StripIdempotent | src/trimChar.ts:3-6 | stripping twice is stripping once |
| TrimChar.TrimChar | src/trimChar.ts:1-7 | `trimChar(s, ends)` leaves an empty string or one whose first and last characters are not in `ends` |
| TrimChar.TrimCharSplits | src/trimChar.ts:3-6 | `s` is a run of `ends` characters, then the result, then another run |
| TrimChar.TrimCharKeeps | src/trimChar.ts:3-6 | the result is a piece of `s`, so it keeps any property every character of `s` has |
| TrimChar.TrimCharOfPadded | src/trimChar.ts:3-6 | padding a string whose ends are outside `ends`, then trimming, gives it back, inner `ends` characters included |
| TrimChar.TrimCharIdempotent | src/trimChar.ts:3-6 | trimming twice is trimming once |
| TrimChar.TrimCharUnchanged | src/trimChar.ts:3-6 | an empty string, or one whose ends are outside `ends`, is unchanged |
| TrimChar.TrimCharAllEnds | src/trimChar.ts:3-6 | a string made only of `ends` characters trims to the empty string |
| TrimChar.TrimCharRunExample | src/trimChar.ts:9 | `trimChar("!!!Hello World!!!", "!")` is `"Hello World"` |
| TrimChar.TrimCharSetExample | src/trimChar.ts:12 | `trimChar("abcHello Worldcba", "abc")` is `"Hello World"`: `ends` is a set of characters |
| TrimChar.TrimCharDoubleExample | src/trimChar.ts:10 | `trimChar("xxHello Worldxx", "x")` is `"Hello World"` |
| TrimChar.TrimCharSpaceExample | src/trimChar.ts:11 | `trimChar("   Hello World   ", " ")` is `"Hello World"`: the inner space is kept |
| FilePath.IsFilePath | src/isFilePath.ts:7-22 | an accepted path is non-empty and holds no invalid character |
| FilePath.SegmentsTestIsPattern | src/isFilePath.ts:15 | the scan of the repeated `[\\/][\w .-]+` group accepts exactly the strings that group matches |
| FilePath.BodyTestIsPattern | src/isFilePath.ts:15 | the body test accepts exactly what the head alternatives and then the segment groups match |
| FilePath.StemTestIsPattern | src/isFilePath.ts:15 | the stem test accepts exactly the optional drive followed by a body |
| FilePath.PathRegexTestIsPattern | src/isFilePath.ts:15 | the test accepts exactly the strings matching `filePathRegex`: a stem, then `.` and word characters up to the end |
| FilePath.IsFilePathIsPattern | src/isFilePath.ts:9-21 | `isFilePath` holds exactly for the non-empty strings with no invalid character that match `filePathRegex` |
| FilePath.AbsoluteBodyTest | src/isFilePath.ts:15 | a `[\\/].+` head followed by separator groups passes the body test |
| FilePath.RelativeBodyTest | src/isFilePath.ts:15 | a `[^\\/]+` head followed by separator groups passes the body test |
| FilePath.AcceptedPathShape | src/isFilePath.ts:14-21 | an accepted path ends in `.` and word characters, and a dot follows its last separator |
| FilePath.AcceptedFromPieces | src/isFilePath.ts:15 | a drive, a body and a dotted extension, with no invalid character, make an accepted path |
| FilePathExamples.EmptyRejected | src/isFilePath.test.ts:6-8 | the empty string is rejected |
| FilePathExamples.DrivePathAccepted | src/isFilePath.test.ts:11 | a drive-rooted path is accepted |
| FilePathExamples.RootedPathAccepted | src/isFilePath.test.ts:12 | a rooted path is accepted |
| FilePathExamples.DocumentPathAccepted | src/isFilePath.test.ts:13 | a rooted document path is accepted |
| FilePathExamples.ScriptPathAccepted | src/isFilePath.test.ts:14 | a rooted script path is accepted |
| FilePathExamples.RelativePathAccepted | src/isFilePath.test.ts:18 | a relative path is accepted |
| FilePathExamples.ParentRelativePathAccepted | src/isFilePath.test.ts:19 | a path that climbs to a parent directory is accepted |
| FilePathExamples.DriveNoExtensionRejected | src/isFilePath.test.ts:22-25 | a drive path without an extension is rejected |
| FilePathExamples.RootedNoExtensionRejected | src/isFilePath.test.ts:22-25 | a rooted path without an extension is rejected |
| FilePathExamples.UnusualCharactersAccepted | src/isFilePath.test.ts:27-29 | in the skipped test, `@` and `~` after a rooted separator are accepted |
| FilePathExamples.DriveWithoutSeparatorAccepted | src/isFilePath.test.ts:31-33 | in the skipped test, a drive with no separator is accepted |
| FilePathExamples.TrailingDotRejected | src/isFilePath.test.ts:35-38 | a bare trailing dot is rejected |
| FilePathExamples.ExtensionInDirectoryRejected | src/isFilePath.test.ts:35-38 | a dot only in a directory name is rejected |
| FilePathExamples.SubdirStyleSheetAccepted | src/extractFilenameFromCodeBlock.test.ts:6-13 | the style sheet name is a path |
| FilePathExamples.SubdirScriptAccepted | src/extractFilenameFromCodeBlock.test.ts:24-31 | the script name is a path |
| CommentString.LastClose | src/extractCommentString.ts:3 | the last closing star-slash strictly between two indices, where the greedy capture can stop |
| CommentString.BlockAtIndex | src/extractCommentString.ts:3 | the block pattern anchored at an index: a capture of non-spaces that ends before its closing delimiter |
| CommentString.BlockAtIndexSound | src/extractCommentString.ts:3 | what the anchored block match reports is a match of the pattern |
| CommentString.BlockAtIndexIsPattern | src/extractCommentString.ts:3 | the anchored block match reports the match with the longest capture whenever there is one, and none otherwise |
| CommentString.FindBlock | src/extractCommentString.ts:3 | `exec` of the block pattern gives a capture of non-spaces at or after the start index |
| CommentString.FindBlockIsPattern | src/extractCommentString.ts:3 | `exec` of the block pattern reports the leftmost match with the longest capture there, and none when no match exists |
| CommentString.LineAtIndexIsPattern | src/extractCommentString.ts:4 | the anchored line match reports the longest capture, the whole run of non-spaces, whenever there is a match |
| CommentString.FindLine | src/extractCommentString.ts:4 | `exec` of the line pattern gives a capture of non-spaces at or after the start index |
| CommentString.FindLineIsPattern | src/extractCommentString.ts:4 | `exec` of the line pattern reports the leftmost match with the longest capture there, and none when no match exists |
| CommentString.ExtractCommentString | src/extractCommentString.ts:1-12 | a returned token is non-empty and has no whitespace |
| CommentString.CaptureText | src/extractCommentString.ts:11 | `match[1].trim()` is the capture itself |
| CommentString.BlockComment | src/extractCommentString.ts:7-11 | when the block pattern matches anywhere, the result is its leftmost longest capture |
| CommentString.LineComment | src/extractCommentString.ts:7-11 | with no block match, the result is the capture of the leftmost line match |
| CommentString.NoComment | src/extractCommentString.ts:7-12 | the result is `undefined` exactly when neither pattern matches |
| CommentString.OneTokenInBlock | src/extractCommentString.ts:3 | inside a block match, after a non-space and a later space, only spaces follow up to the closing delimiter |
| CommentString.TwoTokensNoBlock | src/extractCommentString.ts:3 | two whitespace-separated tokens before the first closing delimiter do not match the block pattern |
| CommentString.NoStarNoBlock | src/extractCommentString.ts:3 | text without a star never matches the block pattern |
| CommentString.NoSlashNoComment | src/extractCommentString.ts:3-4 | text without a slash matches neither pattern |
| CommentString.BlockCommentAt | src/extractCommentString.ts:7-11 | a block match after star-free text gives its capture |
| CommentString.LineCommentAt | src/extractCommentString.ts:7-11 | a line match after slash-free text, in text without a star, gives its capture |
| CommentStringExamples.BlockCommentAlone | src/extractCommentString.test.ts:7-9 | a lone block comment gives its token |
| CommentStringExamples.BlockCommentThenText | src/extractCommentString.test.ts:11-16 | a block comment before code gives its token |
| CommentStringExamples.CodeThenBlockComment | src/extractCommentString.test.ts:18-23 | a block comment after code gives its token |
| CommentStringExamples.LineCommentAlone | src/extractCommentString.test.ts:26-31 | a lone line comment gives its token |
| CommentStringExamples.CodeThenLineComment | src/extractCommentString.test.ts:33-38 | a line comment after code gives its token |
| CommentStringExamples.BlockBeforeLineComment | src/extractCommentString.test.ts:41-46 | the block comment wins over a later line comment |
| CommentStringExamples.LineBeforeBlockComment | src/extractCommentString.test.ts:48-53 | the block comment also wins over an earlier line comment, against the skipped test |
| CommentStringExamples.NoCommentInProse | src/extractCommentString.test.ts:56-61 | prose without a comment gives `undefined` |
| CommentStringExamples.LeadingSpaces | src/extractCommentString.test.ts:64-69 | spaces before the token are skipped |
| CommentStringExamples.TrailingSpaces | src/extractCommentString.test.ts:71-76 | spaces after the token are skipped |
| CommentStringExamples.EmptyCode | src/extractCommentString.test.ts:79-81 | the empty string gives `undefined` |
| CommentStringExamples.TwoTokenBlock | src/extractCommentString.ts:3 | the block pattern does not match at a block comment holding two tokens, and `/* a b */` gives `undefined` |
| LineFilename.QuotedAtIndex | src/extractFilenameFromLine.ts:14 | the anchored quote match reports only matches of the pattern at the index |
| LineFilename.QuotedAtForced | src/extractFilenameFromLine.ts:14 | every match at an index closes at the first quote after the opening one |
| LineFilename.QuotedAtIndexComplete | src/extractFilenameFromLine.ts:14 | when the anchored quote match reports nothing, no match starts at the index |
| LineFilename.NextQuoted | src/extractFilenameFromLine.ts:14-17 | `exec` reports a match of the quote pattern at or after the start index |
| LineFilename.NextQuotedIsPattern | src/extractFilenameFromLine.ts:14-17 | `exec` reports the leftmost match, and none when there is none |
| LineFilename.UnquotedNoMatch | src/extractFilenameFromLine.ts:14 | a string without quotes has no match |
| LineFilename.QuotedSpans | src/extractFilenameFromLine.ts:17-19 | the successive matches lie in the line, in order, without overlap |
| LineFilename.QuotedSpansLeftmost | src/extractFilenameFromLine.ts:17-19 | every match the scan passes over starts inside an earlier match |
| LineFilename.CandidatesFrom | src/extractFilenameFromLine.ts:17-19 | every yielded capture is non-empty and holds no quote |
| LineFilename.CandidatesAreCaptures | src/extractFilenameFromLine.ts:17-19 | each candidate is the text between the quotes of its match |
| LineFilename.FindQuoted | src/extractFilenameFromLine.ts:13-20 | the `exec` loop yields exactly the candidates of the line |
| LineFilename.FirstPathIndex | src/extractFilenameFromLine.ts:8-10 | the first index whose candidate is a file path, and none exactly when no candidate is |
| LineFilename.ExtractFilenameFromLine | src/extractFilenameFromLine.ts:3-11 | a returned name is a file path, and a line that is a file path is returned whole |
| LineFilename.FirstCandidateWins | src/extractFilenameFromLine.ts:5-10 | a line that is not a file path gives its first candidate that is one |
| LineFilename.ResultIsLineOrCandidate | src/extractFilenameFromLine.ts:3-11 | the result is the line itself or the first candidate that is a file path |
| LineFilename.NothingFound | src/extractFilenameFromLine.ts:3-11 | nothing is found exactly when neither the line nor any candidate is a file path |
| LineFilename.UnquotedNoCandidates | src/extractFilenameFromLine.ts:13-20 | a line without quotes has no candidates |
| LineFilename.PathHasNoQuote | src/isFilePath.ts:18-21 | a file path holds no quote character |
| LineFilename.TwoCandidates | src/extractFilenameFromLine.ts:17-19 | the first two matches give the first two candidates |
| LineFilename.QuotedPathFound | src/extractFilenameFromLine.ts:3-11 | a line whose first quoted piece is a file path gives that piece |
| LineFilename.SecondQuotedPathFound | src/extractFilenameFromLine.ts:3-11 | when the first quoted piece is not a file path and the second is, the second is returned |
| LineFilename.UnquotedNonPath | src/extractFilenameFromLine.ts:3-11 | a line without quotes that is not a file path gives nothing |
| LineFilenameExamples.UnquotedPath | src/extractFilenameFromLine.test.ts:6-9 | an unquoted path is returned whole |
| LineFilenameExamples.DoubleQuotedPath | src/extractFilenameFromLine.test.ts:11-16 | a double-quoted path is found |
| LineFilenameExamples.NoPathInProse | src/extractFilenameFromLine.test.ts:18-21 | prose without a path gives nothing |
| LineFilenameExamples.SecondQuotedIsPath | src/extractFilenameFromLine.test.ts:23-28 | the second quoted piece is found when the first is no path |
| LineFilenameExamples.SingleQuotedPath | src/extractFilenameFromLine.test.ts:30-35 | a single-quoted path is found |
| LineFilenameExamples.BacktickQuotedPath | src/extractFilenameFromLine.test.ts:37-42 | a backtick-quoted path is found |
| LineFilenameExamples.EmptyLine | src/extractFilenameFromLine.test.ts:44-47 | the empty line gives nothing |
| LineFilenameExamples.QuotedRelativePath | src/extractFilenameFromLine.test.ts:49-54 | a quoted relative path is found |
| LineFilenameExamples.HashPrefixedLine | src/extractFilenameFromLine.test.ts:56-59 | a line with a leading `#` is returned whole, since it passes the path test |
| LineFilenameExamples.HashSuffixedLine | src/extractFilenameFromLine.test.ts:61-64 | a line with a trailing `#` and no quotes gives nothing |
| CodeBlockFilename.TrimBackticks | src/extractFilenameFromCodeBlock.ts:13 | the result neither starts nor ends with a backtick |
| CodeBlockFilename.BackticksSplit | src/extractFilenameFromCodeBlock.ts:13 | the token is a run of backticks, the result, and another run |
| CodeBlockFilename.BackticksUnchanged | src/extractFilenameFromCodeBlock.ts:13 | a token whose ends are not backticks is unchanged |
| CodeBlockFilename.BackticksAround | src/extractFilenameFromCodeBlock.ts:13 | a name between single backticks loses them |
| CodeBlockFilename.BackticksKeepNonSpace | src/extractFilenameFromCodeBlock.ts:13 | stripping backticks from a token without whitespace leaves a string without whitespace |
| CodeBlockFilename.ExtractFilenameFromCodeBlock | src/extractFilenameFromCodeBlock.ts:5-16 | a returned name is a file path without whitespace or backticks |
| CodeBlockFilename.FirstLineToken | src/extractFilenameFromCodeBlock.ts:8-11 | the comment token of the trimmed content's first line is non-empty and has no whitespace |
| CodeBlockFilename.EmptyLineNoToken | src/extractFilenameFromCodeBlock.ts:9 | an empty first line has no token |
| CodeBlockFilename.FilenameIffToken | src/extractFilenameFromCodeBlock.ts:8-15 | a name is returned exactly when the first line's token, with backticks stripped, is a file path |
| CodeBlockFilename.FilenameOfToken | src/extractFilenameFromCodeBlock.ts:13-15 | the returned name is the first line's token with backticks stripped |
| CodeBlockFilename.FilenameIsToken | src/extractFilenameFromCodeBlock.ts:13-15 | the returned name is the token less a run of backticks at each end |
| CodeBlockFilename.LeadingSpaceSkipped | src/extractFilenameFromCodeBlock.ts:8 | leading whitespace, blank lines included, does not change the result |
| CodeBlockFilename.FirstLineDecides | src/extractFilenameFromCodeBlock.ts:8 | text after the first line feed does not change the result |
| CodeBlockFilename.FromLine | src/extractFilenameFromCodeBlock.ts:8-15 | a first line with token `tok` gives `tok` with backticks stripped, when that is a file path |
| CodeBlockFilename.FromCommentLine | src/extractFilenameFromCodeBlock.ts:8-15 | the same line after leading whitespace and before more lines gives the same name |
| CodeBlockFilename.PathHasNoBacktick | src/isFilePath.ts:18-21 | a file path holds no backtick |
| CodeBlockFilename.PathHasNoStar | src/isFilePath.ts:18-21 | a file path holds no asterisk |
| CodeBlockFilename.PathKeepsBackticks | src/extractFilenameFromCodeBlock.ts:13-15 | stripping backticks leaves a file path unchanged |
| CodeBlockFilename.BlockLineToken | src/extractCommentString.ts:3 | a block comment around a token without whitespace, as the first line, gives the token |
| CodeBlockFilename.LineLineToken | src/extractCommentString.ts:4 | a line comment before a token, as the first line, gives the token |
| CodeBlockFilename.QuotedToken | src/extractFilenameFromCodeBlock.ts:13 | a file name between backticks is a token without whitespace or asterisk |
| CodeBlockFilename.NameFromLine | src/extractFilenameFromCodeBlock.ts:8-15 | a first line with token `tok`, after leading whitespace, gives the name that `tok` leaves |
| CodeBlockFilename.BlockCommentName | src/extractFilenameFromCodeBlock.ts:8-15 | a block comment holding a file name on the first line gives that name |
| CodeBlockFilename.LineCommentName | src/extractFilenameFromCodeBlock.ts:8-15 | a line comment with a file name on the first line gives that name |
| CodeBlockFilename.BlockQuotedName | src/extractFilenameFromCodeBlock.ts:8-15 | a block comment holding a backtick-quoted name gives the name without backticks |
| CodeBlockFilename.LineQuotedName | src/extractFilenameFromCodeBlock.ts:8-15 | a line comment with a backtick-quoted name gives the name without backticks |
| CodeBlockFilenameExamples.StyleSheetWithFileComment | src/extractFilenameFromCodeBlock.test.ts:6-13 | a style sheet with a block-comment name gives that name |
| CodeBlockFilenameExamples.StyleSheetWithQuotedName | src/extractFilenameFromCodeBlock.test.ts:15-22 | a style sheet with a backtick-quoted name gives the name |
| CodeBlockFilenameExamples.ScriptWithFileComment | src/extractFilenameFromCodeBlock.test.ts:24-31 | a script with a line-comment name gives that name |
| CodeBlockFilenameExamples.ScriptWithQuotedName | src/extractFilenameFromCodeBlock.test.ts:33-40 | a script with a backtick-quoted name gives the name |
| CodeBlocks.NextClose | src/extractCodeBlocks.ts:12 | the first closing fence at or after an index, where the lazy body stops |
| CodeBlocks.FenceAtIndex | src/extractCodeBlocks.ts:12 | the anchored match: the tag ends at the first line feed, then the body runs to the first closing fence |
| CodeBlocks.FenceAtIndexSound | src/extractCodeBlocks.ts:12 | what the anchored match reports is a match of the pattern |
| CodeBlocks.FenceAtIndexComplete | src/extractCodeBlocks.ts:12 | every match at the index has the reported tag and a closing fence no earlier than the reported one |
| CodeBlocks.FenceAtForced | src/extractCodeBlocks.ts:12 | a match at the index is the reported one |
| CodeBlocks.NextFence | src/extractCodeBlocks.ts:12-15 | `exec` reports a match at or after `lastIndex`, with room for both fences |
| CodeBlocks.NextFenceIsPattern | src/extractCodeBlocks.ts:12-15 | `exec` reports the leftmost match, and none when there is none |
| CodeBlocks.FenceSpansOrdered | src/extractCodeBlocks.ts:12-15 | the matches lie in the reply, in order, without overlap, each at least eight characters long |
| CodeBlocks.FenceSpansMatch | src/extractCodeBlocks.ts:12-15 | every match of the scan is a match of the pattern |
| CodeBlocks.TagIsLowercase | src/extractCodeBlocks.ts:12 | a match's tag holds lowercase letters only |
| CodeBlocks.BlockAtTag | src/extractCodeBlocks.ts:16 | `match[1].trim()` is the tag unchanged |
| CodeBlocks.BlockAtContentTrimmed | src/extractCodeBlocks.ts:17 | the content starts and ends outside `\s` |
| CodeBlocks.RecordsAt | src/extractCodeBlocks.ts:15-18 | one record per match, in the order of the matches |
| CodeBlocks.BlockIsMatch | src/extractCodeBlocks.ts:15-18 | the `j`-th record holds the `j`-th match's lowercase tag and its trimmed body |
| CodeBlocks.BlocksWellFormed | src/extractCodeBlocks.ts:15-18 | every record has a lowercase tag and trimmed content |
| CodeBlocks.ExtractCodeBlocks | src/extractCodeBlocks.ts:9-20 | the `exec` loop yields the record of every match, in order |
| CodeBlocks.RawBodyHasNoFence | src/extractCodeBlocks.ts:12 | no raw body holds a closing fence |
| CodeBlocks.FenceSpansLeftmost | src/extractCodeBlocks.ts:12-15 | the pattern matches nowhere the scan passes over |
| CodeBlocks.NoFenceNoSpans | src/extractCodeBlocks.ts:12-15 | with no opening fence, or no closing fence, after an index, there is no match |
| CodeBlocks.UnterminatedFence | src/extractCodeBlocks.ts:12 | an opening fence with no closing fence after it starts no match |
| CodeBlocks.NoBacktickNoBlocks | src/extractCodeBlocks.ts:12-19 | a reply without a backtick yields no block |
| CodeBlocksExamples.OneBlockReply | src/extractCodeBlocks.ts:12-19 | prose without backticks, one block and more such prose yield exactly that block |
| CodeBlocksExamples.TwoBlockReply | src/extractCodeBlocks.ts:12-19 | prose, a block, prose, a block and prose yield exactly the two blocks, in order |
| CodeBlocksExamples.JavaScriptBlock | src/extractCodeBlocks.test.ts:5-24 | one JavaScript block |
| CodeBlocksExamples.TwoBlocksWithProse | src/extractCodeBlocks.test.ts:26-60 | a TypeScript block and a Python block with prose between them |
| CodeBlocksExamples.AdjacentBlocks | src/extractCodeBlocks.test.ts:62-91 | two blocks separated by a single line feed |
| CodeBlocksExamples.UntypedBlock | src/extractCodeBlocks.test.ts:93-112 | a block without a tag has the empty tag |
| CodeBlocksExamples.BareBlock | src/extractCodeBlocks.test.ts:114-131 | a reply that is only a block |
| CodeBlocksExamples.ProseOnly | src/extractCodeBlocks.test.ts:133-145 | prose without blocks yields nothing |
| CodeBlocksExamples.BlankInput | src/extractCodeBlocks.test.ts:147-159 | a reply of one space yields nothing |
| ExtractFiles.ExtensionTableAgrees | src/extractFiles.ts:54-72 | the five tags get their table extension, which starts with a dot; every other tag, the empty one too, gets `"txt"` with no dot |
| ExtractFiles.ExtensionInjective | src/extractFiles.ts:54-72 | two known tags never share an extension |
| ExtractFiles.Keys | src/extractFiles.ts:77 | `Object.keys` lists the context paths in order |
| ExtractFiles.FindFromIsFirst | src/extractFiles.ts:77-79 | `find` from an index gives the first later path with the extension, and nothing exactly when no such path exists |
| ExtractFiles.MatchingContextFileIsFirst | src/extractFiles.ts:77-79 | the match is the first context path ending with the extension, and none exactly when no path does |
| ExtractFiles.NewFilenameShape | src/extractFiles.ts:74 | the made-up name ends with the extension; known tags get two dots before its letters, and other tags end in `.txt` |
| ExtractFiles.KeyForShape | src/extractFiles.ts:74-81 | the key ends with the block's extension and is a context path or the made-up name |
| ExtractFiles.KeyForPrefersContext | src/extractFiles.ts:77-81 | the first context path ending with the block's extension is the key |
| ExtractFiles.KeyForFallsBack | src/extractFiles.ts:81 | with no context path ending with the extension, the key is the made-up name |
| ExtractFiles.Store | src/extractFiles.ts:82-84 | one store adds the key, keeps every other file, and leaves the key's file ending with the content and a line feed |
| ExtractFiles.FilingsAt | src/extractFiles.ts:51-81 | one filing per block, the `n`-th holding that block's key with token `randomId(n)` and its content |
| ExtractFiles.ExtractFilesFromAIResponse | src/extractFiles.ts:45-88 | the loop builds exactly the files that storing every block's filing in order gives |
| ExtractFiles.StoreAllContents | src/extractFiles.ts:82-84 | a path is a key exactly when something is filed under it; its file is the first content and a line feed, then a line feed, the next content and a line feed for each later one |
| ExtractFiles.CollectedNonEmpty | src/extractFiles.ts:82 | a stored file is never empty, so the truthiness test is a test for the key |
| ExtractFiles.PathsOfBounds | src/extractFiles.ts:51-84 | there are no more distinct paths than filings, and they are exactly the paths filed under |
| ExtractFiles.StoreAllKeys | src/extractFiles.ts:82-84 | the result's keys are the paths filed under |
| ExtractFiles.ContentsForFilings | src/extractFiles.ts:51-84 | the contents filed under a path are the contents of the blocks whose key is that path, in block order |
| ExtractFiles.FilesContents | src/extractFiles.ts:45-88 | a path is a key of the result iff some block is filed under it, and its file is the contents of those blocks, in order, each followed by a line feed and every later one preceded by one |
| ExtractFiles.FilesEndWithLineFeed | src/extractFiles.ts:82-84 | every file ends with a line feed |
| ExtractFiles.FilesKeys | src/extractFiles.ts:51-84 | there are no more files than blocks, and a path is a key exactly when some block is filed under it |
| ExtractFiles.FilesKeysEndWithExtension | src/extractFiles.ts:74-81 | every key ends with the extension of a block filed under it |
| ExtractFiles.NoBlocksNoFiles | src/extractFiles.ts:49-51 | a reply without a backtick gives no files |
| ExtractFiles.OnlyPathsMatter | src/extractFiles.ts:77 | context files with the same paths give the same result, whatever their contents |
| ExtractFilesExamples.OneFile | src/extractFiles.ts:82-84 | a reply of one block gives one file, its content and a line feed, under its key |
| ExtractFilesExamples.TwoFiles | src/extractFiles.ts:82-84 | two blocks with different keys give two files; with one key they give one file holding both contents |
| ExtractFilesExamples.TypeScriptKey | src/extractFiles.test.ts:6-11 | with the test context a TypeScript block is filed under `file1.ts` |
| ExtractFilesExamples.JavaScriptKey | src/extractFiles.test.ts:6-11 | with the test context a JavaScript block is filed under `file2.js` |
| ExtractFilesExamples.JsonKey | src/extractFiles.test.ts:6-11 | with the test context a JSON block is filed under `file3.json` |
| ExtractFilesExamples.CssKey | src/extractFiles.test.ts:6-11 | with the test context a CSS block is filed under `subdir/file4.css` |
| ExtractFilesExamples.MadeUpKeys | src/extractFiles.test.ts:6-11 | with the test context an HTML block or an unknown tag gets the made-up name |
| ExtractFilesExamples.TypeScriptFile | src/extractFiles.test.ts:13-20 | the TypeScript block fills `file1.ts` |
| ExtractFilesExamples.JavaScriptFile | src/extractFiles.test.ts:22-29 | the JavaScript block fills `file2.js` |
| ExtractFilesExamples.JsonFile | src/extractFiles.test.ts:31-37 | the JSON block fills `file3.json` |
| ExtractFilesExamples.UnknownTypeFile | src/extractFiles.test.ts:39-46 | an unknown tag gives the one file `"unsupported" + token + ".txt"` |
| ExtractFilesExamples.NoTypeFile | src/extractFiles.test.ts:48-54 | the empty tag gives the one file `token + ".txt"` |
| ExtractFilesExamples.TwoTypesTwoFiles | src/extractFiles.test.ts:56-73 | a TypeScript block and a JavaScript block fill `file1.ts` and `file2.js` |
| ExtractFilesExamples.SameTypeAppends | src/extractFiles.test.ts:75-92 | two TypeScript blocks give one file, `file1.ts`, holding the first content and then the second |
| ExtractFilesExamples.UniqueFilename | src/extractFiles.test.ts:94-100 | the HTML block gives the one file `"html" + token + "..html"`, which ends with `.html` |
| ExtractFilesExamples.SubdirFile | src/extractFiles.test.ts:102-112 | the CSS block fills the sub-directory path `subdir/file4.css` |

## Left out

- `randomId` (src/extractFiles.ts:89): `Math.random` is left out. The model takes the token of each block as a parameter, so the made-up names hold for every token.
- Generators: `extractCodeBlocks` and `findQuoted` are modelled as the full sequence they yield. `extractFilenameFromLine` leaves its loop at the first path, and that is modelled as taking the first path in the sequence. Laziness itself is not modelled.
- The regular-expression engine is not modelled in general. Each pattern is a hand-written predicate and matcher. Characters are Dafny `char`s: there is no UTF-16 surrogate handling.
- `Object.keys` order: the context is taken as an already ordered sequence of pairs. Integer-like keys, which JavaScript lists first, are not modelled.
- The result object is a map. Keys inherited from `Object.prototype` are not modelled: no such key ends with an extension the code uses.
- TrimChar.TrimChar: requires that `ends` holds no character that is special inside a character class (`]`, `\`, `^` or `-`). The code inserts `ends` into a pattern unescaped, so other `ends` would change the pattern. Every caller passes a single backtick.
- FilePath.IsFilePath: the `typeof path !== "string"` guard of src/isFilePath.ts:9 is not modelled. A Dafny string is always a string.
- Test cases that the code does not implement are proved as the code behaves, as described above:
  - src/extractFiles.test.ts:75-92;
  - src/extractCommentString.test.ts:48-53;
  - src/extractFilenameFromLine.test.ts:56-64;
  - src/extractCodeBlocks.test.ts:14-19, 44-56, 75-87, 102-107 and 121-127: the code yields no `previousLine`, so the examples prove `fileType` and `content` only.
- src/extractFiles.test.ts:114-200 tests a newer interface with resolver callbacks that src/extractFiles.ts does not have. Those cases are not part of this model.
