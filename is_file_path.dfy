/**
 * `isFilePath(path)` (src/isFilePath.ts): a syntactic file-path classifier. A path is accepted when it
 * is non-empty, contains none of `< > " ' ` | ? *`, and matches the anchored pattern
 *
 *     ^(?:[a-zA-Z]:)?(?:[\\/].+|[^\\/]+)(?:[\\/][\w .-]+)*\.\w+$
 *
 * The pattern is stated below twice: as a ghost predicate that follows it piece by piece
 * (`MatchesPathRegex`), and as a deterministic test (`PathRegexTest`) that `IsFilePath` uses.
 * `IsFilePathIsPattern` proves that the two agree on every string.
 */
module FilePath {
  import opened Text

  /** `[\\/]` */
  predicate IsSeparator(c: char) { c == '/' || c == '\\' }

  /** `[^\\/]` */
  predicate IsNotSeparator(c: char) { !IsSeparator(c) }

  /** `[\w .-]` */
  predicate IsSegmentChar(c: char) { IsWordChar(c) || c == ' ' || c == '.' || c == '-' }

  /** `.`: anything but a line terminator. */
  predicate IsAnyChar(c: char) { !IsLineTerminator(c) }

  /** `[a-zA-Z]` */
  predicate IsAsciiLetter(c: char) { ('a' <= c <= 'z') || ('A' <= c <= 'Z') }

  /** `[<>"'`|?*]`, the characters `invalidCharactersRegex` looks for. */
  predicate IsInvalidChar(c: char)
  {
    c == '<' || c == '>' || c == '"' || c == '\'' || c == '`' || c == '|' || c == '?' || c == '*'
  }

  predicate IsValidChar(c: char) { !IsInvalidChar(c) }

  // ---------------------------------------------------------------------------------------------
  // The pattern, piece by piece

  /** `[\\/].+` */
  ghost predicate AbsoluteHead(x: string)
  {
    |x| >= 2 && IsSeparator(x[0]) && forall k :: 1 <= k < |x| ==> IsAnyChar(x[k])
  }

  /** `[^\\/]+` */
  ghost predicate RelativeHead(x: string)
  {
    |x| >= 1 && All(x, IsNotSeparator)
  }

  /** `(?:[\\/][\w .-]+)*` */
  ghost predicate Segments(g: string)
    decreases |g|
  {
    g == [] ||
    (IsSeparator(g[0]) &&
     exists j :: 2 <= j <= |g| && All(g[1..j], IsSegmentChar) && Segments(g[j..]))
  }

  /** `(?:[\\/].+|[^\\/]+)(?:[\\/][\w .-]+)*` */
  ghost predicate Body(m: string)
  {
    exists j :: 0 <= j <= |m| && (AbsoluteHead(m[..j]) || RelativeHead(m[..j])) && Segments(m[j..])
  }

  /** `(?:[a-zA-Z]:)?` followed by the body */
  ghost predicate Stem(p: string)
  {
    Body(p) || (|p| >= 2 && IsAsciiLetter(p[0]) && p[1] == ':' && Body(p[2..]))
  }

  /** The whole `filePathRegex`, anchored at both ends: a stem, then `\.\w+` up to the end. */
  ghost predicate MatchesPathRegex(s: string)
  {
    exists k :: 0 <= k && k + 1 < |s| && s[k] == '.' && All(s[k + 1..], IsWordChar) && Stem(s[..k])
  }

  // ---------------------------------------------------------------------------------------------
  // The deterministic test

  /** `(?:[\\/][\w .-]+)*` up to the end. A segment character is never a separator, so each
      group ends exactly where its run of segment characters ends. */
  function SegmentsTest(g: string): bool
    decreases |g|
  {
    g == [] ||
    (IsSeparator(g[0]) &&
     var n := Span(g, 1, IsSegmentChar);
     n >= 1 && SegmentsTest(g[1 + n..]))
  }

  function BodyTest(m: string): bool
  {
    (|m| >= 2 && IsSeparator(m[0]) && Span(m, 1, IsAnyChar) == |m| - 1)
    || (|m| >= 1 && IsNotSeparator(m[0]) && SegmentsTest(m[Span(m, 0, IsNotSeparator)..]))
  }

  function StemTest(p: string): bool
  {
    BodyTest(p) || (|p| >= 2 && IsAsciiLetter(p[0]) && p[1] == ':' && BodyTest(p[2..]))
  }

  /** `filePathRegex.test(s)`: the extension is the trailing run of word characters, and the
      character before it must be the dot. */
  function PathRegexTest(s: string): bool
  {
    var stem := TrimEnd(s, IsWordChar);
    1 <= |stem| < |s| && stem[|stem| - 1] == '.' && StemTest(stem[..|stem| - 1])
  }

  /** src/isFilePath.ts:9-21. The `typeof path !== "string"` guard is vacuous for a `string`. */
  function IsFilePath(path: string): (r: bool)
    ensures r ==> path != [] && All(path, IsValidChar)
  {
    if |path| == 0 then false
    else
      var hasInvalid := Span(path, 0, IsValidChar) < |path|;  // invalidCharactersRegex.test(path)
      SpanRun(path, 0, IsValidChar);
      !hasInvalid && PathRegexTest(path)
  }

  // ---------------------------------------------------------------------------------------------
  // The test decides the pattern

  lemma {:induction false} SegmentsTestChars(g: string)
    requires SegmentsTest(g)
    ensures forall k :: 0 <= k < |g| ==> IsSeparator(g[k]) || IsSegmentChar(g[k])
    decreases |g|
  {
    if g != [] {
      var n := Span(g, 1, IsSegmentChar);
      SpanRun(g, 1, IsSegmentChar);
      var rest := g[1 + n..];
      SegmentsTestChars(rest);
      forall k | 1 + n <= k < |g| ensures IsSeparator(g[k]) || IsSegmentChar(g[k]) {
        assert g[k] == rest[k - 1 - n];
      }
    }
  }

  lemma {:induction false} SegmentsTestSound(g: string)
    requires SegmentsTest(g)
    ensures Segments(g)
    decreases |g|
  {
    if g != [] {
      var n := Span(g, 1, IsSegmentChar);
      SpanRun(g, 1, IsSegmentChar);
      var j := 1 + n;
      SegmentsTestSound(g[j..]);
      assert All(g[1..j], IsSegmentChar) by {
        forall i | 0 <= i < n ensures IsSegmentChar(g[1..j][i]) {
          assert g[1..j][i] == g[1 + i];
        }
      }
      assert 2 <= j <= |g| && All(g[1..j], IsSegmentChar) && Segments(g[j..]);
    }
  }

  lemma {:induction false} SegmentsTestComplete(g: string)
    requires Segments(g)
    ensures SegmentsTest(g)
    decreases |g|
  {
    if g != [] {
      var j :| 2 <= j <= |g| && All(g[1..j], IsSegmentChar) && Segments(g[j..]);
      assert j < |g| ==> g[j] == g[j..][0];
      forall i | 1 <= i < j ensures IsSegmentChar(g[i]) {
        assert g[i] == g[1..j][i - 1];
      }
      SpanIs(g, 1, IsSegmentChar, j - 1);
      SegmentsTestComplete(g[j..]);
    }
  }

  lemma SegmentsTestIsPattern(g: string)
    ensures SegmentsTest(g) <==> Segments(g)
  {
    if SegmentsTest(g) { SegmentsTestSound(g); }
    if Segments(g) { SegmentsTestComplete(g); }
  }

  lemma BodyTestSound(m: string)
    requires BodyTest(m)
    ensures Body(m)
  {
    var f := Span(m, 0, IsNotSeparator);
    if |m| >= 2 && IsSeparator(m[0]) && Span(m, 1, IsAnyChar) == |m| - 1 {
      SpanRun(m, 1, IsAnyChar);
      assert m[..|m|] == m && m[|m|..] == [];
      assert AbsoluteHead(m[..|m|]) && Segments(m[|m|..]);
    } else {
      SegmentsTestSound(m[f..]);
      SpanRun(m, 0, IsNotSeparator);
      assert RelativeHead(m[..f]) by {
        forall k | 0 <= k < f ensures IsNotSeparator(m[..f][k]) {
          assert m[..f][k] == m[k];
        }
      }
    }
  }

  /** `[\/].+` absorbs whatever separator groups follow it. */
  lemma AbsoluteBodyTest(m: string, j: nat)
    requires j <= |m| && AbsoluteHead(m[..j]) && Segments(m[j..])
    ensures BodyTest(m)
  {
    SegmentsTestComplete(m[j..]);
    SegmentsTestChars(m[j..]);
    forall k | 1 <= k < |m| ensures IsAnyChar(m[k]) {
      if k < j { assert m[k] == m[..j][k]; } else { assert m[k] == m[j..][k - j]; }
    }
    assert m[0] == m[..j][0];
    SpanIs(m, 1, IsAnyChar, |m| - 1);
  }

  /** `[^\/]+` stops exactly at the first separator. */
  lemma RelativeBodyTest(m: string, j: nat)
    requires j <= |m| && RelativeHead(m[..j]) && Segments(m[j..])
    ensures BodyTest(m)
  {
    SegmentsTestComplete(m[j..]);
    assert m[0] == m[..j][0];
    assert j < |m| ==> m[j] == m[j..][0];
    forall k | 0 <= k < j ensures IsNotSeparator(m[k]) {
      assert m[k] == m[..j][k];
    }
    SpanIs(m, 0, IsNotSeparator, j);
  }

  lemma BodyTestIsPattern(m: string)
    ensures BodyTest(m) <==> Body(m)
  {
    if BodyTest(m) {
      BodyTestSound(m);
    }
    if Body(m) {
      var j :| 0 <= j <= |m| && (AbsoluteHead(m[..j]) || RelativeHead(m[..j])) && Segments(m[j..]);
      if AbsoluteHead(m[..j]) {
        AbsoluteBodyTest(m, j);
      } else {
        RelativeBodyTest(m, j);
      }
    }
  }

  lemma StemTestIsPattern(p: string)
    ensures StemTest(p) <==> Stem(p)
  {
    BodyTestIsPattern(p);
    if |p| >= 2 {
      BodyTestIsPattern(p[2..]);
    }
  }

  lemma PathRegexTestIsPattern(s: string)
    ensures PathRegexTest(s) <==> MatchesPathRegex(s)
  {
    if PathRegexTest(s) {
      PathRegexTestSound(s);
    }
    if MatchesPathRegex(s) {
      PathRegexTestComplete(s);
    }
  }

  lemma PathRegexTestSound(s: string)
    requires PathRegexTest(s)
    ensures MatchesPathRegex(s)
  {
    var stem := TrimEnd(s, IsWordChar);
    TrimEndRun(s, IsWordChar);
    var k := |stem| - 1;
    assert s[k] == stem[k];
    var ext := s[k + 1..];
    assert All(ext, IsWordChar) by {
      forall i | 0 <= i < |ext| ensures IsWordChar(ext[i]) {
        assert ext[i] == s[k + 1 + i];
      }
    }
    assert s[..k] == stem[..k];
    StemTestIsPattern(s[..k]);
  }

  lemma PathRegexTestComplete(s: string)
    requires MatchesPathRegex(s)
    ensures PathRegexTest(s)
  {
    var stem := TrimEnd(s, IsWordChar);
    var k :| 0 <= k && k + 1 < |s| && s[k] == '.' && All(s[k + 1..], IsWordChar) && Stem(s[..k]);
    forall i | k + 1 <= i < |s| ensures IsWordChar(s[i]) {
      assert s[i] == s[k + 1..][i - k - 1];
    }
    TrimEndIs(s, IsWordChar, k + 1);
    assert stem[..k] == s[..k];
    StemTestIsPattern(s[..k]);
  }

  /** `isFilePath` accepts exactly the non-empty strings without invalid characters that match
      `filePathRegex`. */
  lemma IsFilePathIsPattern(s: string)
    ensures IsFilePath(s) <==> s != [] && All(s, IsValidChar) && MatchesPathRegex(s)
  {
    PathRegexTestIsPattern(s);
    if s != [] && All(s, IsValidChar) {
      SpanIs(s, 0, IsValidChar, |s|);
    }
  }

  // ---------------------------------------------------------------------------------------------
  // What an accepted path looks like

  /** An accepted path has no invalid character, ends in `.` and one or more word characters,
      and its extension lies in its last component: a dot follows every separator. */
  lemma AcceptedPathShape(s: string)
    ensures IsFilePath(s) ==> forall k :: 0 <= k < |s| ==> !IsInvalidChar(s[k])
    ensures IsFilePath(s) ==> IsWordChar(s[|s| - 1]) && '.' in s
    ensures IsFilePath(s) ==>
      exists k :: 0 <= k < |s| - 1 && s[k] == '.' && forall i :: k < i < |s| ==> IsWordChar(s[i])
    ensures IsFilePath(s) ==> forall i :: 0 <= i < |s| && IsSeparator(s[i]) ==> '.' in s[i + 1..]
  {
    if IsFilePath(s) {
      var stem := TrimEnd(s, IsWordChar);
      TrimEndRun(s, IsWordChar);
      var k := |stem| - 1;
      assert s[k] == stem[k] == '.';
      forall i | 0 <= i < |s| && IsSeparator(s[i]) ensures '.' in s[i + 1..] {
        assert i < k;
        assert s[i + 1..][k - i - 1] == s[k];
      }
    }
  }

  // ---------------------------------------------------------------------------------------------
  // Building matches of the pattern from its pieces

  lemma SegmentsCons(g: string, j: nat)
    requires 2 <= j <= |g| && IsSeparator(g[0])
    requires forall i :: 1 <= i < j ==> IsSegmentChar(g[i])
    requires Segments(g[j..])
    ensures Segments(g)
  {
    assert All(g[1..j], IsSegmentChar) by {
      forall i | 0 <= i < j - 1 ensures IsSegmentChar(g[1..j][i]) {
        assert g[1..j][i] == g[1 + i];
      }
    }
  }

  lemma AbsoluteBody(m: string)
    requires |m| >= 2 && IsSeparator(m[0])
    requires forall i :: 1 <= i < |m| ==> IsAnyChar(m[i])
    ensures Body(m)
  {
    assert m[..|m|] == m && m[|m|..] == [];
    assert AbsoluteHead(m[..|m|]) && Segments(m[|m|..]);
  }

  lemma RelativeBody(m: string, j: nat)
    requires 1 <= j <= |m|
    requires forall i :: 0 <= i < j ==> IsNotSeparator(m[i])
    requires Segments(m[j..])
    ensures Body(m)
  {
    assert RelativeHead(m[..j]) by {
      forall i | 0 <= i < j ensures IsNotSeparator(m[..j][i]) {
        assert m[..j][i] == m[i];
      }
    }
  }

  /** `[\\/][\w .-]+`: one repetition of the segment group. */
  ghost predicate SegmentPiece(a: string)
  {
    |a| >= 2 && IsSeparator(a[0]) && forall i :: 1 <= i < |a| ==> IsSegmentChar(a[i])
  }

  /** A segment `a` in front of a match of the repeated segments. */
  lemma SegmentsAppend(a: string, g: string)
    requires SegmentPiece(a) && Segments(g)
    ensures Segments(a + g)
  {
    assert (a + g)[|a|..] == g;
    SegmentsCons(a + g, |a|);
  }

  lemma TwoSegments(a1: string, a2: string)
    requires SegmentPiece(a1) && SegmentPiece(a2)
    ensures Segments(a1 + a2)
  {
    assert a2 + [] == a2;
    SegmentsAppend(a2, []);
    SegmentsAppend(a1, a2);
  }

  lemma ThreeSegments(a1: string, a2: string, a3: string)
    requires SegmentPiece(a1) && SegmentPiece(a2) && SegmentPiece(a3)
    ensures Segments(a1 + a2 + a3)
  {
    TwoSegments(a2, a3);
    SegmentsAppend(a1, a2 + a3);
    assert a1 + a2 + a3 == a1 + (a2 + a3);
  }

  /** A relative head `h` in front of a match of the repeated segments. */
  lemma RelativeAppend(h: string, g: string)
    requires |h| >= 1 && forall i :: 0 <= i < |h| ==> IsNotSeparator(h[i])
    requires Segments(g)
    ensures Body(h + g)
  {
    assert (h + g)[|h|..] == g;
    RelativeBody(h + g, |h|);
  }

  /** `s` is accepted when `s[..d]` is the optional drive (`d` is 0 or 2), `s[d..k]` the body
      and `s[k..]` the dot and the extension. */
  lemma AcceptedFromPieces(s: string, d: nat, k: nat)
    requires d == 0 || (d == 2 && |s| >= 2 && IsAsciiLetter(s[0]) && s[1] == ':')
    requires d <= k && k + 1 < |s| && s[k] == '.'
    requires forall i :: k < i < |s| ==> IsWordChar(s[i])
    requires Body(s[d..k])
    requires forall i :: 0 <= i < |s| ==> IsValidChar(s[i])
    ensures IsFilePath(s)
  {
    var p := s[..k];
    assert p[d..] == s[d..k];
    assert Stem(p);
    var ext := s[k + 1..];
    assert All(ext, IsWordChar) by {
      forall i | 0 <= i < |ext| ensures IsWordChar(ext[i]) {
        assert ext[i] == s[k + 1 + i];
      }
    }
    assert MatchesPathRegex(s);
    IsFilePathIsPattern(s);
  }
}
