/**
 * `trimChar(s, ends)` (src/trimChar.ts): removes from both ends of `s` the longest runs of
 * characters drawn from `ends`. The source builds the regular expression `^[ends]+|[ends]+$`
 * and replaces every match by the empty string.
 */
module TrimChar {
  import opened Text

  /** `ends` are read literally inside the character class `[...]`: none of them closes it,
      escapes, negates or forms a range. */
  predicate IsLiteralClass(ends: string)
  {
    forall c :: c in ends ==> c != ']' && c != '\\' && c != '^' && c != '-'
  }

  /** Membership in the character class `[ends]`. */
  function InClass(ends: string): char -> bool
  {
    c => c in ends
  }

  function TrimChar(s: string, ends: string): (r: string)
    requires IsLiteralClass(ends)
    ensures r == [] || (r[0] !in ends && r[|r| - 1] !in ends)
  {
    Strip(s, InClass(ends))
  }

  /** `s` is `p + trimChar(s, ends) + q` with `p` and `q` made of characters of `ends`. */
  lemma TrimCharSplits(s: string, ends: string) returns (p: string, q: string)
    requires IsLiteralClass(ends)
    ensures s == p + TrimChar(s, ends) + q
    ensures All(p, InClass(ends)) && All(q, InClass(ends))
  {
    var i, j := StripBounds(s, InClass(ends));
    p, q := s[..i], s[j..];
    assert TrimChar(s, ends) == s[i..j];
    assert s == p + s[i..j] + q;
  }

  /** What trimming leaves is a piece of `s`, so it keeps every property all characters of `s`
      share. */
  lemma TrimCharKeeps(s: string, ends: string, q: char -> bool)
    requires IsLiteralClass(ends) && All(s, q)
    ensures All(TrimChar(s, ends), q)
  {
    var a, b := TrimCharSplits(s, ends);
    var r := TrimChar(s, ends);
    forall k | 0 <= k < |r| ensures q(r[k]) {
      assert r[k] == s[|a| + k];
    }
  }

  /** The decomposition is unique: padding a string whose ends are outside `ends` with runs of
      `ends` characters and trimming gives it back, interior occurrences included. */
  lemma TrimCharOfPadded(p: string, m: string, q: string, ends: string)
    requires IsLiteralClass(ends)
    requires All(p, InClass(ends)) && All(q, InClass(ends))
    requires m == [] || (m[0] !in ends && m[|m| - 1] !in ends)
    ensures TrimChar(p + m + q, ends) == m
  {
    StripPadded(p, m, q, InClass(ends));
  }

  lemma TrimCharIdempotent(s: string, ends: string)
    requires IsLiteralClass(ends)
    ensures TrimChar(TrimChar(s, ends), ends) == TrimChar(s, ends)
  {
    StripIdempotent(s, InClass(ends));
  }

  /** Nothing is removed from a string that is empty or starts and ends outside `ends`. */
  lemma TrimCharUnchanged(s: string, ends: string)
    requires IsLiteralClass(ends)
    requires s == [] || (s[0] !in ends && s[|s| - 1] !in ends)
    ensures TrimChar(s, ends) == s
  {
    TrimCharOfPadded([], s, [], ends);
    assert [] + s + [] == s;
  }

  /** A string made only of `ends` characters trims to the empty string. */
  lemma TrimCharAllEnds(s: string, ends: string)
    requires IsLiteralClass(ends)
    requires All(s, InClass(ends))
    ensures TrimChar(s, ends) == ""
  {
    TrimCharOfPadded(s, [], [], ends);
    assert s + [] + [] == s;
  }

  /** `ends` is a set of characters, not a substring (src/trimChar.ts:9-12). */
  lemma TrimCharSetExample()
    ensures TrimChar("abcHello Worldcba", "abc") == "Hello World"
  {
    var s, ends := "abcHello Worldcba", "abc";
    assert s == "abc" + "Hello World" + "cba";
    TrimCharOfPadded("abc", "Hello World", "cba", ends);
  }

  lemma TrimCharRunExample()
    ensures TrimChar("!!!Hello World!!!", "!") == "Hello World"
  {
    var s, ends := "!!!Hello World!!!", "!";
    assert s == "!!!" + "Hello World" + "!!!";
    TrimCharOfPadded("!!!", "Hello World", "!!!", ends);
  }

  lemma TrimCharDoubleExample()
    ensures TrimChar("xxHello Worldxx", "x") == "Hello World"
  {
    var s, ends := "xxHello Worldxx", "x";
    assert s == "xx" + "Hello World" + "xx";
    TrimCharOfPadded("xx", "Hello World", "xx", ends);
  }

  /** The inner space is kept: only the runs at the two ends go (src/trimChar.ts:11). */
  lemma TrimCharSpaceExample()
    ensures TrimChar("   Hello World   ", " ") == "Hello World"
  {
    var s, ends := "   Hello World   ", " ";
    assert s == "   " + "Hello World" + "   ";
    TrimCharOfPadded("   ", "Hello World", "   ", ends);
  }
}
