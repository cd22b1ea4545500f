/**
 * The muted-word matcher of the content filter: a muted word matches a text
 * when it occurs, ignoring case, right after a JavaScript `\b` word boundary.
 * Nothing is required after the word, so "democrat" matches "Democrats" and
 * "Democratic" but not "administrator".
 *
 * The filter builds the pattern `\b` + escapeRegex(word) with the `i` flag.
 * Only patterns of that shape are given a meaning here: `\b` followed by
 * literal characters and backslash-escaped metacharacters.
 */
module TextMatch {
  import opened Posts

  /** The characters of `\w` in a regular expression without the `u` flag. */
  predicate IsWordChar(c: char) {
    'a' <= c <= 'z' || 'A' <= c <= 'Z' || '0' <= c <= '9' || c == '_'
  }

  function LowerChar(c: char): char {
    if 'A' <= c <= 'Z' then (c as int + 32) as char else c
  }

  /** `toLowerCase` restricted to ASCII letters. */
  function Lower(s: string): (r: string)
    ensures |r| == |s|
    ensures forall i :: 0 <= i < |s| ==> IsWordChar(r[i]) == IsWordChar(s[i])
    ensures forall i :: 0 <= i < |s| ==> !('A' <= r[i] <= 'Z')
  {
    seq(|s|, i requires 0 <= i < |s| => LowerChar(s[i]))
  }

  /** Equality under the `i` flag. */
  predicate SameIgnoringCase(a: string, b: string) {
    Lower(a) == Lower(b)
  }

  /** `\b` holds between `s[i - 1]` and `s[i]`; both ends of the string count as non-word. */
  predicate BoundaryAt(s: string, i: int)
    requires 0 <= i <= |s|
  {
    (i > 0 && IsWordChar(s[i - 1])) != (i < |s| && IsWordChar(s[i]))
  }

  /** `w` occurs at position `i` of `s`, ignoring case, right after a boundary. */
  predicate MatchesAt(s: string, w: string, i: int)
    requires 0 <= i
  {
    && i + |w| <= |s|
    && BoundaryAt(s, i)
    && SameIgnoringCase(s[i..i + |w|], w)
  }

  /** Some position from `i` on is a match. */
  predicate MatchesFrom(s: string, w: string, i: nat)
    decreases |s| - i
  {
    i <= |s| && (MatchesAt(s, w, i) || MatchesFrom(s, w, i + 1))
  }

  /** What `/\bw/i.test(s)` answers for a literal `w`: the regex engine tries each start position. */
  predicate BoundaryMatch(s: string, w: string) {
    MatchesFrom(s, w, 0)
  }

  lemma {:induction false} MatchesFromSpec(s: string, w: string, k: nat)
    ensures MatchesFrom(s, w, k) <==> exists i :: k <= i <= |s| && MatchesAt(s, w, i)
    decreases |s| - k
  {
    if k <= |s| {
      MatchesFromSpec(s, w, k + 1);
    }
  }

  /** A match is a position right after a boundary where the word occurs, ignoring case. */
  lemma BoundaryMatchSpec(s: string, w: string)
    ensures BoundaryMatch(s, w) <==> exists i :: 0 <= i <= |s| && MatchesAt(s, w, i)
  {
    MatchesFromSpec(s, w, 0);
  }

  /** The characters `escapeRegex` puts a backslash before. */
  predicate IsRegexMeta(c: char) {
    c in ".*+?^${}()|[]\\"
  }

  function Escaped(c: char): string {
    if IsRegexMeta(c) then ['\\', c] else [c]
  }

  /** `escapeRegex`: a backslash before every metacharacter, everything else kept. */
  function EscapeRegex(w: string): (r: string)
    ensures |r| >= |w|
    ensures (forall i :: 0 <= i < |w| ==> !IsRegexMeta(w[i])) ==> r == w
  {
    if w == [] then [] else Escaped(w[0]) + EscapeRegex(w[1..])
  }

  function Prepend(c: char, o: Option<string>): Option<string> {
    match o
    case None => None
    case Some(s) => Some([c] + s)
  }

  /**
   * Reads a pattern made only of literal characters and escaped
   * metacharacters back into the text it matches; any other pattern is
   * refused with `None`.
   */
  function ReadLiteral(p: string): Option<string> {
    if p == [] then Some([])
    else if p[0] == '\\' then
      if |p| >= 2 && IsRegexMeta(p[1]) then Prepend(p[1], ReadLiteral(p[2..])) else None
    else if IsRegexMeta(p[0]) then None
    else Prepend(p[0], ReadLiteral(p[1..]))
  }

  /** Escaping makes any word a literal pattern that reads back as the word itself. */
  lemma {:induction false} EscapeRegexReadsBack(w: string)
    ensures ReadLiteral(EscapeRegex(w)) == Some(w)
  {
    if w != [] {
      EscapeRegexReadsBack(w[1..]);
      var rest := EscapeRegex(w[1..]);
      if IsRegexMeta(w[0]) {
        assert EscapeRegex(w) == ['\\', w[0]] + rest;
        assert EscapeRegex(w)[2..] == rest;
      } else {
        assert EscapeRegex(w) == [w[0]] + rest;
        assert EscapeRegex(w)[1..] == rest;
      }
      assert [w[0]] + w[1..] == w;
    }
  }

  /** Conversely, every literal pattern is the escape of what it reads as. */
  lemma {:induction false} LiteralIsEscaped(p: string, w: string)
    requires ReadLiteral(p) == Some(w)
    ensures EscapeRegex(w) == p
    decreases |p|
  {
    if p != [] {
      if p[0] == '\\' {
        var rest :| ReadLiteral(p[2..]) == Some(rest) && w == [p[1]] + rest;
        LiteralIsEscaped(p[2..], rest);
        assert w[0] == p[1] && w[1..] == rest;
        assert p == ['\\', p[1]] + p[2..];
      } else {
        var rest :| ReadLiteral(p[1..]) == Some(rest) && w == [p[0]] + rest;
        LiteralIsEscaped(p[1..], rest);
        assert w[0] == p[0] && w[1..] == rest;
        assert p == [p[0]] + p[1..];
      }
    }
  }

  /** The pattern built for one muted word: `\b` followed by the escaped word. */
  function MutedPattern(word: string): string {
    "\\b" + EscapeRegex(word)
  }

  /** `new RegExp(pattern, 'i').test(s)` for patterns of the form `\b` + literal. */
  predicate PatternTest(s: string, pattern: string) {
    && |pattern| >= 2
    && pattern[..2] == "\\b"
    && match ReadLiteral(pattern[2..])
       case Some(lit) => BoundaryMatch(s, lit)
       case None => false
  }

  /** Testing the built pattern is exactly the boundary match of the muted word itself. */
  lemma MutedPatternIsLiteral(s: string, word: string)
    ensures PatternTest(s, MutedPattern(word)) <==> BoundaryMatch(s, word)
  {
    assert MutedPattern(word)[2..] == EscapeRegex(word);
    EscapeRegexReadsBack(word);
  }

  /** No right boundary: text appended after a match never undoes it. */
  lemma MatchSurvivesContinuation(s: string, w: string, t: string)
    requires |w| > 0 && BoundaryMatch(s, w)
    ensures BoundaryMatch(s + t, w)
  {
    BoundaryMatchSpec(s, w);
    BoundaryMatchSpec(s + t, w);
    var i :| 0 <= i <= |s| && MatchesAt(s, w, i);
    assert (s + t)[i..i + |w|] == s[i..i + |w|];
    assert MatchesAt(s + t, w, i);
  }

  /** A word starting with a non-word character (`#tag`, `@name`) only matches glued to a word character. */
  lemma NonWordStartNeedsWordBefore(s: string, w: string, i: int)
    requires 0 <= i && |w| > 0 && !IsWordChar(w[0]) && MatchesAt(s, w, i)
    ensures i > 0 && IsWordChar(s[i - 1])
  {
    assert Lower(s[i..i + |w|])[0] == Lower(w)[0];
  }

  lemma MatchesPluralExample()
    ensures BoundaryMatch("I love Democrats", "democrat")
  {
    BoundaryMatchSpec("I love Democrats", "democrat");
    assert MatchesAt("I love Democrats", "democrat", 7);
  }

  lemma MatchesBeforePunctuationExample()
    ensures BoundaryMatch("Democrat!", "democrat")
  {
    BoundaryMatchSpec("Democrat!", "democrat");
    assert MatchesAt("Democrat!", "democrat", 0);
  }

  lemma NoMatchInsideWordExample()
    ensures !BoundaryMatch("administrator", "democrat")
  {
    var s, w := "administrator", "democrat";
    BoundaryMatchSpec(s, w);
    forall i | 0 <= i <= |s|
      ensures !MatchesAt(s, w, i)
    {
      if i == 0 {
        assert Lower(s[0..|w|])[0] != Lower(w)[0];
      } else if i + |w| <= |s| {
        assert IsWordChar(s[i - 1]) && IsWordChar(s[i]);
      }
    }
  }
}
