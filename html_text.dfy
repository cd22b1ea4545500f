/**
 * The pure text helpers of the page generator (src/generators/html.js):
 * HTML escaping, video durations as `m:ss`, the media grid class, and the
 * decimal numerals that gallery ids and durations are written with.
 *
 * A JavaScript falsy argument (`undefined`, `null`, `''`, `0`) is `None`,
 * or the empty string, or zero.
 */
module HtmlText {
  import opened Posts

  // ----- decimal numerals -----

  predicate IsDigit(c: char) { '0' <= c <= '9' }

  predicate AllDigits(s: string) {
    forall i :: 0 <= i < |s| ==> IsDigit(s[i])
  }

  function Digit(d: nat): (c: char)
    requires d < 10
  {
    ('0' as int + d) as char
  }

  function DigitValue(c: char): nat
    requires IsDigit(c)
  {
    c as int - '0' as int
  }

  /** `String(n)` for a non-negative integer: its digits, without leading zeros. */
  function Decimal(n: nat): (r: string)
    ensures |r| > 0 && AllDigits(r)
    decreases n
  {
    if n < 10 then [Digit(n)] else Decimal(n / 10) + [Digit(n % 10)]
  }

  /** Reads a string of digits as a number, most significant digit first. */
  function ValueOf(s: string): nat
    requires AllDigits(s)
  {
    if s == [] then 0 else ValueOf(s[..|s| - 1]) * 10 + DigitValue(s[|s| - 1])
  }

  /** Reading a numeral back gives the number. */
  lemma {:induction false} DecimalReadsBack(n: nat)
    ensures ValueOf(Decimal(n)) == n
    decreases n
  {
    if n >= 10 {
      DecimalReadsBack(n / 10);
      var d := Decimal(n);
      assert d[..|d| - 1] == Decimal(n / 10);
    }
  }

  /** The numeral has no leading zero: it starts with `0` only for zero itself, which is written `0`. */
  lemma {:induction false} DecimalCanonical(n: nat)
    ensures Decimal(n)[0] == '0' <==> n == 0
    ensures n == 0 ==> Decimal(n) == "0"
    decreases n
  {
    if n >= 10 {
      DecimalCanonical(n / 10);
      assert Decimal(n)[0] == Decimal(n / 10)[0];
    }
  }

  /** Distinct numbers are written differently. */
  lemma DecimalInjective(a: nat, b: nat)
    requires Decimal(a) == Decimal(b)
    ensures a == b
  {
    DecimalReadsBack(a);
    DecimalReadsBack(b);
  }

  // ----- formatDuration -----

  /** `s.padStart(2, '0')` */
  function PadStart2(s: string): (r: string)
    ensures |s| < 2 ==> |r| == 2
    ensures |s| >= 2 ==> r == s
  {
    if |s| >= 2 then s else seq(2 - |s|, _ => '0') + s
  }

  /**
   * `formatDuration` (src/generators/html.js:1009-1015): nothing for a
   * missing or zero duration, otherwise whole minutes, a colon and the
   * remaining whole seconds on two digits.
   */
  function FormatDuration(ms: Option<nat>): (r: string)
    ensures r == [] <==> ms.None? || ms.value == 0
  {
    if ms.None? || ms.value == 0 then ""
    else
      var seconds := ms.value / 1000;
      var mins := seconds / 60;
      var secs := seconds % 60;
      Decimal(mins) + ":" + PadStart2(Decimal(secs))
  }

  /**
   * Reads `m:ss` back as a number of seconds: at least one digit of
   * minutes, a colon, exactly two digits of seconds below 60.
   */
  function ParseDuration(s: string): Option<nat> {
    if |s| >= 4 && s[|s| - 3] == ':' && AllDigits(s[..|s| - 3]) && AllDigits(s[|s| - 2..])
       && ValueOf(s[|s| - 2..]) < 60
    then Some(ValueOf(s[..|s| - 3]) * 60 + ValueOf(s[|s| - 2..]))
    else None
  }

  /** Two digits for the seconds below a minute, reading back as those seconds. */
  lemma PaddedSeconds(secs: nat)
    requires secs < 60
    ensures var p := PadStart2(Decimal(secs));
            |p| == 2 && AllDigits(p) && ValueOf(p) == secs
  {
    var d := Decimal(secs);
    DecimalReadsBack(secs);
    if secs < 10 {
      var p := PadStart2(d);
      assert p == ['0', Digit(secs)];
      assert p[..1] == ['0'];
    } else {
      assert d == Decimal(secs / 10) + [Digit(secs % 10)];
    }
  }

  /**
   * A positive duration is written as a well-formed `m:ss` that reads back
   * as the duration in whole seconds: only the milliseconds are dropped.
   * The minutes carry no leading zero (`0:05`, never `00:05` or `01:05`).
   */
  lemma FormatDurationReadsBack(ms: nat)
    requires ms > 0
    ensures ParseDuration(FormatDuration(Some(ms))) == Some(ms / 1000)
    ensures var r := FormatDuration(Some(ms)); r[0] != '0' || |r| == 4
  {
    var seconds := ms / 1000;
    var m := Decimal(seconds / 60);
    var p := PadStart2(Decimal(seconds % 60));
    PaddedSeconds(seconds % 60);
    DecimalReadsBack(seconds / 60);
    MinutesCanonical(ms);
    var r := FormatDuration(Some(ms));
    assert r == m + ":" + p;
    assert r[..|r| - 3] == m;
    assert r[|r| - 2..] == p;
  }

  lemma MinutesCanonical(ms: nat)
    requires ms > 0
    ensures var r := FormatDuration(Some(ms)); r[0] != '0' || |r| == 4
  {
    var mins := ms / 1000 / 60;
    var m := Decimal(mins);
    var p := PadStart2(Decimal(ms / 1000 % 60));
    DecimalCanonical(mins);
    assert FormatDuration(Some(ms)) == m + ":" + p;
    assert |Decimal(ms / 1000 % 60)| <= 2 by {
      if ms / 1000 % 60 >= 10 {
        assert Decimal(ms / 1000 % 60) == Decimal(ms / 1000 % 60 / 10) + [Digit(ms / 1000 % 60 % 10)];
      }
    }
  }

  // ----- escapeHtml -----

  /** `s.replace(/c/g, rep)` for a single character `c`. */
  function ReplaceAll(s: string, c: char, rep: string): string {
    if s == [] then [] else (if s[0] == c then rep else [s[0]]) + ReplaceAll(s[1..], c, rep)
  }

  /** The chain of replacements of `escapeHtml`, ampersands first. */
  function ReplaceChain(t: string): string {
    ReplaceAll(ReplaceAll(ReplaceAll(ReplaceAll(ReplaceAll(t, '&', "&amp;"), '<', "&lt;"), '>', "&gt;"), '"', "&quot;"), '\'', "&#039;")
  }

  /**
   * `escapeHtml` (src/generators/html.js:1049-1057): nothing for a falsy
   * text, otherwise every character replaced by the entity it stands for.
   */
  function EscapeHtml(text: Option<string>): (r: string)
    ensures text.None? ==> r == ""
    ensures text.Some? ==> r == EscapeEach(text.value)
  {
    match text
    case None => ""
    case Some(t) =>
      ReplaceChainCharwise(t);
      if t == "" then "" else ReplaceChain(t)
  }

  /** The entity each character stands for in the output, or the character itself. */
  function Entity(c: char): string {
    if c == '&' then "&amp;"
    else if c == '<' then "&lt;"
    else if c == '>' then "&gt;"
    else if c == '"' then "&quot;"
    else if c == '\'' then "&#039;"
    else [c]
  }

  /** Each character replaced independently by its entity. */
  function EscapeEach(t: string): string {
    if t == [] then [] else Entity(t[0]) + EscapeEach(t[1..])
  }

  lemma {:induction false} ReplaceAllConcat(a: string, b: string, c: char, rep: string)
    ensures ReplaceAll(a + b, c, rep) == ReplaceAll(a, c, rep) + ReplaceAll(b, c, rep)
    decreases |a|
  {
    if a != [] {
      assert (a + b)[0] == a[0] && (a + b)[1..] == a[1..] + b;
      ReplaceAllConcat(a[1..], b, c, rep);
    } else {
      assert a + b == b;
    }
  }

  lemma {:induction false} ReplaceAllAbsent(s: string, c: char, rep: string)
    requires c !in s
    ensures ReplaceAll(s, c, rep) == s
    decreases |s|
  {
    if s != [] {
      ReplaceAllAbsent(s[1..], c, rep);
    }
  }

  lemma ReplaceChainConcat(a: string, b: string)
    ensures ReplaceChain(a + b) == ReplaceChain(a) + ReplaceChain(b)
  {
    var a1, b1 := ReplaceAll(a, '&', "&amp;"), ReplaceAll(b, '&', "&amp;");
    ReplaceAllConcat(a, b, '&', "&amp;");
    var a2, b2 := ReplaceAll(a1, '<', "&lt;"), ReplaceAll(b1, '<', "&lt;");
    ReplaceAllConcat(a1, b1, '<', "&lt;");
    var a3, b3 := ReplaceAll(a2, '>', "&gt;"), ReplaceAll(b2, '>', "&gt;");
    ReplaceAllConcat(a2, b2, '>', "&gt;");
    var a4, b4 := ReplaceAll(a3, '"', "&quot;"), ReplaceAll(b3, '"', "&quot;");
    ReplaceAllConcat(a3, b3, '"', "&quot;");
    ReplaceAllConcat(a4, b4, '\'', "&#039;");
  }

  /** One step on one character: the replacement if it is the replaced character, else the character. */
  lemma ReplaceOne(x: char, c: char, rep: string)
    ensures ReplaceAll([x], c, rep) == if x == c then rep else [x]
  {
    assert [x][1..] == [];
  }

  /** The steps after the first, on a string none of them touches. */
  lemma LaterStepsKeep(e: string)
    requires '<' !in e && '>' !in e && '"' !in e && '\'' !in e
    ensures ReplaceAll(ReplaceAll(ReplaceAll(ReplaceAll(e, '<', "&lt;"), '>', "&gt;"), '"', "&quot;"), '\'', "&#039;") == e
  {
    ReplaceAllAbsent(e, '<', "&lt;");
    ReplaceAllAbsent(e, '>', "&gt;");
    ReplaceAllAbsent(e, '"', "&quot;");
    ReplaceAllAbsent(e, '\'', "&#039;");
  }

  /** The last three steps, on a string none of them touches. */
  lemma LastThreeKeep(e: string)
    requires '>' !in e && '"' !in e && '\'' !in e
    ensures ReplaceAll(ReplaceAll(ReplaceAll(e, '>', "&gt;"), '"', "&quot;"), '\'', "&#039;") == e
  {
    ReplaceAllAbsent(e, '>', "&gt;");
    ReplaceAllAbsent(e, '"', "&quot;");
    ReplaceAllAbsent(e, '\'', "&#039;");
  }

  lemma ReplaceChainOne(x: char)
    ensures ReplaceChain([x]) == Entity(x)
  {
    ReplaceOne(x, '&', "&amp;");
    if x == '&' {
      LaterStepsKeep("&amp;");
    } else {
      ReplaceOne(x, '<', "&lt;");
      if x == '<' {
        LastThreeKeep("&lt;");
      } else {
        ReplaceOne(x, '>', "&gt;");
        if x == '>' {
          ReplaceAllAbsent("&gt;", '"', "&quot;");
          ReplaceAllAbsent("&gt;", '\'', "&#039;");
        } else {
          ReplaceOne(x, '"', "&quot;");
          ReplaceOne(x, '\'', "&#039;");
          if x == '"' {
            ReplaceAllAbsent("&quot;", '\'', "&#039;");
          }
        }
      }
    }
  }

  /**
   * Because ampersands are replaced first, the chain of replacements is the
   * same as replacing every character on its own: no entity is escaped twice.
   */
  lemma {:induction false} ReplaceChainCharwise(t: string)
    ensures ReplaceChain(t) == EscapeEach(t)
    decreases |t|
  {
    if t == [] {
      assert ReplaceChain([]) == [];
    } else {
      assert t == [t[0]] + t[1..];
      ReplaceChainConcat([t[0]], t[1..]);
      ReplaceChainOne(t[0]);
      ReplaceChainCharwise(t[1..]);
    }
  }

  lemma {:induction false} EscapeEachHasNoMarkup(t: string)
    ensures var r := EscapeEach(t);
            '<' !in r && '>' !in r && '"' !in r && '\'' !in r
    decreases |t|
  {
    if t != [] {
      EscapeEachHasNoMarkup(t[1..]);
      EntityNoMarkup(t[0]);
      var e, rest := Entity(t[0]), EscapeEach(t[1..]);
      assert EscapeEach(t) == e + rest;
    }
  }

  lemma EntityNoMarkup(c: char)
    ensures var e := Entity(c);
            '<' !in e && '>' !in e && '"' !in e && '\'' !in e
  {
    if c == '&' {
      assert Entity(c) == ['&', 'a', 'm', 'p', ';'];
    } else if c == '<' {
      assert Entity(c) == ['&', 'l', 't', ';'];
    } else if c == '>' {
      assert Entity(c) == ['&', 'g', 't', ';'];
    } else if c == '"' {
      assert Entity(c) == ['&', 'q', 'u', 'o', 't', ';'];
    } else if c == '\'' {
      assert Entity(c) == ['&', '#', '0', '3', '9', ';'];
    }
  }

  /** Escaped text holds no raw `<`, `>`, `"` or `'`, and is empty exactly for a falsy text. */
  lemma EscapeHtmlHasNoMarkup(text: Option<string>)
    ensures var r := EscapeHtml(text);
            '<' !in r && '>' !in r && '"' !in r && '\'' !in r
    ensures EscapeHtml(text) == "" <==> text.None? || text.value == ""
  {
    if text.Some? {
      EscapeEachHasNoMarkup(text.value);
      if text.value != "" {
        assert EscapeEach(text.value) == Entity(text.value[0]) + EscapeEach(text.value[1..]);
      }
    }
  }

  predicate StartsWith(s: string, p: string) {
    |p| <= |s| && s[..|p|] == p
  }

  /** Decodes the five entities `escapeHtml` writes; everything else is kept. */
  function UnescapeHtml(s: string): string
    decreases |s|
  {
    if s == [] then []
    else if s[0] != '&' then [s[0]] + UnescapeHtml(s[1..])
    else if StartsWith(s, "&amp;") then ['&'] + UnescapeHtml(s[5..])
    else if StartsWith(s, "&lt;") then ['<'] + UnescapeHtml(s[4..])
    else if StartsWith(s, "&gt;") then ['>'] + UnescapeHtml(s[4..])
    else if StartsWith(s, "&quot;") then ['"'] + UnescapeHtml(s[6..])
    else if StartsWith(s, "&#039;") then ['\''] + UnescapeHtml(s[6..])
    else ['&'] + UnescapeHtml(s[1..])
  }

  /** `s` does not start with `p` because they differ at position 1. */
  lemma DiffersAtOne(s: string, p: string)
    requires |s| >= 2 && |p| >= 2 && s[1] != p[1]
    ensures !StartsWith(s, p)
  {
    if |p| <= |s| {
      assert s[..|p|][1] == s[1];
    }
  }

  /** Decoding reads one entity, or one other character, off the front. */
  lemma UnescapeEntity(c: char, rest: string)
    ensures UnescapeHtml(Entity(c) + rest) == [c] + UnescapeHtml(rest)
  {
    var e := Entity(c);
    var s := e + rest;
    assert s[..|e|] == e && s[|e|..] == rest;
    assert s[0] == e[0];
    if |e| >= 2 {
      assert s[1] == e[1];
    }
    if c == '<' {
      DiffersAtOne(s, "&amp;");
    } else if c == '>' {
      DiffersAtOne(s, "&amp;");
      DiffersAtOne(s, "&lt;");
    } else if c == '"' {
      DiffersAtOne(s, "&amp;");
      DiffersAtOne(s, "&lt;");
      DiffersAtOne(s, "&gt;");
    } else if c == '\'' {
      DiffersAtOne(s, "&amp;");
      DiffersAtOne(s, "&lt;");
      DiffersAtOne(s, "&gt;");
      DiffersAtOne(s, "&quot;");
    }
  }

  lemma {:induction false} UnescapeEscapeEach(t: string)
    ensures UnescapeHtml(EscapeEach(t)) == t
    decreases |t|
  {
    if t != [] {
      UnescapeEscapeEach(t[1..]);
      UnescapeEntity(t[0], EscapeEach(t[1..]));
      assert t == [t[0]] + t[1..];
    }
  }

  /** Decoding the entities gives back the text: escaping loses nothing. */
  lemma EscapeHtmlReadsBack(t: string)
    ensures UnescapeHtml(EscapeHtml(Some(t))) == t
  {
    UnescapeEscapeEach(t);
  }

  /** Different texts escape differently. */
  lemma EscapeHtmlInjective(a: string, b: string)
    requires EscapeHtml(Some(a)) == EscapeHtml(Some(b))
    ensures a == b
  {
    EscapeHtmlReadsBack(a);
    EscapeHtmlReadsBack(b);
  }

  // ----- media grid -----

  /**
   * The grid class of `renderMedia` and `renderMediaPreview`
   * (src/generators/html.js:904-909, 961-966); no media renders no grid,
   * which is the empty class here.
   */
  function GridClass(media: Option<seq<Media>>): (r: string)
    ensures r in {"", "single", "double", "triple", "quad"}
  {
    if media.None? || |media.value| == 0 then ""
    else if |media.value| == 1 then "single"
    else if |media.value| == 2 then "double"
    else if |media.value| == 3 then "triple"
    else "quad"
  }

  /** How many cells a grid class lays out. */
  function GridCells(cls: string): nat {
    if cls == "single" then 1
    else if cls == "double" then 2
    else if cls == "triple" then 3
    else if cls == "quad" then 4
    else 0
  }

  /** The grid has one cell per item, up to four; beyond four the items share the four-cell grid. */
  lemma GridClassCells(media: Option<seq<Media>>)
    ensures media.None? ==> GridCells(GridClass(media)) == 0
    ensures media.Some? ==> GridCells(GridClass(media)) == if |media.value| < 4 then |media.value| else 4
    ensures GridClass(media) == "" <==> media.None? || |media.value| == 0
  {
  }
}
