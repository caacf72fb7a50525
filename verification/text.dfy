/**
 * String helpers with the exact behaviour of the Kotlin/JVM library calls the
 * translator relies on: `startsWith`/`endsWith`, `split(";")` (which keeps empty
 * pieces, trailing ones included), `lines()`, `trim()`, and the character
 * classes of `java.util.regex` (`\s`, line terminators) and of Kotlin's
 * `Char.isWhitespace`.
 */
module Text {

  predicate StartsWith(s: string, prefix: string) {
    |prefix| <= |s| && s[..|prefix|] == prefix
  }

  predicate EndsWith(s: string, suffix: string) {
    |suffix| <= |s| && s[|s| - |suffix|..] == suffix
  }

  /** `\s` of java.util.regex without UNICODE_CHARACTER_CLASS: [ \t\n\x0B\f\r] */
  predicate IsRegexSpace(c: char) {
    c == ' ' || c == '\t' || c == '\n' || c == '\U{000B}' || c == '\U{000C}' || c == '\r'
  }

  /** Characters java.util.regex treats as line terminators when UNIX_LINES is off. */
  predicate IsLineTerminator(c: char) {
    c == '\n' || c == '\r' || c == '\U{0085}' || c == '\U{2028}' || c == '\U{2029}'
  }

  /**
   * Kotlin/JVM `Char.isWhitespace()`: `Character.isWhitespace(c) || Character.isSpaceChar(c)`,
   * i.e. the ASCII controls \t \n \x0B \f \r \x1C-\x1F plus every Unicode space,
   * line or paragraph separator.
   */
  predicate IsKotlinWhitespace(c: char) {
    || c == '\t' || c == '\n' || c == '\U{000B}' || c == '\U{000C}' || c == '\r'
    || ('\U{001C}' <= c <= '\U{001F}')
    || c == ' ' || c == '\U{00A0}' || c == '\U{1680}'
    || ('\U{2000}' <= c <= '\U{200A}')
    || c == '\U{2028}' || c == '\U{2029}' || c == '\U{202F}' || c == '\U{205F}' || c == '\U{3000}'
  }

  lemma RegexSpaceIsKotlinWhitespace(c: char)
    ensures IsRegexSpace(c) ==> IsKotlinWhitespace(c)
  {
  }

  /** Inverse of `Split`: the pieces glued back together with the delimiter between them. */
  function Join(pieces: seq<string>, d: char): string
  {
    if |pieces| == 0 then ""
    else if |pieces| == 1 then pieces[0]
    else pieces[0] + [d] + Join(pieces[1..], d)
  }

  /**
   * Kotlin `s.split(d)` for a one-character delimiter: every occurrence cuts,
   * so there is always one more piece than there are delimiters, and empty
   * pieces (including a trailing one) are kept.
   */
  function Split(s: string, d: char): (pieces: seq<string>)
    ensures |pieces| >= 1
    ensures forall i :: 0 <= i < |pieces| ==> d !in pieces[i]
    ensures Join(pieces, d) == s
  {
    if |s| == 0 then [""]
    else
      var rest := Split(s[1..], d);
      if s[0] == d then
        [""] + rest
      else
        assert Join(rest, d) == s[1..];
        var pieces := [[s[0]] + rest[0]] + rest[1..];
        assert Join(pieces, d) == s by {
          if |rest| > 1 {
            calc {
              Join(pieces, d);
              pieces[0] + [d] + Join(pieces[1..], d);
              { assert pieces[1..] == rest[1..]; }
              [s[0]] + rest[0] + [d] + Join(rest[1..], d);
              [s[0]] + (rest[0] + [d] + Join(rest[1..], d));
              [s[0]] + Join(rest, d);
              s;
            }
          }
        }
        pieces
  }

  lemma {:induction false} SplitPieceThenRest(p: string, t: string, d: char)
    requires d !in p
    ensures Split(p + [d] + t, d) == [p] + Split(t, d)
    decreases |p|
  {
    if |p| == 0 {
      assert p + [d] + t == [d] + t;
      assert ([d] + t)[1..] == t;
    } else {
      var u := p[1..] + [d] + t;
      SplitPieceThenRest(p[1..], t, d);
      assert p + [d] + t == [p[0]] + u;
      SplitCons(p[0], u, d);
      assert [p[0]] + p[1..] == p;
    }
  }

  /** A first character that is not the delimiter joins the first piece of the rest. */
  lemma SplitCons(c: char, u: string, d: char)
    requires c != d
    ensures Split([c] + u, d) == [[c] + Split(u, d)[0]] + Split(u, d)[1..]
  {
    assert ([c] + u)[0] == c && ([c] + u)[1..] == u;
  }

  lemma {:induction false} SplitWithoutDelimiter(p: string, d: char)
    requires d !in p
    ensures Split(p, d) == [p]
    decreases |p|
  {
    if |p| > 0 {
      SplitWithoutDelimiter(p[1..], d);
      assert [p[0]] + p[1..] == p;
    }
  }

  /** Splitting undoes joining: `Split` and `Join` are mutually inverse on delimiter-free pieces. */
  lemma {:induction false} SplitJoin(pieces: seq<string>, d: char)
    requires |pieces| >= 1
    requires forall i :: 0 <= i < |pieces| ==> d !in pieces[i]
    ensures Split(Join(pieces, d), d) == pieces
    decreases |pieces|
  {
    if |pieces| == 1 {
      SplitWithoutDelimiter(pieces[0], d);
    } else {
      SplitJoin(pieces[1..], d);
      SplitPieceThenRest(pieces[0], Join(pieces[1..], d), d);
      assert [pieces[0]] + pieces[1..] == pieces;
    }
  }

  /**
   * Kotlin `CharSequence.lines()`: cut at "\r\n", "\n" and "\r"; the terminators
   * are not part of any line and text after the last terminator (possibly empty)
   * is the last line.
   */
  function Lines(s: string): (lines: seq<string>)
    ensures |lines| >= 1
    ensures forall i :: 0 <= i < |lines| ==> '\n' !in lines[i] && '\r' !in lines[i]
    decreases |s|
  {
    if |s| == 0 then [""]
    else if s[0] == '\n' then [""] + Lines(s[1..])
    else if s[0] == '\r' then
      if |s| > 1 && s[1] == '\n' then [""] + Lines(s[2..]) else [""] + Lines(s[1..])
    else
      var rest := Lines(s[1..]);
      [[s[0]] + rest[0]] + rest[1..]
  }

  /** The text with every "\r\n" and every lone "\r" turned into "\n". */
  function UnixLineBreaks(s: string): (r: string)
    ensures '\r' !in r
    decreases |s|
  {
    if |s| == 0 then ""
    else if s[0] == '\r' then
      if |s| > 1 && s[1] == '\n' then "\n" + UnixLineBreaks(s[2..]) else "\n" + UnixLineBreaks(s[1..])
    else [s[0]] + UnixLineBreaks(s[1..])
  }

  /** Text already written with "\n" breaks only is left as it is. */
  lemma {:induction false} UnixLineBreaksOfUnixText(s: string)
    requires '\r' !in s
    ensures UnixLineBreaks(s) == s
    decreases |s|
  {
    if |s| > 0 {
      UnixLineBreaksOfUnixText(s[1..]);
      assert [s[0]] + s[1..] == s;
    }
  }

  /**
   * `lines()` cuts exactly at the line breaks: it is `split('\n')` of the text
   * with its breaks written as "\n", so joining the lines with "\n" gives that
   * text back.
   */
  lemma {:induction false} LinesSplitUnixLineBreaks(s: string)
    ensures Lines(s) == Split(UnixLineBreaks(s), '\n')
    ensures Join(Lines(s), '\n') == UnixLineBreaks(s)
    decreases |s|
  {
    if |s| > 0 {
      if s[0] == '\n' || s[0] == '\r' {
        var t := if s[0] == '\r' && |s| > 1 && s[1] == '\n' then s[2..] else s[1..];
        LinesSplitUnixLineBreaks(t);
        SplitAfterBreak(UnixLineBreaks(t));
      } else {
        LinesSplitUnixLineBreaks(s[1..]);
        SplitCons(s[0], UnixLineBreaks(s[1..]), '\n');
      }
    }
  }

  lemma SplitAfterBreak(u: string)
    ensures Split("\n" + u, '\n') == [""] + Split(u, '\n')
  {
    assert ("\n" + u)[0] == '\n' && ("\n" + u)[1..] == u;
  }

  /** On text without carriage returns, `lines()` is `split('\n')`. */
  lemma {:induction false} LinesWithoutCarriageReturn(s: string)
    requires '\r' !in s
    ensures Lines(s) == Split(s, '\n')
    decreases |s|
  {
    if |s| > 0 {
      LinesWithoutCarriageReturn(s[1..]);
    }
  }

  /** Kotlin `trimStart()`: drops the leading run of `isWhitespace` characters. */
  function TrimStart(s: string): (r: string)
    ensures |r| <= |s| && r == s[|s| - |r|..]
    ensures forall i :: 0 <= i < |s| - |r| ==> IsKotlinWhitespace(s[i])
    ensures |r| > 0 ==> !IsKotlinWhitespace(r[0])
    decreases |s|
  {
    if |s| > 0 && IsKotlinWhitespace(s[0]) then TrimStart(s[1..]) else s
  }

  /** Kotlin `trimEnd()`: drops the trailing run of `isWhitespace` characters. */
  function TrimEnd(s: string): (r: string)
    ensures |r| <= |s| && r == s[..|r|]
    ensures forall i :: |r| <= i < |s| ==> IsKotlinWhitespace(s[i])
    ensures |r| > 0 ==> !IsKotlinWhitespace(r[|r| - 1])
    decreases |s|
  {
    if |s| > 0 && IsKotlinWhitespace(s[|s| - 1]) then TrimEnd(s[..|s| - 1]) else s
  }

  /** Kotlin `trim()`: the longest infix that neither starts nor ends with whitespace. */
  function Trim(s: string): (r: string)
  {
    TrimEnd(TrimStart(s))
  }
}
