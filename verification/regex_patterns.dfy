/**
 * The four regular expressions of the translator, each as the pure function
 * java.util.regex computes for the way the pattern is used:
 *
 * - `^\s*$` (found anywhere, no flags): the whitespace-only test;
 * - `^.*((?<=").*(?=")).*=.*((?<=").*(?=")).*$` with DOTALL: the key/value
 *   extractor of a `.strings` statement;
 * - `^.*(?:\/)` (no DOTALL): everything up to and including the last '/';
 * - `mainVersion="(.*)"` with DOTALL: the version number.
 *
 * Each function is given in closed form and is related by its contract or a
 * lemma to the set of matches the regex admits, together with the order in
 * which a backtracking matcher tries them (greedy `.*` tries the longest
 * extent first, leftmost start first).
 */
module RegexPatterns {
  import opened Errors
  import opened Text
  import opened Entries

  /** The last index below `bound` holding `c`. */
  function LastIndexBefore(s: string, c: char, bound: nat): (r: Option<nat>)
    requires bound <= |s|
    ensures r.Some? ==> r.value < bound && s[r.value] == c
    ensures r.Some? ==> forall j :: r.value < j < bound ==> s[j] != c
    ensures r.None? ==> forall j :: 0 <= j < bound ==> s[j] != c
    decreases bound
  {
    if bound == 0 then None
    else if s[bound - 1] == c then Some(bound - 1)
    else LastIndexBefore(s, c, bound - 1)
  }

  // ---------------------------------------------------------------------
  // `^\s*$`: whitespace only
  // ---------------------------------------------------------------------

  predicate AllRegexSpace(s: string) {
    forall i :: 0 <= i < |s| ==> IsRegexSpace(s[i])
  }

  /**
   * Java's `$` without MULTILINE at position w: the end of the input, or just
   * before a line terminator that ends the input ("\r\n" counting as one, and
   * never between its two characters).
   */
  predicate DollarAt(s: string, w: nat) {
    || w == |s|
    || (w + 1 == |s| && IsLineTerminator(s[w]) && !(s[w] == '\n' && w > 0 && s[w - 1] == '\r'))
    || (w + 2 == |s| && s[w] == '\r' && s[w + 1] == '\n')
  }

  /** `Regex("^\\s*$")` is found in s: `^` only at 0, then some run of `\s`, then `$`. */
  ghost predicate WhiteSpaceOnlyRegexFinds(s: string) {
    exists w :: 0 <= w <= |s| && AllRegexSpace(s[..w]) && DollarAt(s, w)
  }

  /**
   * WHITE_SPACE_ONLY_PATTERN as the code uses it: every character is `\s`
   * (so also the empty string), or every character but a final line
   * terminator is (Java's `$` may stop before a trailing NEL, LINE
   * SEPARATOR or PARAGRAPH SEPARATOR, which `\s` does not cover).
   */
  predicate IsWhiteSpaceOnly(s: string) {
    || AllRegexSpace(s)
    || (|s| > 0 && IsLineTerminator(s[|s| - 1]) && AllRegexSpace(s[..|s| - 1]))
  }

  /** The closed form agrees with the regex in both directions. */
  lemma WhiteSpaceOnlyMatchesRegex(s: string)
    ensures IsWhiteSpaceOnly(s) <==> WhiteSpaceOnlyRegexFinds(s)
  {
    if IsWhiteSpaceOnly(s) {
      if AllRegexSpace(s) {
        assert s[..|s|] == s;
        assert AllRegexSpace(s[..|s|]) && DollarAt(s, |s|);
      } else {
        // the last character is the only one outside `\s`, so it is not '\n'
        var w := |s| - 1;
        assert !IsRegexSpace(s[w]) by {
          forall i | 0 <= i < w
            ensures IsRegexSpace(s[i])
          {
            assert s[i] == s[..w][i];
          }
        }
        assert AllRegexSpace(s[..w]) && DollarAt(s, w);
      }
    }
    if WhiteSpaceOnlyRegexFinds(s) {
      var w :| 0 <= w <= |s| && AllRegexSpace(s[..w]) && DollarAt(s, w);
      if w == |s| {
        assert s[..w] == s;
      } else if w + 1 == |s| {
        assert s[..|s| - 1] == s[..w];
      } else {
        forall i | 0 <= i < |s|
          ensures IsRegexSpace(s[i])
        {
          if i < w {
            assert s[i] == s[..w][i];
          }
        }
      }
    }
  }

  // ---------------------------------------------------------------------
  // DOT_STRINGS_KEY_VALUE_CAPTURE_GROUPS_PATTERN
  // ---------------------------------------------------------------------

  /**
   * One way the key/value pattern can match s: group 1 is s[p..e), group 2 is
   * s[q..e2), the `=` sits at k. The leading `^.*` ends at p, the lookbehinds
   * need a '"' just before p and q, the lookaheads a '"' at e and e2; the
   * trailing `.*$` always succeeds because `.` matches everything (DOTALL).
   */
  datatype KeyValueSpans = KeyValueSpans(p: nat, e: nat, k: nat, q: nat, e2: nat)

  predicate Admissible(s: string, t: KeyValueSpans) {
    && 0 < t.p <= t.e < |s| && s[t.p - 1] == '"' && s[t.e] == '"'
    && t.e <= t.k < |s| && s[t.k] == '='
    && t.k < t.q <= t.e2 < |s| && s[t.q - 1] == '"' && s[t.e2] == '"'
  }

  /** t is no greater than u in any position. */
  predicate ComponentwiseAtMost(t: KeyValueSpans, u: KeyValueSpans) {
    t.p <= u.p && t.e <= u.e && t.k <= u.k && t.q <= u.q && t.e2 <= u.e2
  }

  /**
   * t comes no earlier than u in the order a backtracking matcher tries the
   * five greedy `.*` runs: the first run's longest extent first, then the
   * second's, and so on.
   */
  predicate TriedNoEarlier(t: KeyValueSpans, u: KeyValueSpans) {
    || t == u
    || t.p < u.p
    || (t.p == u.p && t.e < u.e)
    || (t.p == u.p && t.e == u.e && t.k < u.k)
    || (t.p == u.p && t.e == u.e && t.k == u.k && t.q < u.q)
    || (t.p == u.p && t.e == u.e && t.k == u.k && t.q == u.q && t.e2 < u.e2)
  }

  /**
   * The match of the key/value pattern, in closed form: the value closes at
   * the last '"', opens after the '"' before it, the `=` is the last one
   * before that, the key closes at the last '"' before the `=` and opens after
   * the '"' before that. It is admissible and dominates every admissible
   * match in every position; there is no match exactly when nothing is
   * admissible.
   */
  function KeyValueMatch(s: string): (r: Option<KeyValueSpans>)
    ensures r.Some? ==> Admissible(s, r.value)
    ensures r.Some? ==> forall t :: Admissible(s, t) ==> ComponentwiseAtMost(t, r.value)
    ensures r.None? ==> forall t :: !Admissible(s, t)
  {
    match LastIndexBefore(s, '"', |s|)
    case None => None
    case Some(valueClose) =>
      match LastIndexBefore(s, '"', valueClose)
      case None => None
      case Some(valueOpen) =>
        match LastIndexBefore(s, '=', valueOpen)
        case None => None
        case Some(eq) =>
          match LastIndexBefore(s, '"', eq)
          case None => None
          case Some(keyClose) =>
            match LastIndexBefore(s, '"', keyClose)
            case None => None
            case Some(keyOpen) => Some(KeyValueSpans(keyOpen + 1, keyClose, eq, valueOpen + 1, valueClose))
  }

  /** Of all admissible matches, the closed form is the one a backtracking matcher reports: the first it tries. */
  lemma KeyValueMatchIsFirstTried(s: string, t: KeyValueSpans)
    requires Admissible(s, t)
    ensures KeyValueMatch(s).Some?
    ensures TriedNoEarlier(t, KeyValueMatch(s).value)
  {
  }

  /** The five backward searches of KeyValueMatch, each landing where t says. */
  predicate MatchChain(s: string, t: KeyValueSpans) {
    && 0 < t.p <= t.e < t.k < t.q <= t.e2 < |s|
    && LastIndexBefore(s, '"', |s|) == Some(t.e2)
    && LastIndexBefore(s, '"', t.e2) == Some(t.q - 1)
    && LastIndexBefore(s, '=', t.q - 1) == Some(t.k)
    && LastIndexBefore(s, '"', t.k) == Some(t.e)
    && LastIndexBefore(s, '"', t.e) == Some(t.p - 1)
  }

  lemma KeyValueMatchIsChain(s: string, t: KeyValueSpans)
    ensures KeyValueMatch(s) == Some(t) <==> MatchChain(s, t)
  {
  }

  /** `getNameContentTupleFrom` without its error: group 1 is the name, group 2 the content. */
  function KeyValue(s: string): (r: Option<NameContentTuple>)
    ensures r.Some? <==> exists t :: Admissible(s, t)
    ensures r.Some? ==> var t := KeyValueMatch(s).value; r.value == NameContentTuple(s[t.p..t.e], s[t.q..t.e2])
  {
    match KeyValueMatch(s)
    case None => None
    case Some(t) => Some(NameContentTuple(s[t.p..t.e], s[t.q..t.e2]))
  }

  /** The text of a canonical statement `"name" = "content"`, as the writer appends it. */
  function StatementText(name: string, content: string): string {
    "\"" + name + "\" = \"" + content + "\""
  }

  /** No `c` at any index in [lo, hi) when that slice is a `c`-free piece. */
  lemma NoCharBetween(s: string, c: char, lo: nat, hi: nat, piece: string)
    requires lo <= hi <= |s| && s[lo..hi] == piece && c !in piece
    ensures forall i :: lo <= i < hi ==> s[i] != c
  {
    forall i | lo <= i < hi
      ensures s[i] != c
    {
      assert s[i] == piece[i - lo];
    }
  }

  /**
   * The match on a text laid out as `..."key" = "value"...` with no '"' in
   * key, value or what follows, whatever precedes the key's opening quote.
   */
  lemma KeyValueOfLayout(s: string, a: nat, keyClose: nat, valueClose: nat)
    requires a < keyClose && keyClose + 4 < valueClose < |s|
    requires s[a] == '"' && s[keyClose] == '"' && s[keyClose + 1] == ' ' && s[keyClose + 2] == '='
    requires s[keyClose + 3] == ' ' && s[keyClose + 4] == '"' && s[valueClose] == '"'
    requires forall i :: a < i < keyClose ==> s[i] != '"'
    requires forall i :: keyClose + 4 < i < valueClose ==> s[i] != '"'
    requires forall i :: valueClose < i < |s| ==> s[i] != '"'
    ensures KeyValue(s) == Some(NameContentTuple(s[a + 1..keyClose], s[keyClose + 5..valueClose]))
  {
    LastIndexIs(s, '"', |s|, valueClose);
    LastIndexIs(s, '"', valueClose, keyClose + 4);
    LastIndexIs(s, '=', keyClose + 4, keyClose + 2);
    LastIndexIs(s, '"', keyClose + 2, keyClose);
    LastIndexIs(s, '"', keyClose, a);
    assert KeyValueMatch(s) == Some(KeyValueSpans(a + 1, keyClose, keyClose + 2, keyClose + 5, valueClose));
  }

  /** Where the parts of `<lead>"name" = "content"<tail>` sit. */
  lemma StatementLayout(lead: string, name: string, content: string, tail: string)
    ensures var s := lead + StatementText(name, content) + tail;
            var a := |lead|;
            var keyClose := a + 1 + |name|;
            var valueClose := keyClose + 5 + |content|;
            && |s| == valueClose + 1 + |tail|
            && s[a] == '"' && s[keyClose] == '"' && s[keyClose + 1] == ' ' && s[keyClose + 2] == '='
            && s[keyClose + 3] == ' ' && s[keyClose + 4] == '"' && s[valueClose] == '"'
            && s[a + 1..keyClose] == name && s[keyClose + 5..valueClose] == content && s[valueClose + 1..] == tail
  {
    var s := lead + StatementText(name, content) + tail;
    var a := |lead|;
    var keyClose := a + 1 + |name|;
    var valueClose := keyClose + 5 + |content|;
    assert s == lead + ("\"" + name) + ("\" = \"" + content) + ("\"" + tail);
  }

  /**
   * A statement `<lead>"name" = "content"<tail>` yields exactly name and
   * content, whatever the lead, as long as name, content and tail hold no
   * '"' (the pattern is not escape-aware, so `\"` breaks this).
   */
  lemma KeyValueOfStatement(lead: string, name: string, content: string, tail: string)
    requires '"' !in name && '"' !in content && '"' !in tail
    ensures KeyValue(lead + StatementText(name, content) + tail) == Some(NameContentTuple(name, content))
  {
    var s := lead + StatementText(name, content) + tail;
    var a := |lead|;
    var keyClose := a + 1 + |name|;
    var valueClose := keyClose + 5 + |content|;
    StatementLayout(lead, name, content, tail);
    KeyValueOfLaidOutPieces(s, a, keyClose, valueClose, name, content, tail);
  }

  /** KeyValueOfLayout for a text whose key, value and tail are known pieces without '"'. */
  lemma KeyValueOfLaidOutPieces(s: string, a: nat, keyClose: nat, valueClose: nat, name: string, content: string, tail: string)
    requires '"' !in name && '"' !in content && '"' !in tail
    requires a < keyClose && keyClose + 4 < valueClose < |s|
    requires s[a] == '"' && s[keyClose] == '"' && s[keyClose + 1] == ' ' && s[keyClose + 2] == '='
    requires s[keyClose + 3] == ' ' && s[keyClose + 4] == '"' && s[valueClose] == '"'
    requires s[a + 1..keyClose] == name && s[keyClose + 5..valueClose] == content && s[valueClose + 1..] == tail
    ensures KeyValue(s) == Some(NameContentTuple(name, content))
  {
    NoCharBetween(s, '"', a + 1, keyClose, name);
    NoCharBetween(s, '"', keyClose + 5, valueClose, content);
    assert s[valueClose + 1..|s|] == tail;
    NoCharBetween(s, '"', valueClose + 1, |s|, tail);
    KeyValueOfLayout(s, a, keyClose, valueClose);
  }

  /** Uniqueness of LastIndexBefore's result. */
  lemma LastIndexIs(s: string, c: char, bound: nat, j: nat)
    requires j < bound <= |s| && s[j] == c
    requires forall i :: j < i < bound ==> s[i] != c
    ensures LastIndexBefore(s, c, bound) == Some(j)
  {
  }

  /** The documented example: `"some content" = "myContent"` gives `some content` and `myContent`. */
  lemma KeyValueExample()
    ensures KeyValue(StatementText("some content", "myContent")) == Some(NameContentTuple("some content", "myContent"))
  {
    KeyValueOfStatement("", "some content", "myContent", "");
    assert "" + StatementText("some content", "myContent") + "" == StatementText("some content", "myContent");
  }

  // ---------------------------------------------------------------------
  // EVERYTHING_BEFORE_AND_INCLUDING_THE_LAST_FORWARD_SLASH_PATTERN
  // ---------------------------------------------------------------------

  /** Index of the first line terminator, or |s|: the furthest `.` (without DOTALL) can reach from 0. */
  function FirstLineTerminator(s: string): (r: nat)
    ensures r <= |s|
    ensures forall i :: 0 <= i < r ==> !IsLineTerminator(s[i])
    ensures r < |s| ==> IsLineTerminator(s[r])
  {
    if |s| == 0 then 0
    else if IsLineTerminator(s[0]) then 0
    else
      var r := FirstLineTerminator(s[1..]);
      assert forall i :: 1 <= i < r + 1 ==> s[i] == s[1..][i - 1];
      r + 1
  }

  /** `^.*(?:\/)` can match s[..j+1]: a '/' at j with no line terminator before it. */
  predicate SlashMatchEnd(s: string, j: nat) {
    j < |s| && s[j] == '/' && forall i :: 0 <= i < j ==> !IsLineTerminator(s[i])
  }

  /**
   * The match of the last-slash pattern (Kotlin `Regex.find`, whose value is
   * the whole match): the prefix of s up to and including its last '/'
   * before the first line terminator; None when there is no such '/'.
   */
  function LastSlashPrefix(s: string): (r: Option<string>)
    ensures r.None? <==> forall j: nat :: !SlashMatchEnd(s, j)
    ensures r.Some? ==> |r.value| > 0 && SlashMatchEnd(s, |r.value| - 1) && r.value == s[..|r.value|]
    ensures r.Some? ==> forall j: nat :: SlashMatchEnd(s, j) ==> j < |r.value|
  {
    var bound := FirstLineTerminator(s);
    match LastIndexBefore(s, '/', bound)
    case None => None
    case Some(j) =>
      assert SlashMatchEnd(s, j);
      Some(s[..j + 1])
  }

  /**
   * For a path `dir + name` where dir ends with '/' and holds no line
   * terminator and name holds no '/', the match is exactly dir.
   */
  lemma LastSlashOfDirectory(dir: string, name: string)
    requires |dir| > 0 && dir[|dir| - 1] == '/'
    requires forall c :: c in dir ==> !IsLineTerminator(c)
    requires '/' !in name
    ensures LastSlashPrefix(dir + name) == Some(dir)
  {
    var s := dir + name;
    assert forall i :: 0 <= i < |dir| - 1 ==> s[i] == dir[i] && dir[i] in dir;
    assert SlashMatchEnd(s, |dir| - 1);
    forall j: nat | |dir| <= j < |s|
      ensures s[j] != '/'
    {
      assert s[j] == name[j - |dir|] && name[j - |dir|] in name;
    }
    var prefix := LastSlashPrefix(s).value;
    assert prefix == s[..|dir|] == dir;
  }

  /** The documented example: `/this/path/is/mine.yaml` gives `/this/path/is/`. */
  lemma LastSlashExample(s: string)
    requires s == "/this/path/is/mine.yaml"
    ensures LastSlashPrefix(s) == Some("/this/path/is/")
  {
    assert s == "/this/path/is/" + "mine.yaml";
    LastSlashOfDirectory("/this/path/is/", "mine.yaml");
  }

  // ---------------------------------------------------------------------
  // VERSION_NUMBER_EXTRACTION_PATTERN
  // ---------------------------------------------------------------------

  const VersionKey: string := "mainVersion=\""

  /** `mainVersion="` occurs at i. */
  predicate VersionKeyAt(s: string, i: nat) {
    i + |VersionKey| <= |s| && s[i..i + |VersionKey|] == VersionKey
  }

  /** `mainVersion="(.*)"` can match starting at i with its final '"' at close. */
  predicate VersionMatchAt(s: string, i: nat, close: nat) {
    VersionKeyAt(s, i) && i + |VersionKey| <= close < |s| && s[close] == '"'
  }

  /** First index at or after `from` where VersionKey occurs. */
  function FindVersionKey(s: string, from: nat): (r: Option<nat>)
    requires from <= |s|
    ensures r.Some? ==> from <= r.value && VersionKeyAt(s, r.value)
    ensures r.Some? ==> forall i: nat :: from <= i < r.value ==> !VersionKeyAt(s, i)
    ensures r.None? ==> forall i: nat :: from <= i ==> !VersionKeyAt(s, i)
    decreases |s| - from
  {
    if from + |VersionKey| > |s| then None
    else if VersionKeyAt(s, from) then Some(from)
    else FindVersionKey(s, from + 1)
  }

  /**
   * getVersion's capture group: the leftmost `mainVersion="` that can match
   * at all, and from it the longest run up to a '"' (DOTALL, so up to the
   * last '"' of the whole text). No match when no such start exists.
   */
  function VersionNumber(s: string): (r: Option<string>)
    ensures r.None? <==> forall i: nat, close: nat :: !VersionMatchAt(s, i, close)
    ensures r.Some? ==> exists i: nat, close: nat ::
              && VersionMatchAt(s, i, close) && r.value == s[i + |VersionKey|..close]
              && (forall i': nat, close': nat :: VersionMatchAt(s, i', close') ==> i <= i')
              && (forall close': nat :: VersionMatchAt(s, i, close') ==> close' <= close)
  {
    match FindVersionKey(s, 0)
    case None => None
    case Some(i) =>
      match LastIndexBefore(s, '"', |s|)
      case None => None
      case Some(close) =>
        if close < i + |VersionKey| then None
        else
          assert VersionMatchAt(s, i, close);
          Some(s[i + |VersionKey|..close])
  }
}
