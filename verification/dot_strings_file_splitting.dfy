/**
 * The `.strings` section scanner (readSectionsOfDotStrings): cuts the text of a
 * `.strings` file into comment sections (`// ...` up to a newline, slash-star ... star-slash)
 * and content sections, without any notion of quoting.
 *
 * `ScanAt` is a section-at-a-time definition of the scanner: at each position it
 * decides whether an opener starts a comment and where that comment or the
 * content run ends. `ReadSectionsOfDotStrings` is the source's character-at-a-time
 * state machine (normal / line comment / block comment) and is proved to compute
 * exactly `Scan`. The lemmas state what the produced sections look like and how
 * they rebuild the input.
 */
module DotStringsFileSplitting {
  import opened Errors

  datatype DotStringsSection = DotStringsSection(isComment: bool, content: string)

  /** `//` or slash-star starts at index i (both characters present). */
  predicate OpenerAt(text: string, i: int) {
    0 <= i && i + 1 < |text| && text[i] == '/' && (text[i + 1] == '/' || text[i + 1] == '*')
  }

  /** A '\n' sits at index j. */
  predicate NewlineAt(text: string, j: int) {
    0 <= j < |text| && text[j] == '\n'
  }

  /** star-slash starts at index k. */
  predicate CloserAt(text: string, k: int) {
    0 <= k && k + 1 < |text| && text[k] == '*' && text[k + 1] == '/'
  }

  /** End (exclusive) of a line comment whose newline search starts at `from`: just past the first '\n', or the end of the text. */
  function LineCommentEnd(text: string, from: nat): (e: nat)
    requires from <= |text|
    ensures from <= e <= |text|
    decreases |text| - from
  {
    if from == |text| then from
    else if text[from] == '\n' then from + 1
    else LineCommentEnd(text, from + 1)
  }

  /** The line comment ends just past the first '\n' at or after `from`, or at the end of a text with none. */
  lemma {:induction false} LineCommentEndSpec(text: string, from: nat)
    requires from <= |text|
    ensures var e := LineCommentEnd(text, from);
            && (forall j :: from <= j < e - 1 ==> !NewlineAt(text, j))
            && ((e > from && text[e - 1] == '\n') || (e == |text| && forall j :: from <= j < |text| ==> !NewlineAt(text, j)))
    decreases |text| - from
  {
    if from < |text| && text[from] != '\n' {
      LineCommentEndSpec(text, from + 1);
    }
  }

  /** End (exclusive) of a block comment whose star-slash search starts at `from`: just past the first closer, or the end of the text. */
  function BlockCommentEnd(text: string, from: nat): (e: nat)
    requires from <= |text|
    ensures from <= e <= |text|
    decreases |text| - from
  {
    if from == |text| then from
    else if CloserAt(text, from) then from + 2
    else BlockCommentEnd(text, from + 1)
  }

  /** The block comment ends just past the first star-slash starting at or after `from`, or at the end of a text with none. */
  lemma {:induction false} BlockCommentEndSpec(text: string, from: nat)
    requires from <= |text|
    ensures var e := BlockCommentEnd(text, from);
            && (forall k :: from <= k < e - 2 ==> !CloserAt(text, k))
            && ((e >= from + 2 && CloserAt(text, e - 2)) || (e == |text| && forall k :: from <= k < |text| ==> !CloserAt(text, k)))
    decreases |text| - from
  {
    if from < |text| && !CloserAt(text, from) {
      BlockCommentEndSpec(text, from + 1);
    }
  }

  /** End (exclusive) of a content run whose opener search starts at `from`: the first opener, or the end of the text. */
  function ContentEnd(text: string, from: nat): (e: nat)
    requires from <= |text|
    ensures from <= e <= |text|
    decreases |text| - from
  {
    if from == |text| then from
    else if OpenerAt(text, from) then from
    else ContentEnd(text, from + 1)
  }

  /** Content runs up to the first opener at or after `from`, or to the end of a text with none. */
  lemma {:induction false} ContentEndSpec(text: string, from: nat)
    requires from <= |text|
    ensures var e := ContentEnd(text, from);
            && (forall j :: from <= j < e ==> !OpenerAt(text, j))
            && (e < |text| ==> OpenerAt(text, e))
    decreases |text| - from
  {
    if from < |text| && !OpenerAt(text, from) {
      ContentEndSpec(text, from + 1);
    }
  }

  /**
   * The sections of `text[start..]`, one section at a time. An opener in the
   * final two characters produces nothing; the character right after `//` is
   * always part of the comment, and a block comment only closes at a `*` found
   * at or after the character following slash-star.
   */
  function ScanAt(text: string, start: nat): seq<DotStringsSection>
    requires start <= |text|
    decreases |text| - start
  {
    if start == |text| then []
    else if OpenerAt(text, start) then
      if start + 2 == |text| then []
      else if text[start + 1] == '/' then
        var e := LineCommentEnd(text, start + 3);
        [DotStringsSection(true, text[start..e])] + ScanAt(text, e)
      else
        var e := BlockCommentEnd(text, start + 2);
        [DotStringsSection(true, text[start..e])] + ScanAt(text, e)
    else
      var e := ContentEnd(text, start + 1);
      [DotStringsSection(false, text[start..e])] + ScanAt(text, e)
  }

  function Scan(text: string): seq<DotStringsSection> {
    ScanAt(text, 0)
  }

  lemma {:induction false} LineCommentEndIs(text: string, from: nat, e: nat)
    requires from <= e <= |text|
    requires forall j :: from <= j < e - 1 ==> !NewlineAt(text, j)
    requires (e > from && text[e - 1] == '\n') || (e == |text| && forall j :: from <= j < |text| ==> !NewlineAt(text, j))
    ensures LineCommentEnd(text, from) == e
    decreases e - from
  {
    assert from < e - 1 ==> !NewlineAt(text, from);
    if from < e && text[from] != '\n' {
      LineCommentEndIs(text, from + 1, e);
    }
  }

  lemma {:induction false} BlockCommentEndIs(text: string, from: nat, e: nat)
    requires from <= e <= |text|
    requires forall k :: from <= k < e - 2 ==> !CloserAt(text, k)
    requires (e >= from + 2 && CloserAt(text, e - 2)) || (e == |text| && forall k :: from <= k < |text| ==> !CloserAt(text, k))
    ensures BlockCommentEnd(text, from) == e
    decreases e - from
  {
    if from < e && !CloserAt(text, from) {
      BlockCommentEndIs(text, from + 1, e);
    }
  }

  lemma {:induction false} ContentEndIs(text: string, from: nat, e: nat)
    requires from <= e <= |text|
    requires forall j :: from <= j < e ==> !OpenerAt(text, j)
    requires e == |text| || OpenerAt(text, e)
    ensures ContentEnd(text, from) == e
    decreases e - from
  {
    if from < e {
      ContentEndIs(text, from + 1, e);
    }
  }

  lemma ScanAtLineComment(text: string, start: nat)
    requires OpenerAt(text, start) && start + 2 < |text| && text[start + 1] == '/'
    ensures var e := LineCommentEnd(text, start + 3);
            ScanAt(text, start) == [DotStringsSection(true, text[start..e])] + ScanAt(text, e)
  {
  }

  lemma ScanAtBlockComment(text: string, start: nat)
    requires OpenerAt(text, start) && start + 2 < |text| && text[start + 1] == '*'
    ensures var e := BlockCommentEnd(text, start + 2);
            ScanAt(text, start) == [DotStringsSection(true, text[start..e])] + ScanAt(text, e)
  {
  }

  lemma ScanAtContent(text: string, start: nat)
    requires start < |text| && !OpenerAt(text, start)
    ensures var e := ContentEnd(text, start + 1);
            ScanAt(text, start) == [DotStringsSection(false, text[start..e])] + ScanAt(text, e)
  {
  }

  /**
   * The scanner's loop invariant, after `result` has been emitted and while
   * `current` (if any) holds `text[start..i]`: emitted sections plus the scan
   * of what is left give `whole` (the whole scan), and each mode knows what it
   * has already inspected.
   */
  ghost predicate ScannerInv(text: string, whole: seq<DotStringsSection>, i: nat, start: nat,
                             result: seq<DotStringsSection>, current: Option<DotStringsSection>,
                             inLine: bool, inBlock: bool)
  {
    && start <= i <= |text|
    && !(inLine && inBlock)
    && (current.None? ==> !inLine && !inBlock && start == i && result + ScanAt(text, i) == whole)
    && (current.Some? ==> current.value.content == text[start..i] && result + ScanAt(text, start) == whole)
    && (current.Some? && !inLine && !inBlock ==>
          && !current.value.isComment && start < i < |text| && !OpenerAt(text, start)
          && forall j :: start + 1 <= j < i ==> !OpenerAt(text, j))
    && (inLine || inBlock ==>
          && current.Some? && current.value.isComment && OpenerAt(text, start) && start + 2 <= i
          && (i == |text| ==> i == start + 2))
    && (inLine ==> text[start + 1] == '/' && forall j :: start + 3 <= j <= i ==> !NewlineAt(text, j))
    && (inBlock ==> text[start + 1] == '*' && forall k :: start + 2 <= k < i ==> !CloserAt(text, k))
  }

  /** Emitting the finished first section of `text[start..]` moves the scan on to `e`. */
  lemma EmitSection(text: string, whole: seq<DotStringsSection>, start: nat, e: nat,
                    result: seq<DotStringsSection>, sec: DotStringsSection)
    requires start <= e <= |text|
    requires result + ScanAt(text, start) == whole
    requires ScanAt(text, start) == [sec] + ScanAt(text, e)
    ensures (result + [sec]) + ScanAt(text, e) == whole
  {
    assert (result + [sec]) + ScanAt(text, e) == result + ([sec] + ScanAt(text, e));
  }

  /** Flushing the last character completes the scan. */
  lemma FlushLastStep(text: string, whole: seq<DotStringsSection>, i: nat, start: nat,
                      result: seq<DotStringsSection>, current: Option<DotStringsSection>,
                      inLine: bool, inBlock: bool)
    requires ScannerInv(text, whole, i, start, result, current, inLine, inBlock) && i == |text| - 1
    ensures var base := if current.None? then DotStringsSection(false, "") else current.value;
            result + [base.(content := base.content + [text[i]])] == whole
  {
    var base := if current.None? then DotStringsSection(false, "") else current.value;
    var sec := base.(content := base.content + [text[i]]);
    assert sec.content == text[start..|text|];
    if inLine {
      LineCommentEndIs(text, start + 3, |text|);
      ScanAtLineComment(text, start);
    } else if inBlock {
      BlockCommentEndIs(text, start + 2, |text|);
      ScanAtBlockComment(text, start);
    } else {
      ContentEndIs(text, start + 1, |text|);
      ScanAtContent(text, start);
    }
    EmitSection(text, whole, start, |text|, result, sec);
    assert ScanAt(text, |text|) == [];
  }

  /** One character inside a line comment, not followed by '\n': the comment grows. */
  lemma LineCommentGrows(text: string, whole: seq<DotStringsSection>, i: nat, start: nat,
                         result: seq<DotStringsSection>, current: Option<DotStringsSection>)
    requires ScannerInv(text, whole, i, start, result, current, true, false) && i < |text| - 1 && text[i + 1] != '\n'
    ensures current.Some?
    ensures ScannerInv(text, whole, i + 1, start, result, Some(current.value.(content := current.value.content + [text[i]])), true, false)
  {
    assert text[start..i + 1] == text[start..i] + [text[i]];
  }

  /** One character inside a line comment followed by '\n': the comment ends with that '\n'. */
  lemma LineCommentCloses(text: string, whole: seq<DotStringsSection>, i: nat, start: nat,
                          result: seq<DotStringsSection>, current: Option<DotStringsSection>)
    requires ScannerInv(text, whole, i, start, result, current, true, false) && i < |text| - 1 && text[i + 1] == '\n'
    ensures current.Some?
    ensures var cur := current.value.(content := current.value.content + [text[i]]);
            ScannerInv(text, whole, i + 2, i + 2, result + [cur.(content := cur.content + [text[i + 1]])], None, false, false)
  {
    var cur := current.value.(content := current.value.content + [text[i]]);
    var sec := cur.(content := cur.content + [text[i + 1]]);
    assert text[start..i + 2] == text[start..i] + [text[i]] + [text[i + 1]];
    LineCommentEmitted(text, whole, start, i + 2, result, sec);
  }

  /** A line comment from `start` whose first '\n' from index start + 3 on is at e - 1 is emitted whole. */
  lemma LineCommentEmitted(text: string, whole: seq<DotStringsSection>, start: nat, e: nat,
                           result: seq<DotStringsSection>, sec: DotStringsSection)
    requires OpenerAt(text, start) && text[start + 1] == '/' && start + 3 < e <= |text|
    requires forall j :: start + 3 <= j < e - 1 ==> !NewlineAt(text, j)
    requires text[e - 1] == '\n'
    requires result + ScanAt(text, start) == whole
    requires sec == DotStringsSection(true, text[start..e])
    ensures (result + [sec]) + ScanAt(text, e) == whole
  {
    LineCommentEndIs(text, start + 3, e);
    ScanAtLineComment(text, start);
    EmitSection(text, whole, start, e, result, sec);
  }

  /** One character inside a block comment, not the star of a star-slash: the comment grows. */
  lemma BlockCommentGrows(text: string, whole: seq<DotStringsSection>, i: nat, start: nat,
                          result: seq<DotStringsSection>, current: Option<DotStringsSection>)
    requires ScannerInv(text, whole, i, start, result, current, false, true) && i < |text| - 1
    requires !(text[i] == '*' && text[i + 1] == '/')
    ensures current.Some?
    ensures ScannerInv(text, whole, i + 1, start, result, Some(current.value.(content := current.value.content + [text[i]])), false, true)
  {
    assert text[start..i + 1] == text[start..i] + [text[i]];
    assert !CloserAt(text, i);
  }

  /** A star-slash at i inside a block comment ends it. */
  lemma BlockCommentCloses(text: string, whole: seq<DotStringsSection>, i: nat, start: nat,
                           result: seq<DotStringsSection>, current: Option<DotStringsSection>)
    requires ScannerInv(text, whole, i, start, result, current, false, true) && i < |text| - 1
    requires text[i] == '*' && text[i + 1] == '/'
    ensures current.Some?
    ensures var cur := current.value.(content := current.value.content + [text[i]]);
            ScannerInv(text, whole, i + 2, i + 2, result + [cur.(content := cur.content + [text[i + 1]])], None, false, false)
  {
    var cur := current.value.(content := current.value.content + [text[i]]);
    var sec := cur.(content := cur.content + [text[i + 1]]);
    assert sec.content == text[start..i + 2];
    BlockCommentEndIs(text, start + 2, i + 2);
    ScanAtBlockComment(text, start);
    EmitSection(text, whole, start, i + 2, result, sec);
  }

  /** An opener outside comments emits the running content section, if any. */
  lemma EmitBeforeOpener(text: string, whole: seq<DotStringsSection>, i: nat, start: nat,
                         result: seq<DotStringsSection>, current: Option<DotStringsSection>)
    requires ScannerInv(text, whole, i, start, result, current, false, false) && OpenerAt(text, i)
    ensures (if current.Some? then result + [current.value] else result) + ScanAt(text, i) == whole
  {
    if current.Some? {
      ContentEndIs(text, start + 1, i);
      ScanAtContent(text, start);
      EmitSection(text, whole, start, i, result, current.value);
    }
  }

  /** ... and then starts a comment holding the two opener characters: a line comment ... */
  lemma LineOpenerStep(text: string, whole: seq<DotStringsSection>, i: nat, start: nat,
                       result: seq<DotStringsSection>, current: Option<DotStringsSection>)
    requires ScannerInv(text, whole, i, start, result, current, false, false) && i < |text| - 1
    requires text[i] == '/' && text[i + 1] == '/'
    ensures var emitted := if current.Some? then result + [current.value] else result;
            ScannerInv(text, whole, i + 2, i, emitted, Some(DotStringsSection(true, "//")), true, false)
  {
    EmitBeforeOpener(text, whole, i, start, result, current);
    CommentOpened(text, whole, i, if current.Some? then result + [current.value] else result, true);
    assert text[i..i + 2] == "//";
  }

  /** ... or a block comment. */
  lemma BlockOpenerStep(text: string, whole: seq<DotStringsSection>, i: nat, start: nat,
                        result: seq<DotStringsSection>, current: Option<DotStringsSection>)
    requires ScannerInv(text, whole, i, start, result, current, false, false) && i < |text| - 1
    requires text[i] == '/' && text[i + 1] == '*'
    ensures var emitted := if current.Some? then result + [current.value] else result;
            ScannerInv(text, whole, i + 2, i, emitted, Some(DotStringsSection(true, "/*")), false, true)
  {
    EmitBeforeOpener(text, whole, i, start, result, current);
    CommentOpened(text, whole, i, if current.Some? then result + [current.value] else result, false);
    assert text[i..i + 2] == "/*";
  }

  /** Right after an opener, the new comment holds just the opener and nothing has been inspected yet. */
  lemma CommentOpened(text: string, whole: seq<DotStringsSection>, i: nat, emitted: seq<DotStringsSection>, inLine: bool)
    requires i < |text| - 1 && text[i] == '/' && text[i + 1] == (if inLine then '/' else '*')
    requires emitted + ScanAt(text, i) == whole
    ensures ScannerInv(text, whole, i + 2, i, emitted, Some(DotStringsSection(true, text[i..i + 2])), inLine, !inLine)
  {
  }

  /** Any other character outside comments starts or extends the running content section. */
  lemma ContentStep(text: string, whole: seq<DotStringsSection>, i: nat, start: nat,
                    result: seq<DotStringsSection>, current: Option<DotStringsSection>)
    requires ScannerInv(text, whole, i, start, result, current, false, false) && i < |text| - 1 && !OpenerAt(text, i)
    ensures var cur := if current.None? then DotStringsSection(false, [text[i]])
                       else current.value.(content := current.value.content + [text[i]]);
            ScannerInv(text, whole, i + 1, start, result, Some(cur), false, false)
  {
    if current.None? {
      ContentStarts(text, whole, i, result);
    } else {
      ContentGrows(text, whole, i, start, result, current.value);
    }
  }

  lemma ContentGrows(text: string, whole: seq<DotStringsSection>, i: nat, start: nat,
                     result: seq<DotStringsSection>, cur: DotStringsSection)
    requires ScannerInv(text, whole, i, start, result, Some(cur), false, false) && i < |text| - 1 && !OpenerAt(text, i)
    ensures ScannerInv(text, whole, i + 1, start, result, Some(cur.(content := cur.content + [text[i]])), false, false)
  {
    assert text[start..i + 1] == text[start..i] + [text[i]];
  }

  lemma ContentStarts(text: string, whole: seq<DotStringsSection>, i: nat, result: seq<DotStringsSection>)
    requires ScannerInv(text, whole, i, i, result, None, false, false) && i < |text| - 1 && !OpenerAt(text, i)
    ensures ScannerInv(text, whole, i + 1, i, result, Some(DotStringsSection(false, [text[i]])), false, false)
  {
    assert text[i..i + 1] == [text[i]];
  }

  /** Leaving the loop at the end of the text: only a comment opened in the last two characters can be pending, and it is dropped. */
  lemma EndOfTextStep(text: string, whole: seq<DotStringsSection>, start: nat,
                      result: seq<DotStringsSection>, current: Option<DotStringsSection>,
                      inLine: bool, inBlock: bool)
    requires ScannerInv(text, whole, |text|, start, result, current, inLine, inBlock)
    ensures result == whole
  {
    if current.Some? {
      assert ScanAt(text, start) == [];
    }
  }

  /**
   * The loop body inside a line comment: the character joins the comment,
   * and a following '\n' joins it too and closes it.
   */
  method LineCommentCharacter(text: string, ghost whole: seq<DotStringsSection>, i0: nat, ghost start0: nat,
                              result0: seq<DotStringsSection>, current0: Option<DotStringsSection>)
    returns (i: nat, result: seq<DotStringsSection>, current: Option<DotStringsSection>, inSingleLineComment: bool, ghost start: nat)
    requires ScannerInv(text, whole, i0, start0, result0, current0, true, false) && i0 < |text| - 1
    ensures i0 < i
    ensures ScannerInv(text, whole, i, start, result, current, inSingleLineComment, false)
  {
    if text[i0 + 1] == '\n' {
      LineCommentCloses(text, whole, i0, start0, result0, current0);
      var cur := current0.value.(content := current0.value.content + [text[i0]]);
      i, result, current, inSingleLineComment, start := i0 + 2, result0 + [cur.(content := cur.content + [text[i0 + 1]])], None, false, i0 + 2;
    } else {
      LineCommentGrows(text, whole, i0, start0, result0, current0);
      i, result, current, inSingleLineComment, start :=
        i0 + 1, result0, Some(current0.value.(content := current0.value.content + [text[i0]])), true, start0;
    }
  }

  /**
   * The loop body inside a block comment: the character joins the comment,
   * and when it is the star of a star-slash the slash joins it too and closes it.
   */
  method BlockCommentCharacter(text: string, ghost whole: seq<DotStringsSection>, i0: nat, ghost start0: nat,
                               result0: seq<DotStringsSection>, current0: Option<DotStringsSection>)
    returns (i: nat, result: seq<DotStringsSection>, current: Option<DotStringsSection>, inMultilineComment: bool, ghost start: nat)
    requires ScannerInv(text, whole, i0, start0, result0, current0, false, true) && i0 < |text| - 1
    ensures i0 < i
    ensures ScannerInv(text, whole, i, start, result, current, false, inMultilineComment)
  {
    if text[i0] == '*' && text[i0 + 1] == '/' {
      BlockCommentCloses(text, whole, i0, start0, result0, current0);
      var cur := current0.value.(content := current0.value.content + [text[i0]]);
      i, result, current, inMultilineComment, start := i0 + 2, result0 + [cur.(content := cur.content + [text[i0 + 1]])], None, false, i0 + 2;
    } else {
      BlockCommentGrows(text, whole, i0, start0, result0, current0);
      i, result, current, inMultilineComment, start :=
        i0 + 1, result0, Some(current0.value.(content := current0.value.content + [text[i0]])), true, start0;
    }
  }

  /**
   * readSectionsOfDotStrings, as written: one index, two comment flags, the
   * section being built, and the last character always flushed into the
   * current (possibly new) section before the loop stops.
   */
  method ReadSectionsOfDotStrings(entireContent: string) returns (result: seq<DotStringsSection>)
    ensures result == Scan(entireContent)
    ensures |entireContent| == 0 ==> result == []
  {
    var text := entireContent;
    var inMultilineComment := false;
    var inSingleLineComment := false;
    var current: Option<DotStringsSection> := None;
    result := [];
    var i := 0;
    ghost var whole := Scan(text);
    ghost var start: nat := 0;
    ghost var flushed := false;
    while i < |text|
      invariant ScannerInv(text, whole, i, start, result, current, inSingleLineComment, inMultilineComment)
      invariant !flushed
      decreases |text| - i
    {
      var currentChar := text[i];

      // the last character is flushed into the current section, which is then emitted
      if i == |text| - 1 {
        FlushLastStep(text, whole, i, start, result, current, inSingleLineComment, inMultilineComment);
        if current.None? {
          current := Some(DotStringsSection(false, ""));
        }
        current := Some(current.value.(content := current.value.content + [currentChar]));
        result := result + [current.value];
        flushed := true;
        break;
      }

      var nextChar := text[i + 1];

      // inside a comment the character joins it; the comment ends with a '\n' or a star-slash
      if inSingleLineComment {
        i, result, current, inSingleLineComment, start := LineCommentCharacter(text, whole, i, start, result, current);
        continue;
      }
      if inMultilineComment {
        i, result, current, inMultilineComment, start := BlockCommentCharacter(text, whole, i, start, result, current);
        continue;
      }

      // an opener ends the running content section and starts a comment
      if currentChar == '/' && nextChar == '/' {
        LineOpenerStep(text, whole, i, start, result, current);
        if current.Some? {
          result := result + [current.value];
        }
        current := Some(DotStringsSection(true, "//"));
        inSingleLineComment := true;
        start := i;
        i := i + 2;
        continue;
      }
      if currentChar == '/' && nextChar == '*' {
        BlockOpenerStep(text, whole, i, start, result, current);
        if current.Some? {
          result := result + [current.value];
        }
        current := Some(DotStringsSection(true, "/*"));
        inMultilineComment := true;
        start := i;
        i := i + 2;
        continue;
      }

      // any other character extends the running content section
      ContentStep(text, whole, i, start, result, current);
      if current.None? {
        current := Some(DotStringsSection(false, [currentChar]));
      } else {
        current := Some(current.value.(content := current.value.content + [currentChar]));
      }
      i := i + 1;
    }
    if !flushed {
      EndOfTextStep(text, whole, start, result, current, inSingleLineComment, inMultilineComment);
    }
  }

  /** All section texts, in order. */
  function Concat(sections: seq<DotStringsSection>): string {
    if |sections| == 0 then "" else sections[0].content + Concat(sections[1..])
  }

  /** Text of the form `//` + one swallowed character + text free of '\n' except possibly at its very end. */
  predicate IsLineComment(c: string) {
    |c| >= 3 && c[0] == '/' && c[1] == '/' && forall j :: 3 <= j < |c| - 1 ==> c[j] != '\n'
  }

  /** Text of the form slash-star + text with no star-slash whose `*` lies at index 2 or later, except possibly at its very end. */
  predicate IsBlockComment(c: string) {
    |c| >= 3 && c[0] == '/' && c[1] == '*' && forall k :: 2 <= k < |c| - 2 ==> !CloserAt(c, k)
  }

  /** A closed comment: a line comment ending in a '\n' at index 3 or later, or a block comment ending in star-slash at index 2 or later. */
  predicate IsClosedComment(c: string) {
    |c| >= 4 &&
    ((c[1] == '/' && c[|c| - 1] == '\n') || (c[1] == '*' && c[|c| - 2] == '*' && c[|c| - 1] == '/'))
  }

  /** Non-empty text in which no `//` or slash-star occurs, quoted or not. */
  predicate IsContent(c: string) {
    |c| >= 1 && forall k :: 0 <= k < |c| ==> !OpenerAt(c, k)
  }

  predicate WellFormedSection(s: DotStringsSection) {
    if s.isComment then IsLineComment(s.content) || IsBlockComment(s.content) else IsContent(s.content)
  }

  /**
   * Only the last section may be an unclosed comment, two content sections
   * are never adjacent, and a content section followed by a comment does not
   * end in '/' (else the opener would have started one character earlier).
   */
  predicate ValidSuccession(a: DotStringsSection, b: DotStringsSection) {
    if a.isComment then IsClosedComment(a.content)
    else b.isComment && |a.content| > 0 && a.content[|a.content| - 1] != '/'
  }

  predicate IsTokenization(sections: seq<DotStringsSection>) {
    && (forall k :: 0 <= k < |sections| ==> WellFormedSection(sections[k]))
    && (forall k :: 0 <= k < |sections| - 1 ==> ValidSuccession(sections[k], sections[k + 1]))
  }

  lemma LineCommentSection(text: string, start: nat)
    requires OpenerAt(text, start) && start + 2 < |text| && text[start + 1] == '/'
    ensures var e := LineCommentEnd(text, start + 3);
            && IsLineComment(text[start..e])
            && (e < |text| ==> IsClosedComment(text[start..e]))
  {
    var e := LineCommentEnd(text, start + 3);
    LineCommentEndSpec(text, start + 3);
    var c := text[start..e];
    forall j | 3 <= j < |c| - 1
      ensures c[j] != '\n'
    {
      assert c[j] == text[start + j] && !NewlineAt(text, start + j);
    }
  }

  lemma BlockCommentSection(text: string, start: nat)
    requires OpenerAt(text, start) && start + 2 < |text| && text[start + 1] == '*'
    ensures var e := BlockCommentEnd(text, start + 2);
            && IsBlockComment(text[start..e])
            && (e < |text| ==> IsClosedComment(text[start..e]))
  {
    var e := BlockCommentEnd(text, start + 2);
    BlockCommentEndSpec(text, start + 2);
    var c := text[start..e];
    forall k | 2 <= k < |c| - 2
      ensures !CloserAt(c, k)
    {
      assert c[k] == text[start + k] && c[k + 1] == text[start + k + 1];
      assert !CloserAt(text, start + k);
    }
    if e < |text| {
      assert CloserAt(text, e - 2);
      assert c[|c| - 2] == text[e - 2] && c[|c| - 1] == text[e - 1];
    }
  }

  lemma ContentSection(text: string, start: nat)
    requires start < |text| && !OpenerAt(text, start)
    ensures var e := ContentEnd(text, start + 1);
            && IsContent(text[start..e])
            && (e < |text| ==> OpenerAt(text, e) && text[e - 1] != '/')
  {
    var e := ContentEnd(text, start + 1);
    ContentEndSpec(text, start + 1);
    var c := text[start..e];
    forall k | 0 <= k < |c|
      ensures !OpenerAt(c, k)
    {
      if k + 1 < |c| {
        assert c[k] == text[start + k] && c[k + 1] == text[start + k + 1];
        assert !OpenerAt(text, start + k);
      }
    }
    if e < |text| {
      assert !OpenerAt(text, e - 1);
    }
  }

  /** The first section of `text[start..]` and where the rest of the scan resumes. */
  lemma FirstSection(text: string, start: nat) returns (e: nat)
    requires start < |text| && !(OpenerAt(text, start) && start + 2 == |text|)
    ensures start < e <= |text|
    ensures ScanAt(text, start) == [DotStringsSection(OpenerAt(text, start), text[start..e])] + ScanAt(text, e)
    ensures WellFormedSection(DotStringsSection(OpenerAt(text, start), text[start..e]))
    ensures e < |text| ==> ValidSuccessor(DotStringsSection(OpenerAt(text, start), text[start..e]), text, e)
  {
    if !OpenerAt(text, start) {
      e := FirstContentSection(text, start);
    } else if text[start + 1] == '/' {
      e := FirstLineCommentSection(text, start);
    } else {
      e := FirstBlockCommentSection(text, start);
    }
  }

  /** What a section ending at `e` says about the text that follows it. */
  predicate ValidSuccessor(sec: DotStringsSection, text: string, e: nat) {
    if sec.isComment then IsClosedComment(sec.content)
    else OpenerAt(text, e) && |sec.content| > 0 && sec.content[|sec.content| - 1] != '/'
  }

  lemma FirstContentSection(text: string, start: nat) returns (e: nat)
    requires start < |text| && !OpenerAt(text, start)
    ensures start < e <= |text|
    ensures ScanAt(text, start) == [DotStringsSection(false, text[start..e])] + ScanAt(text, e)
    ensures WellFormedSection(DotStringsSection(false, text[start..e]))
    ensures e < |text| ==> ValidSuccessor(DotStringsSection(false, text[start..e]), text, e)
  {
    e := ContentEnd(text, start + 1);
    ScanAtContent(text, start);
    ContentSection(text, start);
  }

  lemma FirstLineCommentSection(text: string, start: nat) returns (e: nat)
    requires OpenerAt(text, start) && start + 2 < |text| && text[start + 1] == '/'
    ensures start < e <= |text|
    ensures ScanAt(text, start) == [DotStringsSection(true, text[start..e])] + ScanAt(text, e)
    ensures WellFormedSection(DotStringsSection(true, text[start..e]))
    ensures e < |text| ==> ValidSuccessor(DotStringsSection(true, text[start..e]), text, e)
  {
    e := LineCommentEnd(text, start + 3);
    ScanAtLineComment(text, start);
    LineCommentSection(text, start);
  }

  lemma FirstBlockCommentSection(text: string, start: nat) returns (e: nat)
    requires OpenerAt(text, start) && start + 2 < |text| && text[start + 1] == '*'
    ensures start < e <= |text|
    ensures ScanAt(text, start) == [DotStringsSection(true, text[start..e])] + ScanAt(text, e)
    ensures WellFormedSection(DotStringsSection(true, text[start..e]))
    ensures e < |text| ==> ValidSuccessor(DotStringsSection(true, text[start..e]), text, e)
  {
    e := BlockCommentEnd(text, start + 2);
    ScanAtBlockComment(text, start);
    BlockCommentSection(text, start);
  }

  lemma ConcatCons(sec: DotStringsSection, rest: seq<DotStringsSection>)
    ensures Concat([sec] + rest) == sec.content + Concat(rest)
  {
    assert ([sec] + rest)[1..] == rest;
  }

  /** What the scan of `text[start..]` concatenates to, once the scan from `e` is known. */
  lemma ReconstructStep(text: string, start: nat, e: nat, sec: DotStringsSection, rest: seq<DotStringsSection>)
    requires start < e <= |text|
    requires sec.content == text[start..e]
    requires || Concat(rest) == text[e..]
             || (e + 2 <= |text| && OpenerAt(text, |text| - 2) && Concat(rest) == text[e..|text| - 2])
    ensures || Concat([sec] + rest) == text[start..]
            || (start + 2 <= |text| && OpenerAt(text, |text| - 2) && Concat([sec] + rest) == text[start..|text| - 2])
  {
    ConcatCons(sec, rest);
    if Concat(rest) == text[e..] {
      assert text[start..e] + text[e..] == text[start..];
    } else {
      assert text[start..e] + text[e..|text| - 2] == text[start..|text| - 2];
    }
  }

  /** The sections of `text[start..]` concatenate back to it, unless an opener in the final two characters was dropped. */
  lemma {:induction false} ScanAtReconstructs(text: string, start: nat)
    requires start <= |text|
    ensures || Concat(ScanAt(text, start)) == text[start..]
            || (start + 2 <= |text| && OpenerAt(text, |text| - 2) && Concat(ScanAt(text, start)) == text[start..|text| - 2])
    decreases |text| - start
  {
    if start == |text| || (OpenerAt(text, start) && start + 2 == |text|) {
    } else {
      var e := FirstSection(text, start);
      ScanAtReconstructs(text, e);
      ReconstructStep(text, start, e, DotStringsSection(OpenerAt(text, start), text[start..e]), ScanAt(text, e));
    }
  }

  /** Concatenating the sections of a scan reproduces the input, except for an opener occupying the last two characters. */
  lemma ScanReconstructs(text: string)
    ensures || Concat(Scan(text)) == text
            || (|text| >= 2 && OpenerAt(text, |text| - 2) && Concat(Scan(text)) == text[..|text| - 2])
  {
    ScanAtReconstructs(text, 0);
    assert text[0..] == text;
  }

  /** Every section of a scan has the shape of a comment or of opener-free content, and sections follow each other validly. */
  lemma {:induction false} ScanAtIsTokenization(text: string, start: nat)
    requires start <= |text|
    ensures IsTokenization(ScanAt(text, start))
    ensures |ScanAt(text, start)| > 0 ==> (ScanAt(text, start)[0].isComment <==> OpenerAt(text, start))
    decreases |text| - start
  {
    if start == |text| || (OpenerAt(text, start) && start + 2 == |text|) {
    } else {
      var e := FirstSection(text, start);
      var sec := DotStringsSection(OpenerAt(text, start), text[start..e]);
      var rest := ScanAt(text, e);
      ScanAtIsTokenization(text, e);
      if |rest| > 0 {
        assert ValidSuccession(sec, rest[0]);
      }
      var all := [sec] + rest;
      assert forall k :: 1 <= k < |all| ==> all[k] == rest[k - 1];
    }
  }

  lemma ScanIsTokenization(text: string)
    ensures IsTokenization(Scan(text))
  {
    ScanAtIsTokenization(text, 0);
  }

  /** A text with no '/' has no comment: it is one content section (none when empty). */
  lemma ScanWithoutSlash(text: string)
    requires '/' !in text
    ensures Scan(text) == if |text| == 0 then [] else [DotStringsSection(false, text)]
  {
    if |text| > 0 {
      assert !OpenerAt(text, 0);
      assert forall j :: 1 <= j < |text| ==> !OpenerAt(text, j);
      ContentEndIs(text, 1, |text|);
      ScanAtContent(text, 0);
      assert text[0..|text|] == text;
    }
  }
}
