/**
 * Rewriting an Android XML string resource file with a mapping
 * (writeMappingToXmlFile, addToXmlDocument and xmlFileCleanup).
 *
 * The DOM is abstracted to the document-order list of its `string` elements,
 * each with its `name` attribute and text; parsing and serialising are
 * parameters. Every element whose name has an entry takes the content of the
 * FIRST such entry (the mapping is not consumed); with addNewEntries, each
 * entry whose name no element carries is appended at the end of the first
 * `resources` element. The serialised text is then cleaned: blank lines go,
 * every kept line ends with "\n", the `standalone="…"` hint is removed when
 * the original declaration had none, and the whole text is trimmed.
 */
module MapToXmlFileWriting {
  import opened Sequences
  import opened Errors
  import opened Text
  import opened Entries
  import opened RegexPatterns

  /** One `<string name="…">text</string>` element. */
  datatype StringElement = StringElement(name: string, text: string)

  /** The names of the elements, in document order. */
  function ElementNames(els: seq<StringElement>): seq<string> {
    seq(|els|, i requires 0 <= i < |els| => els[i].name)
  }

  /** The text of every element with an entry becomes the content of its first entry; other elements stay. */
  function UpdateElements(els: seq<StringElement>, mapping: Mapping): (r: seq<StringElement>)
    ensures |r| == |els|
    ensures forall i :: 0 <= i < |els| ==> r[i].name == els[i].name
    ensures forall i :: 0 <= i < |els| && HasName(mapping, els[i].name) ==>
              r[i].text == FindByName(mapping, els[i].name).value.content
    ensures forall i :: 0 <= i < |els| && !HasName(mapping, els[i].name) ==> r[i] == els[i]
  {
    if |els| == 0 then []
    else
      var head := match FindByName(mapping, els[0].name)
                  case None => els[0]
                  case Some(t) => StringElement(els[0].name, t.content);
      [head] + UpdateElements(els[1..], mapping)
  }

  /** The entries found for the elements, in element order (listOfManipulatedMappingElements). */
  function FoundEntries(els: seq<StringElement>, mapping: Mapping): (r: Mapping)
    ensures forall e :: e in r ==> e in mapping
    ensures forall x :: HasName(r, x) <==> HasName(mapping, x) && x in ElementNames(els)
  {
    if |els| == 0 then []
    else
      var rest := FoundEntries(els[1..], mapping);
      assert forall x :: x in ElementNames(els) <==> x == els[0].name || x in ElementNames(els[1..]) by {
        assert ElementNames(els) == [els[0].name] + ElementNames(els[1..]);
      }
      match FindByName(mapping, els[0].name)
      case None => rest
      case Some(t) =>
        assert ([t] + rest)[0] == t;
        assert forall i :: 0 <= i < |rest| ==> ([t] + rest)[i + 1] == rest[i];
        assert forall x :: HasName([t] + rest, x) <==> t.name == x || HasName(rest, x) by {
          forall x | HasName([t] + rest, x)
            ensures t.name == x || HasName(rest, x)
          {
            var i :| 0 <= i < |[t] + rest| && ([t] + rest)[i].name == x;
            if i > 0 {
              assert rest[i - 1].name == x;
            }
          }
        }
        [t] + rest
  }

  /** The names of the elements that found an entry, in element order (debug list 1 before appending). */
  function MatchedNames(els: seq<StringElement>, mapping: Mapping): (r: seq<string>)
    ensures |r| <= |els|
    ensures forall x :: x in r <==> HasName(mapping, x) && x in ElementNames(els)
  {
    if |els| == 0 then []
    else
      assert ElementNames(els) == [els[0].name] + ElementNames(els[1..]);
      (if HasName(mapping, els[0].name) then [els[0].name] else []) + MatchedNames(els[1..], mapping)
  }

  /** The entries whose name no found entry carries, in mapping order: what addNewEntries appends. */
  function NewEntries(mapping: Mapping, found: Mapping): (r: Mapping)
    ensures |r| <= |mapping|
    ensures forall e :: e in r <==> e in mapping && !HasName(found, e.name)
  {
    if |mapping| == 0 then []
    else AppendedIfNew(mapping[0], found) + NewEntries(mapping[1..], found)
  }

  /** What one entry contributes to the appended entries: itself when no found entry has its name, else nothing. */
  function AppendedIfNew(e: NameContentTuple, found: Mapping): Mapping {
    if HasName(found, e.name) then [] else [e]
  }

  /** The appended entries keep mapping order: a split mapping appends the first part's entries, then the second's. */
  lemma {:induction false} NewEntriesConcat(a: Mapping, b: Mapping, found: Mapping)
    ensures NewEntries(a + b, found) == NewEntries(a, found) + NewEntries(b, found)
    decreases |a|
  {
    if |a| == 0 {
      assert a + b == b;
    } else {
      NewEntriesConcat(a[1..], b, found);
      TailOfConcat(a, b);
    }
  }

  /** A single entry is appended, once, exactly when no found entry carries its name. */
  lemma NewEntriesOfOne(e: NameContentTuple, found: Mapping)
    ensures NewEntries([e], found) == if HasName(found, e.name) then [] else [e]
  {
    assert [e][1..] == [];
  }

  /** The source's test against the found entries is the same as asking whether some element has the name. */
  lemma NewEntriesAreUnmatched(els: seq<StringElement>, mapping: Mapping)
    ensures forall e :: e in NewEntries(mapping, FoundEntries(els, mapping)) <==> e in mapping && e.name !in ElementNames(els)
  {
    forall e | e in mapping
      ensures HasName(mapping, e.name)
    {
      var i :| 0 <= i < |mapping| && mapping[i] == e;
    }
  }

  function AsElements(entries: Mapping): (r: seq<StringElement>)
    ensures |r| == |entries|
    ensures forall i :: 0 <= i < |entries| ==> r[i] == StringElement(entries[i].name, entries[i].content)
  {
    if |entries| == 0 then [] else [StringElement(entries[0].name, entries[0].content)] + AsElements(entries[1..])
  }

  datatype XmlWrite = XmlWrite(elements: seq<StringElement>, debug: seq<seq<string>>)

  /**
   * The element part of writeMappingToXmlFile: the updated elements, then
   * (with addNewEntries) one new element per unmatched entry; debug list 0
   * holds every element name plus the appended names, list 1 the matched
   * element names plus the appended names.
   */
  function WriteMappingToElements(els: seq<StringElement>, mapping: Mapping, addNewEntries: bool): (r: XmlWrite)
    ensures |r.debug| == 2
    ensures |els| <= |r.elements| && r.elements[..|els|] == UpdateElements(els, mapping)
    ensures !addNewEntries ==> r.elements == UpdateElements(els, mapping)
    ensures !addNewEntries ==> r.debug == [ElementNames(els), MatchedNames(els, mapping)]
    ensures addNewEntries ==>
              var added := NewEntries(mapping, FoundEntries(els, mapping));
              && r.elements == UpdateElements(els, mapping) + AsElements(added)
              && r.debug == [ElementNames(els) + Names(added), MatchedNames(els, mapping) + Names(added)]
  {
    var updated := UpdateElements(els, mapping);
    if addNewEntries then
      var added := NewEntries(mapping, FoundEntries(els, mapping));
      XmlWrite(updated + AsElements(added), [ElementNames(els) + Names(added), MatchedNames(els, mapping) + Names(added)])
    else
      XmlWrite(updated, [ElementNames(els), MatchedNames(els, mapping)])
  }

  /** Existing elements keep their order and names, and none is removed. */
  lemma WrittenElementsKeepNames(els: seq<StringElement>, mapping: Mapping, addNewEntries: bool)
    ensures var r := WriteMappingToElements(els, mapping, addNewEntries).elements;
            ElementNames(r)[..|els|] == ElementNames(els)
  {
  }

  /** With addNewEntries, the element names afterwards are the old ones, then those of the appended entries. */
  lemma WrittenNames(els: seq<StringElement>, mapping: Mapping)
    ensures ElementNames(WriteMappingToElements(els, mapping, true).elements)
            == ElementNames(els) + Names(NewEntries(mapping, FoundEntries(els, mapping)))
  {
    var added := NewEntries(mapping, FoundEntries(els, mapping));
    var updated := UpdateElements(els, mapping);
    ElementNamesConcat(updated, AsElements(added));
    UpdateKeepsNames(els, mapping);
    AsElementsNames(added);
  }

  lemma ElementNamesConcat(a: seq<StringElement>, b: seq<StringElement>)
    ensures ElementNames(a + b) == ElementNames(a) + ElementNames(b)
  {
    assert forall k :: 0 <= k < |a| ==> (a + b)[k] == a[k];
    assert forall k :: |a| <= k < |a| + |b| ==> (a + b)[k] == b[k - |a|];
  }

  lemma UpdateKeepsNames(els: seq<StringElement>, mapping: Mapping)
    ensures ElementNames(UpdateElements(els, mapping)) == ElementNames(els)
  {
  }

  lemma AsElementsNames(entries: Mapping)
    ensures ElementNames(AsElements(entries)) == Names(entries)
  {
  }

  /** With addNewEntries, every entry's name is the name of some element afterwards. */
  lemma WrittenElementsCoverMapping(els: seq<StringElement>, mapping: Mapping)
    ensures var r := WriteMappingToElements(els, mapping, true).elements;
            forall i :: 0 <= i < |mapping| ==> mapping[i].name in ElementNames(r)
  {
    var added := NewEntries(mapping, FoundEntries(els, mapping));
    WrittenNames(els, mapping);
    forall i | 0 <= i < |mapping|
      ensures mapping[i].name in ElementNames(els) + Names(added)
    {
      EntryNameCovered(els, mapping, i);
    }
  }

  lemma EntryNameCovered(els: seq<StringElement>, mapping: Mapping, i: nat)
    requires i < |mapping|
    ensures mapping[i].name in ElementNames(els) + Names(NewEntries(mapping, FoundEntries(els, mapping)))
  {
    var added := NewEntries(mapping, FoundEntries(els, mapping));
    var e := mapping[i];
    if e.name !in ElementNames(els) {
      NewEntriesAreUnmatched(els, mapping);
      assert e in added;
      var k :| 0 <= k < |added| && added[k] == e;
      assert Names(added)[k] == e.name;
    }
  }

  /**
   * With names unique in the mapping, after a write every element named by
   * an entry carries that entry's content.
   */
  lemma WrittenElementsAgree(els: seq<StringElement>, mapping: Mapping, addNewEntries: bool)
    requires UniqueNames(mapping)
    ensures var r := WriteMappingToElements(els, mapping, addNewEntries).elements;
            forall i :: 0 <= i < |r| && HasName(mapping, r[i].name) ==>
              r[i].text == FindByName(mapping, r[i].name).value.content
  {
    var r := WriteMappingToElements(els, mapping, addNewEntries).elements;
    var updated := UpdateElements(els, mapping);
    forall i | 0 <= i < |r| && HasName(mapping, r[i].name)
      ensures r[i].text == FindByName(mapping, r[i].name).value.content
    {
      if i < |els| {
        assert r[i] == updated[i];
      } else {
        var added := NewEntries(mapping, FoundEntries(els, mapping));
        assert r == updated + AsElements(added);
        AddedEntryIsFirst(mapping, added, i - |els|);
      }
    }
  }

  /** An entry of a mapping with unique names is the one FindByName finds for its name. */
  lemma AddedEntryIsFirst(mapping: Mapping, added: Mapping, k: nat)
    requires UniqueNames(mapping)
    requires forall e :: e in added ==> e in mapping
    requires k < |added|
    ensures FindByName(mapping, added[k].name) == Some(added[k])
  {
    var e := added[k];
    assert e in added;
    var j :| 0 <= j < |mapping| && mapping[j] == e;
    assert FirstIndexOfName(mapping, e.name) == Some(j);
  }

  /** Writing the same mapping (unique by name) a second time changes nothing more. */
  lemma WriteTwiceIsWriteOnce(els: seq<StringElement>, mapping: Mapping, addNewEntries: bool)
    requires UniqueNames(mapping)
    ensures var once := WriteMappingToElements(els, mapping, addNewEntries).elements;
            WriteMappingToElements(once, mapping, addNewEntries).elements == once
  {
    var once := WriteMappingToElements(els, mapping, addNewEntries).elements;
    WrittenElementsAgree(els, mapping, addNewEntries);
    UpdateAgreeingIsIdentity(once, mapping);
    if addNewEntries {
      WrittenElementsCoverMapping(els, mapping);
      NothingNewWhenCovered(once, mapping);
      assert AsElements([]) == [];
    }
  }

  /** Elements that already carry their entries' contents are left as they are by an update. */
  lemma UpdateAgreeingIsIdentity(els: seq<StringElement>, mapping: Mapping)
    requires forall i :: 0 <= i < |els| && HasName(mapping, els[i].name) ==>
               els[i].text == FindByName(mapping, els[i].name).value.content
    ensures UpdateElements(els, mapping) == els
  {
  }

  /** When every entry's name is already an element's name, nothing is appended. */
  lemma NothingNewWhenCovered(els: seq<StringElement>, mapping: Mapping)
    requires forall i :: 0 <= i < |mapping| ==> mapping[i].name in ElementNames(els)
    ensures NewEntries(mapping, FoundEntries(els, mapping)) == []
  {
    var found := FoundEntries(els, mapping);
    forall k | 0 <= k < |mapping|
      ensures HasName(found, mapping[k].name)
    {
      assert HasName(mapping, mapping[k].name);
    }
    NewEntriesEmpty(mapping, found);
  }

  lemma {:induction false} NewEntriesEmpty(mapping: Mapping, found: Mapping)
    requires forall k :: 0 <= k < |mapping| ==> HasName(found, mapping[k].name)
    ensures NewEntries(mapping, found) == []
    decreases |mapping|
  {
    if |mapping| > 0 {
      var tail := mapping[1..];
      forall k | 0 <= k < |tail|
        ensures HasName(found, tail[k].name)
      {
        assert tail[k] == mapping[k + 1];
      }
      NewEntriesEmpty(tail, found);
    }
  }

  /** A line `\S` finds something in: it holds a character that is not `\s`. */
  predicate IsNonBlankLine(line: string) {
    !AllRegexSpace(line)
  }

  /**
   * The line filter and the final trim of xmlFileCleanup agree on what is
   * blank: every line the filter drops is one that trim() empties, since
   * every `\s` character is whitespace to Kotlin.
   */
  lemma BlankLineTrimsToEmpty(line: string)
    requires !IsNonBlankLine(line)
    ensures Trim(line) == ""
  {
    forall i | 0 <= i < |line|
      ensures IsKotlinWhitespace(line[i])
    {
      RegexSpaceIsKotlinWhitespace(line[i]);
    }
  }

  function NonBlankLines(lines: seq<string>): (r: seq<string>)
    ensures |r| <= |lines|
  {
    if |lines| == 0 then []
    else (if IsNonBlankLine(lines[0]) then [lines[0]] else []) + NonBlankLines(lines[1..])
  }

  /** The kept lines are exactly the lines with a non-`\s` character. */
  lemma {:induction false} NonBlankLinesMembers(lines: seq<string>)
    ensures forall l :: l in NonBlankLines(lines) <==> l in lines && IsNonBlankLine(l)
    decreases |lines|
  {
    if |lines| > 0 {
      NonBlankLinesMembers(lines[1..]);
      assert lines == [lines[0]] + lines[1..];
    }
  }

  /** Each line followed by "\n". */
  function Terminate(lines: seq<string>): string {
    if |lines| == 0 then "" else lines[0] + "\n" + Terminate(lines[1..])
  }

  /** The loop of xmlFileCleanup: the lines with a non-`\s` character, each ended with "\n". */
  function KeepNonBlankLines(text: string): string {
    Terminate(NonBlankLines(Lines(text)))
  }

  lemma {:induction false} TerminateIsJoin(lines: seq<string>)
    ensures Terminate(lines) == Join(lines + [""], '\n')
    decreases |lines|
  {
    if |lines| > 0 {
      TerminateIsJoin(lines[1..]);
      TailOfConcat(lines, [""]);
    }
  }

  lemma {:induction false} TerminateHasNoCarriageReturn(lines: seq<string>)
    requires forall i :: 0 <= i < |lines| ==> '\r' !in lines[i]
    ensures '\r' !in Terminate(lines)
    decreases |lines|
  {
    if |lines| > 0 {
      TerminateHasNoCarriageReturn(lines[1..]);
    }
  }

  /** Read back line by line, the cleaned text is exactly the non-blank lines, then the empty rest after the last "\n". */
  lemma KeptLinesReadBack(text: string)
    ensures Lines(KeepNonBlankLines(text)) == NonBlankLines(Lines(text)) + [""]
  {
    var kept := NonBlankLines(Lines(text));
    NonBlankLinesMembers(Lines(text));
    assert forall i :: 0 <= i < |kept| ==> kept[i] in Lines(text);
    TerminateHasNoCarriageReturn(kept);
    LinesWithoutCarriageReturn(Terminate(kept));
    TerminateIsJoin(kept);
    SplitJoin(kept + [""], '\n');
  }

  lemma {:induction false} NonBlankLinesConcat(a: seq<string>, b: seq<string>)
    ensures NonBlankLines(a + b) == NonBlankLines(a) + NonBlankLines(b)
    decreases |a|
  {
    if |a| == 0 {
      assert a + b == b;
    } else {
      NonBlankLinesConcat(a[1..], b);
      TailOfConcat(a, b);
    }
  }

  lemma {:induction false} NonBlankLinesOfNonBlank(lines: seq<string>)
    requires forall i :: 0 <= i < |lines| ==> IsNonBlankLine(lines[i])
    ensures NonBlankLines(lines) == lines
    decreases |lines|
  {
    if |lines| > 0 {
      NonBlankLinesOfNonBlank(lines[1..]);
    }
  }

  /** Dropping blank lines twice is dropping them once. */
  lemma KeepNonBlankLinesIdempotent(text: string)
    ensures KeepNonBlankLines(KeepNonBlankLines(text)) == KeepNonBlankLines(text)
  {
    var kept := NonBlankLines(Lines(text));
    KeptLinesReadBack(text);
    NonBlankLinesConcat(kept, [""]);
    assert !IsNonBlankLine("");
    assert NonBlankLines([""]) == [];
    NonBlankLinesMembers(Lines(text));
    assert forall i :: 0 <= i < |kept| ==> kept[i] in kept;
    NonBlankLinesOfNonBlank(kept);
    assert kept + [] == kept;
  }

  /** `standalone="` after the `\s` of the standalone-hint pattern. */
  const StandaloneKey: string := "standalone=\""

  /** The `\s` and the key of the standalone-hint pattern sit at i. */
  predicate StandaloneKeyAt(s: string, i: nat) {
    i + 1 + |StandaloneKey| <= |s| && IsRegexSpace(s[i]) && s[i + 1..i + 1 + |StandaloneKey|] == StandaloneKey
  }

  /** `.*"` (no DOTALL, so `.` stops at line terminators) can match from j to end. */
  predicate QuotedRun(s: string, j: nat, end: nat) {
    && j < end <= |s|
    && s[end - 1] == '"'
    && forall k :: j <= k < end - 1 ==> !IsLineTerminator(s[k])
  }

  /** `\sstandalone=".*"` can match from i to end. */
  predicate StandaloneMatch(s: string, i: nat, end: nat) {
    StandaloneKeyAt(s, i) && QuotedRun(s, i + 1 + |StandaloneKey|, end)
  }

  /** The greedy end of `.*"` from j, if it matches at all: just past the last '"' before the line ends. */
  function QuotedRunEnd(s: string, j: nat): (r: Option<nat>)
    requires j <= |s|
    ensures r.Some? ==> QuotedRun(s, j, r.value)
    ensures r.Some? ==> forall end: nat :: QuotedRun(s, j, end) ==> end <= r.value
    ensures r.None? ==> forall end: nat :: !QuotedRun(s, j, end)
  {
    var lineEnd := j + FirstLineTerminator(s[j..]);
    assert forall end: nat :: QuotedRun(s, j, end) ==> LastIndexBefore(s, '"', lineEnd).Some? && end <= LastIndexBefore(s, '"', lineEnd).value + 1 by {
      forall end: nat | QuotedRun(s, j, end)
        ensures LastIndexBefore(s, '"', lineEnd).Some? && end <= LastIndexBefore(s, '"', lineEnd).value + 1
      {
        QuotedRunWithinLine(s, j, end);
      }
    }
    match LastIndexBefore(s, '"', lineEnd)
    case None => None
    case Some(q) =>
      if q < j then None
      else
        assert forall k :: j <= k < q ==> s[k] == s[j..][k - j];
        Some(q + 1)
  }

  /** Any end of `.*"` from j lies on j's line, after the last '"' before the line's end. */
  lemma QuotedRunWithinLine(s: string, j: nat, end: nat)
    requires QuotedRun(s, j, end)
    ensures var lineEnd := j + FirstLineTerminator(s[j..]);
            end <= lineEnd && LastIndexBefore(s, '"', lineEnd).Some? && end <= LastIndexBefore(s, '"', lineEnd).value + 1
  {
    var r := FirstLineTerminator(s[j..]);
    if j + r < |s| {
      assert s[j..][r] == s[j + r];
    }
  }

  /** The greedy end of the standalone-hint match starting at i, if any. */
  function StandaloneMatchEnd(s: string, i: nat): (r: Option<nat>)
    ensures r.Some? ==> StandaloneMatch(s, i, r.value)
    ensures r.Some? ==> forall end: nat :: StandaloneMatch(s, i, end) ==> end <= r.value
    ensures r.None? ==> forall end: nat :: !StandaloneMatch(s, i, end)
  {
    if StandaloneKeyAt(s, i) then QuotedRunEnd(s, i + 1 + |StandaloneKey|) else None
  }

  /** Leftmost start at or after `from` where the standalone-hint pattern matches. */
  function FirstStandalone(s: string, from: nat): (r: Option<nat>)
    requires from <= |s|
    ensures r.Some? ==> from <= r.value < |s| && StandaloneMatchEnd(s, r.value).Some?
    ensures r.Some? ==> forall i: nat :: from <= i < r.value ==> StandaloneMatchEnd(s, i).None?
    ensures r.None? ==> forall i: nat :: from <= i ==> StandaloneMatchEnd(s, i).None?
    decreases |s| - from
  {
    if from == |s| then
      assert forall i: nat :: from <= i ==> !StandaloneKeyAt(s, i);
      None
    else if StandaloneMatchEnd(s, from).Some? then Some(from)
    else FirstStandalone(s, from + 1)
  }

  /** `standaloneHintRegex.containsMatchIn(s)`. */
  predicate ContainsStandaloneHint(s: string) {
    FirstStandalone(s, 0).Some?
  }

  lemma ContainsStandaloneHintIffMatch(s: string)
    ensures ContainsStandaloneHint(s) <==> exists i: nat, end: nat :: StandaloneMatch(s, i, end)
  {
    if ContainsStandaloneHint(s) {
      var i := FirstStandalone(s, 0).value;
      assert StandaloneMatch(s, i, StandaloneMatchEnd(s, i).value);
    }
    if exists i: nat, end: nat :: StandaloneMatch(s, i, end) {
      var i: nat, end: nat :| StandaloneMatch(s, i, end);
      assert StandaloneMatchEnd(s, i).Some?;
    }
  }

  /**
   * `standaloneHintRegex.replace(s, "")`: from the left, every leftmost greedy
   * match is cut out and the search goes on after it.
   */
  function RemoveStandaloneHints(s: string): (r: string)
    ensures !ContainsStandaloneHint(s) ==> r == s
    ensures ContainsStandaloneHint(s) ==> |r| + |StandaloneKey| + 2 <= |s|
    decreases |s|
  {
    match FirstStandalone(s, 0)
    case None => s
    case Some(i) =>
      var end := StandaloneMatchEnd(s, i).value;
      s[..i] + RemoveStandaloneHints(s[end..])
  }

  lemma TrimHasNoOuterWhitespace(s: string)
    ensures var r := Trim(s); |r| > 0 ==> !IsKotlinWhitespace(r[0]) && !IsKotlinWhitespace(r[|r| - 1])
  {
    var t := TrimStart(s);
    var r := TrimEnd(t);
    if |r| > 0 {
      assert r[0] == t[0];
    }
  }

  /**
   * xmlFileCleanup on the serialised text: the non-blank lines, each ended
   * with "\n", the standalone hint removed if asked and present, and the whole
   * text trimmed.
   */
  function XmlFileCleanup(text: string, standaloneHintDeletion: bool): (r: string)
    ensures |r| > 0 ==> !IsKotlinWhitespace(r[0]) && !IsKotlinWhitespace(r[|r| - 1])
    ensures !standaloneHintDeletion ==> r == Trim(KeepNonBlankLines(text))
    ensures !ContainsStandaloneHint(KeepNonBlankLines(text)) ==> r == Trim(KeepNonBlankLines(text))
    ensures standaloneHintDeletion && ContainsStandaloneHint(KeepNonBlankLines(text)) ==>
              r == Trim(RemoveStandaloneHints(KeepNonBlankLines(text)))
  {
    var kept := KeepNonBlankLines(text);
    var result := if standaloneHintDeletion && ContainsStandaloneHint(kept) then RemoveStandaloneHints(kept) else kept;
    TrimHasNoOuterWhitespace(result);
    Trim(result)
  }

  /**
   * writeMappingToXmlFile on a file system given as a map from path to text,
   * with the DOM parse (the `string` elements of a text) and the serialiser
   * (a text with its `string` elements replaced) as parameters: a missing
   * file or a name without the `.xml` suffix is FILE NOT FOUND; otherwise the
   * file is replaced by the cleaned serialisation, removing the standalone
   * hint unless the original first line carried one.
   */
  function WriteMappingToXmlFile(mapping: Mapping, path: string, addNewEntries: bool, files: map<string, string>,
                                 elementsOf: string -> seq<StringElement>,
                                 serialize: (string, seq<StringElement>) -> string)
    : (r: Result<(map<string, string>, seq<seq<string>>)>)
    ensures (path !in files || !EndsWith(path, ".xml")) <==> r.Err?
    ensures r.Err? ==> r.error == Error(FileNotFound, "Could not find .xml file under:\n" + path)
    ensures r.Ok? ==> r.value.0.Keys == files.Keys
    ensures r.Ok? ==> forall p :: p in files && p != path ==> r.value.0[p] == files[p]
    ensures r.Ok? ==> r.value.1 == WriteMappingToElements(elementsOf(files[path]), mapping, addNewEntries).debug
  {
    if path !in files || !EndsWith(path, ".xml") then
      Err(Error(FileNotFound, "Could not find .xml file under:\n" + path))
    else
      var text := files[path];
      var hasStandaloneDeclaration := ContainsStandaloneHint(Lines(text)[0]);
      var out := WriteMappingToElements(elementsOf(text), mapping, addNewEntries);
      var written := XmlFileCleanup(serialize(text, out.elements), !hasStandaloneDeclaration);
      Ok((files[path := written], out.debug))
  }

  /**
   * The standalone condition of writeMappingToXmlFile: when the original
   * first line carries a standalone hint the cleaned serialisation keeps
   * every hint; otherwise any hint the serialiser produced is removed.
   */
  lemma WrittenXmlStandalone(mapping: Mapping, path: string, addNewEntries: bool, files: map<string, string>,
                             elementsOf: string -> seq<StringElement>,
                             serialize: (string, seq<StringElement>) -> string)
    requires path in files && EndsWith(path, ".xml")
    ensures var r := WriteMappingToXmlFile(mapping, path, addNewEntries, files, elementsOf, serialize);
            var kept := KeepNonBlankLines(serialize(files[path], WriteMappingToElements(elementsOf(files[path]), mapping, addNewEntries).elements));
            r.Ok? &&
            r.value.0[path] == XmlFileCleanup(serialize(files[path], WriteMappingToElements(elementsOf(files[path]), mapping, addNewEntries).elements),
                                              !ContainsStandaloneHint(Lines(files[path])[0])) &&
            (ContainsStandaloneHint(Lines(files[path])[0]) ==> r.value.0[path] == Trim(kept)) &&
            (!ContainsStandaloneHint(Lines(files[path])[0]) && ContainsStandaloneHint(kept) ==>
               r.value.0[path] == Trim(RemoveStandaloneHints(kept))) &&
            (!ContainsStandaloneHint(kept) ==> r.value.0[path] == Trim(kept))
  {
  }
}
