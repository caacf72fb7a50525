# XMLDotStringsTranslator core in Dafny

A model of the engine of XMLDotStringsTranslator. The tool copies localisation
entries between Android XML string resources and Apple `.strings` files. It
covers the following parts:

- **`.strings` scanner** (`readSectionsOfDotStrings`). It cuts a file into
  content and comment sections. The loop is a method, proved equal to a
  section-at-a-time reference scan. The reference scan is shown to
  concatenate back to its input (except for an opener in the last two
  characters) and to produce well-formed sections.
- **Patterns** (`RegexPatterns.kt`). Each regular expression is given a
  closed form and related to what the matcher reports:
  - whitespace-only, with Java's `$`;
  - the key/value capture pattern, with DOTALL and greedy backtracking;
  - the last-slash prefix, without DOTALL;
  - the version number.
- **`.strings` reader** (`createDotStringsMap`). Content sections are split at
  `;`; blank pieces are skipped; every other piece is a name/content entry or
  a FORMAT ERROR.
- **`.strings` writer** (`writeMappingToDotStringsFile`,
  `manipulateSectionContent`). Every statement whose key has an entry in the
  working mapping takes that entry's content, and the entry is removed.
  Unconsumed entries are appended when `addNewEntries` is set.
- **XML writer** (`writeMappingToXmlFile`, `addToXmlDocument`,
  `xmlFileCleanup`). The DOM is reduced to its list of `string` elements, with
  its parse and its serialiser passed in as parameters. The textual clean-up
  that follows serialisation is modelled exactly.
- **Merge** (`mergeMappings`). A left fold of the top-first pairwise merge.
- **Config** (`readConfig`). The existence check and the resolution of a
  relative `rootPath` against the config file's directory.
- **State observer** (`StateObserver`). Per-path sets of moved and unmoved
  ids, as an immutable value.
- **Entry point** (`translateViaXDST`). The argument loop, the run values,
  the config path, and per translation the read, merge and write pipeline
  with its dispatch on the `.xml` / `.strings` suffix.

The file system is a `map<string, string>` from path to text. Every write
returns a new map. Tagged exceptions (`DotStringsTranslatorException`) are
`Err` values carrying their tag and message. Two exceptions of the argument
scan that the program does not catch, `--config` as the last argument and a
missing version file, are the `Crashed` and `CrashedRun` outcomes; the other
uncaught failures are listed under "Left out".

Quirks of the code that the model keeps:

- An empty `.strings` text scans to no sections at all, not to one empty
  content section.
- A comment opener in the last two characters of a text is dropped. The
  scanner's index jumps past the end and the pending section is never
  emitted (`ScanReconstructs`).
- Reading a file and writing the result back reproduces it byte for byte only
  when every content section is ';'-terminated. The writer re-adds `;` after
  every statement (`WriteWithOwnMappingIsIdentity`).
- Within one list, the merge keeps duplicate names. A top entry removes only
  the first bottom entry of its name, and the first list is taken whole
  (`MergePairOfName`).
- A destination without a known suffix is detected only when its turn comes.
  The destinations before it have already been written
  (`BadDestinationAfterEarlierWrites`).
- A relative `rootPath` is resolved against the config path up to its last
  `/`. The last-slash pattern has no DOTALL, so only the first line of the
  path counts.
- `--config` as the last argument makes the iterator throw
  `NoSuchElementException`. The program does not catch it (`ScanConfigArgument`).

## Model

| member | source | states |
|---|---|---|
| DotStringsFileSplitting.ReadSectionsOfDotStrings | src/main/kotlin/utility/DotStringsFileSplitting.kt:15-92 | the character loop with its two comment modes computes exactly the reference scan `Scan`; an empty text gives no section |
| DotStringsFileSplitting.LineCommentCharacter | src/main/kotlin/utility/DotStringsFileSplitting.kt:37-48 | one step in a line comment advances and keeps the scanner invariant: the comment grows, or takes the following '\n' and is emitted |
| DotStringsFileSplitting.BlockCommentCharacter | src/main/kotlin/utility/DotStringsFileSplitting.kt:49-60 | one step in a block comment advances and keeps the scanner invariant: the comment grows, or takes the '/' of a star-slash and is emitted |
| DotStringsFileSplitting.LineCommentEndSpec | src/main/kotlin/utility/DotStringsFileSplitting.kt:37-48 | a line comment ends just past the first '\n' at or after the search start, or at the end of a text without one |
| DotStringsFileSplitting.BlockCommentEndSpec | src/main/kotlin/utility/DotStringsFileSplitting.kt:49-60 | a block comment ends just past the first star-slash at or after the search start, or at the end of a text without one |
| DotStringsFileSplitting.ContentEndSpec | src/main/kotlin/utility/DotStringsFileSplitting.kt:63-88 | a content section runs up to the first `//` or slash-star opener, or to the end of the text |
| DotStringsFileSplitting.FirstSection | src/main/kotlin/utility/DotStringsFileSplitting.kt:21-89 | the first section of a text is a comment exactly when the text starts with an opener; it is well formed, and the scan continues where it ends |
| DotStringsFileSplitting.ScanReconstructs | src/main/kotlin/utility/DotStringsFileSplitting.kt:21-89 | the sections concatenate back to the input, except when an opener fills the last two characters and is dropped |
| DotStringsFileSplitting.ScanIsTokenization | src/main/kotlin/utility/DotStringsFileSplitting.kt:21-89 | every section is a line comment, a block comment or opener-free content, and each section is followed by one that may follow it |
| DotStringsFileSplitting.ScanWithoutSlash | src/main/kotlin/utility/DotStringsFileSplitting.kt:83-88 | a text without '/' is one content section, or none when it is empty |
| Text.Split | src/main/kotlin/inputmapcreators/DotStringsMapCreator.kt:46 | Kotlin split on one character: at least one piece, no piece holds the delimiter, and joining the pieces with it gives the text back |
| Text.SplitJoin | src/main/kotlin/inputmapcreators/DotStringsMapCreator.kt:46 | splitting undoes joining for delimiter-free pieces |
| Text.Lines | src/main/kotlin/outputmaptofilewriters/MapToXmlFileWriting.kt:56 | Kotlin lines(): at least one line, and no line holds '\n' or '\r' |
| Text.LinesSplitUnixLineBreaks | src/main/kotlin/outputmaptofilewriters/MapToXmlFileWriting.kt:56 | lines() cuts exactly at "\r\n", "\n" and "\r": the lines are the text with every break written as "\n", split at "\n", and joining them with "\n" gives that text back |
| Text.UnixLineBreaksOfUnixText | src/main/kotlin/outputmaptofilewriters/MapToXmlFileWriting.kt:56 | text whose breaks are all "\n" is its own break-normalised form |
| Text.LinesWithoutCarriageReturn | src/main/kotlin/outputmaptofilewriters/MapToXmlFileWriting.kt:138 | on text without '\r', lines() is split at '\n' |
| Text.TrimStart | src/main/kotlin/outputmaptofilewriters/MapToXmlFileWriting.kt:152 | the result is a suffix; exactly the leading whitespace run is dropped |
| Text.TrimEnd | src/main/kotlin/outputmaptofilewriters/MapToXmlFileWriting.kt:152 | the result is a prefix; exactly the trailing whitespace run is dropped |
| Text.RegexSpaceIsKotlinWhitespace | src/main/kotlin/outputmaptofilewriters/MapToXmlFileWriting.kt:137-152 | every `\s` character is whitespace for trim() |
| RegexPatterns.WhiteSpaceOnlyMatchesRegex | src/main/kotlin/utility/RegexPatterns.kt:8-11 | the whitespace-only test agrees both ways with a search for `^\s*$`, where Java's `$` also allows one final line terminator |
| RegexPatterns.KeyValueMatch | src/main/kotlin/utility/RegexPatterns.kt:13-26 | with DOTALL, a match exists exactly when the quote layout allows one, and the spans found are the componentwise greatest admissible ones |
| RegexPatterns.KeyValueMatchIsFirstTried | src/main/kotlin/utility/RegexPatterns.kt:13-26 | of all admissible matches, the one reported is the first that greedy backtracking tries |
| RegexPatterns.KeyValueMatchIsChain | src/main/kotlin/utility/RegexPatterns.kt:13-26 | the match is characterised both ways by five backward searches for the quotes and the '=' |
| RegexPatterns.KeyValue | src/main/kotlin/utility/RegexPatterns.kt:13-26 | groups 1 and 2 exist exactly when some admissible match exists |
| RegexPatterns.KeyValueOfStatement | src/main/kotlin/utility/RegexPatterns.kt:13-26 | `lead"name" = "content"tail` with no '"' in name, content and tail yields name and content |
| RegexPatterns.KeyValueExample | src/main/kotlin/utility/RegexPatterns.kt:14-21 | the documented example yields `some content` and `myContent` |
| RegexPatterns.LastIndexBefore | src/main/kotlin/utility/RegexPatterns.kt:26 | the last index below a bound holding a character, or none when there is none |
| RegexPatterns.FirstLineTerminator | src/main/kotlin/utility/RegexPatterns.kt:34 | the furthest point `.` without DOTALL reaches: no line terminator before it, and one at it unless it is the end |
| RegexPatterns.LastSlashPrefix | src/main/kotlin/utility/RegexPatterns.kt:28-34 | a prefix is found exactly when `^.*/` can match; it ends with a '/' and is the longest such match |
| RegexPatterns.LastSlashOfDirectory | src/main/kotlin/utility/RegexPatterns.kt:29-33 | for a path made of a directory ending in `/` and a file name without `/`, the match is exactly the directory |
| RegexPatterns.LastSlashExample | src/main/kotlin/utility/RegexPatterns.kt:29-33 | the documented example `/this/path/is/mine.yaml` gives `/this/path/is/` |
| RegexPatterns.FindVersionKey | src/main/kotlin/utility/RegexPatterns.kt:41-44 | the first occurrence of `mainVersion="` at or after a position, or none |
| RegexPatterns.VersionNumber | src/main/kotlin/XDSTranslator.kt:267-271 | a version exists exactly when the pattern matches; it is the group of the leftmost match, which under DOTALL runs to the last '"' |
| DotStringsMapCreator.PieceChunks | src/main/kotlin/inputmapcreators/DotStringsMapCreator.kt:46-50 | each piece of a content section is kept in order, and it is a statement exactly when it is not whitespace only |
| DotStringsMapCreator.StatementsAreStatementChunks | src/main/kotlin/inputmapcreators/DotStringsMapCreator.kt:38-52 | the statements read are exactly the texts of the statement pieces |
| DotStringsMapCreator.StatementsAreNonBlankPieces | src/main/kotlin/inputmapcreators/DotStringsMapCreator.kt:38-52 | every statement is non-blank and holds no ';' |
| DotStringsMapCreator.CommentSectionHasNoStatement | src/main/kotlin/inputmapcreators/DotStringsMapCreator.kt:39 | a comment section yields no entry, whatever it contains |
| DotStringsMapCreator.ContentSectionPieces | src/main/kotlin/inputmapcreators/DotStringsMapCreator.kt:46-50 | a content section's pieces join back to it with ';', with empty pieces kept |
| DotStringsMapCreator.EntryOf | src/main/kotlin/inputmapcreators/DotStringsMapCreator.kt:64-72 | an entry exists exactly when the key/value pattern matches; it holds groups 1 and 2, and otherwise the result is the FORMAT ERROR with its message |
| DotStringsMapCreator.EntriesOf | src/main/kotlin/inputmapcreators/DotStringsMapCreator.kt:37-53 | the read succeeds exactly when every statement has an entry; it gives one entry per statement in order, duplicates kept |
| DotStringsMapCreator.EntriesOfFirstError | src/main/kotlin/inputmapcreators/DotStringsMapCreator.kt:37-53 | a failed read reports the error of the first statement that fails |
| DotStringsMapCreator.CreateDotStringsMap | src/main/kotlin/inputmapcreators/DotStringsMapCreator.kt:23-54 | a missing file or a name without `.strings` is FILE NOT FOUND; otherwise the result is the mapping read from its text |
| Entries.FirstIndexOfName | src/main/kotlin/outputmaptofilewriters/MapToDotStringsFileWriting.kt:119-121 | the first index holding the name, or none when no entry has it |
| Entries.FindByName | src/main/kotlin/outputmaptofilewriters/MapToDotStringsFileWriting.kt:119-121 | `find`: an entry exactly when one has the name, and then the first |
| Entries.FindByNameIsFirstOfName | src/main/kotlin/outputmaptofilewriters/MapToDotStringsFileWriting.kt:119-121 | the entry found for a name is the first of the entries with that name |
| Entries.RemoveFirstNamed | src/main/kotlin/outputmaptofilewriters/MapToDotStringsFileWriting.kt:122 | `remove(find …)`: only the first entry with the name is removed, and the rest keep their order |
| Entries.OfNameAfterRemoveFirst | src/main/kotlin/outputmaptofilewriters/MapToDotStringsFileWriting.kt:119-122 | removing the first entry called n drops the head of n's entries and leaves other names' entries alone |
| MapMerge.MergePair | src/main/kotlin/utility/MapMerge.kt:37-52 | the top mapping comes first, unchanged, and the bottom's survivors follow |
| MapMerge.MergePairOfName | src/main/kotlin/utility/MapMerge.kt:37-52 | for every name, the merge holds the top's entries, then the bottom's entries beyond as many as the top has |
| MapMerge.MergePairHasName | src/main/kotlin/utility/MapMerge.kt:37-52 | the merge has a name exactly when the top or the bottom has it |
| MapMerge.MergePairKeepsBottomOrder | src/main/kotlin/utility/MapMerge.kt:48-50 | the surviving bottom entries keep their relative order |
| MapMerge.MergePairDisjoint | src/main/kotlin/utility/MapMerge.kt:37-52 | mappings without a common name merge to their concatenation |
| MapMerge.MergePairUnique | src/main/kotlin/utility/MapMerge.kt:37-52 | for mappings unique by name, the merge is the top, then the bottom entries whose names the top lacks, and is unique by name |
| MapMerge.MergePairFind | src/main/kotlin/utility/MapMerge.kt:37-52 | for mappings unique by name, a name's entry comes from the top when the top has it, else from the bottom |
| MapMerge.MergeMappings | src/main/kotlin/utility/MapMerge.kt:18-24 | no mappings merge to the empty mapping, and one mapping merges to itself |
| MapMerge.MergeMappingsHasName | src/main/kotlin/utility/MapMerge.kt:18-24 | the merge has a name exactly when some input mapping has it |
| MapMerge.MergeMappingsUnique | src/main/kotlin/utility/MapMerge.kt:18-24 | mappings each unique by name merge to one unique by name |
| MapMerge.MergeMappingsFirstWins | src/main/kotlin/utility/MapMerge.kt:10-16 | first come, first served: a name's merged entry is the one of the earliest mapping that has it |
| MapMerge.MergeTwoDisjoint | src/main/kotlin/utility/MapMerge.kt:18-24 | two sources without a common name merge to their concatenation |
| Entries.RemoveEachOfName | src/main/kotlin/utility/MapMerge.kt:40-47 | removing the first remaining entry per top name drops the first k entries of each name, where k counts that name among the top names |
| MapToDotStringsFileWriting.ReplaceRangeParts | src/main/kotlin/outputmaptofilewriters/MapToDotStringsFileWriting.kt:128-135 | replaceRange keeps the text before and after the range and puts the new text between |
| MapToDotStringsFileWriting.KeyThenValueReplaced | src/main/kotlin/outputmaptofilewriters/MapToDotStringsFileWriting.kt:125-136 | replacing the key span by the equal entry name is the identity, so the offset is 0 and only the value span changes |
| MapToDotStringsFileWriting.ManipulateSectionContent | src/main/kotlin/outputmaptofilewriters/MapToDotStringsFileWriting.kt:99-138 | MATCHING ERROR exactly when the pattern fails; otherwise the key is group 1, the first entry of that name is consumed, and only the value span is replaced by its content |
| MapToDotStringsFileWriting.ValueReplacedReadsBack | src/main/kotlin/outputmaptofilewriters/MapToDotStringsFileWriting.kt:125-136 | a replaced value without '"' reads back as the new value under the same key |
| MapToDotStringsFileWriting.ManipulatedStatementReadsBack | src/main/kotlin/outputmaptofilewriters/MapToDotStringsFileWriting.kt:99-138 | the manipulated statement reads back with its key and the content written into it |
| MapToDotStringsFileWriting.ManipulateWithOwnValue | src/main/kotlin/outputmaptofilewriters/MapToDotStringsFileWriting.kt:125-136 | writing a statement's own value back leaves it unchanged |
| MapToDotStringsFileWriting.RewriteChunks | src/main/kotlin/outputmaptofilewriters/MapToDotStringsFileWriting.kt:50-68 | the section walk fails only with a MATCHING ERROR |
| MapToDotStringsFileWriting.ManipulateIsFirstPatch | src/main/kotlin/outputmaptofilewriters/MapToDotStringsFileWriting.kt:99-138 | manipulateSectionContent reports the statement's key and patches it with the first entry of that name |
| MapToDotStringsFileWriting.PatchAfterRemoveEach | src/main/kotlin/outputmaptofilewriters/MapToDotStringsFileWriting.kt:119-122 | patching with what the earlier statements left of the mapping is patching with the entry of the statement's rank among the statements with its key |
| MapToDotStringsFileWriting.RewriteTextFrom | src/main/kotlin/outputmaptofilewriters/MapToDotStringsFileWriting.kt:50-68 | after statements with given keys, the rest of the walk emits each verbatim piece as it is and each statement patched by its rank, followed by ';' |
| MapToDotStringsFileWriting.RewriteText | src/main/kotlin/outputmaptofilewriters/MapToDotStringsFileWriting.kt:50-68 | the rewritten text is every verbatim piece as it is and the n-th statement with a key patched with the n-th entry of that name, when there is one, each followed by ';' |
| MapToDotStringsFileWriting.RewriteLeavesUnconsumed | src/main/kotlin/outputmaptofilewriters/MapToDotStringsFileWriting.kt:50-68 | the working mapping afterwards is the mapping with the first remaining entry of each statement key removed in turn, and the matched keys are those that found an entry |
| MapToDotStringsFileWriting.PatchStatementReadsBack | src/main/kotlin/outputmaptofilewriters/MapToDotStringsFileWriting.kt:125-136 | a patched statement reads back under its key, with the entry's content when there is one and its own content otherwise |
| MapToDotStringsFileWriting.RewriteAgreesWithRead | src/main/kotlin/outputmaptofilewriters/MapToDotStringsFileWriting.kt:50-68 | the rewrite succeeds exactly when the reader succeeds, and the keys it reports are the names the reader reads |
| MapToDotStringsFileWriting.RewriteConsumesFirstEntries | src/main/kotlin/outputmaptofilewriters/MapToDotStringsFileWriting.kt:50-68 | for every name, the entries left are that name's entries minus the first k, where k counts the statements with that key; the number of matches is k, capped by the entries available |
| MapToDotStringsFileWriting.RewriteWithOwnEntries | src/main/kotlin/outputmaptofilewriters/MapToDotStringsFileWriting.kt:50-68 | rewriting with the entries read from the same chunks changes no text, consumes the whole mapping and matches every key |
| MapToDotStringsFileWriting.RenderTerminatedSections | src/main/kotlin/outputmaptofilewriters/MapToDotStringsFileWriting.kt:50-68 | when every content section has a blank last piece and no other blank piece, re-adding ';' after each statement rebuilds the sections exactly |
| MapToDotStringsFileWriting.WriteDotStringsText | src/main/kotlin/outputmaptofilewriters/MapToDotStringsFileWriting.kt:45-77 | the write succeeds exactly when the file reads; the text is the patched sections followed, with addNewEntries, by one `"name" = "content";` line per unconsumed entry; debug list 0 is the keys read plus the appended names and list 1 the matched keys plus the appended names |
| MapToDotStringsFileWriting.WriteWithOwnMappingIsIdentity | src/main/kotlin/outputmaptofilewriters/MapToDotStringsFileWriting.kt:41-84 | with the scan keeping the whole text, every content section ';'-terminated, and any addNewEntries, writing a file's own mapping back reproduces the text byte for byte; every key is reported both read and moved |
| MapToDotStringsFileWriting.ReadAppendedEntries | src/main/kotlin/outputmaptofilewriters/MapToDotStringsFileWriting.kt:71-77 | the appended block reads back as exactly the appended entries when they hold no '"', ';' or '/' |
| MapToDotStringsFileWriting.WriteMappingToDotStringsFile | src/main/kotlin/outputmaptofilewriters/MapToDotStringsFileWriting.kt:28-84 | missing file or wrong suffix is FILE NOT FOUND; the write succeeds exactly when the file reads; only the target file changes, and it gets the text and debug lists of the write |
| MapToDotStringsFileWriting.WriteSameTextLeavesFiles | src/main/kotlin/outputmaptofilewriters/MapToDotStringsFileWriting.kt:80 | writing back the file's own text leaves the file system as it was |
| MapToXmlFileWriting.UpdateElements | src/main/kotlin/outputmaptofilewriters/MapToXmlFileWriting.kt:61-73 | every element keeps its name; one with an entry takes the content of the first entry of its name, and the others stay |
| MapToXmlFileWriting.FoundEntries | src/main/kotlin/outputmaptofilewriters/MapToXmlFileWriting.kt:62-72 | the found entries come from the mapping, and a name is found exactly when the mapping and some element both have it |
| MapToXmlFileWriting.MatchedNames | src/main/kotlin/outputmaptofilewriters/MapToXmlFileWriting.kt:69 | a name is reported as changed exactly when the mapping and some element both have it |
| MapToXmlFileWriting.NewEntries | src/main/kotlin/outputmaptofilewriters/MapToXmlFileWriting.kt:76-84 | an entry is appended exactly when no found entry carries its name |
| MapToXmlFileWriting.NewEntriesConcat | src/main/kotlin/outputmaptofilewriters/MapToXmlFileWriting.kt:76-84 | the appended entries keep mapping order: the entries of a split mapping are appended part by part |
| MapToXmlFileWriting.NewEntriesOfOne | src/main/kotlin/outputmaptofilewriters/MapToXmlFileWriting.kt:76-84 | a single entry is appended once exactly when no found entry carries its name, and not at all otherwise |
| MapToXmlFileWriting.NewEntriesAreUnmatched | src/main/kotlin/outputmaptofilewriters/MapToXmlFileWriting.kt:76-84 | an entry is appended exactly when no element carries its name |
| MapToXmlFileWriting.WriteMappingToElements | src/main/kotlin/outputmaptofilewriters/MapToXmlFileWriting.kt:61-84 | the updated elements come first; without addNewEntries nothing is appended and the debug lists are the element names and the matched names; with it, one element per new entry follows in mapping order and both debug lists end with the new entries' names |
| MapToXmlFileWriting.WrittenElementsKeepNames | src/main/kotlin/outputmaptofilewriters/MapToXmlFileWriting.kt:61-84 | no element is removed or renamed, and the existing elements keep their order |
| MapToXmlFileWriting.WrittenNames | src/main/kotlin/outputmaptofilewriters/MapToXmlFileWriting.kt:76-84 | with addNewEntries, the names afterwards are the old names, then those of the appended entries |
| MapToXmlFileWriting.WrittenElementsCoverMapping | src/main/kotlin/outputmaptofilewriters/MapToXmlFileWriting.kt:76-84 | with addNewEntries, every entry's name is an element's name afterwards |
| MapToXmlFileWriting.WrittenElementsAgree | src/main/kotlin/outputmaptofilewriters/MapToXmlFileWriting.kt:61-84 | with names unique in the mapping, every element whose name has an entry carries that entry's content afterwards |
| MapToXmlFileWriting.WriteTwiceIsWriteOnce | src/main/kotlin/outputmaptofilewriters/MapToXmlFileWriting.kt:61-84 | writing the same mapping a second time changes nothing more |
| MapToXmlFileWriting.NothingNewWhenCovered | src/main/kotlin/outputmaptofilewriters/MapToXmlFileWriting.kt:76-84 | nothing is appended when every entry's name is already an element's name |
| MapToXmlFileWriting.BlankLineTrimsToEmpty | src/main/kotlin/outputmaptofilewriters/MapToXmlFileWriting.kt:137-152 | every line the blank-line filter drops is one that trim() empties |
| MapToXmlFileWriting.NonBlankLinesMembers | src/main/kotlin/outputmaptofilewriters/MapToXmlFileWriting.kt:137-142 | the lines kept are exactly those with a non-`\s` character |
| MapToXmlFileWriting.KeptLinesReadBack | src/main/kotlin/outputmaptofilewriters/MapToXmlFileWriting.kt:137-142 | read back line by line, the cleaned text is its non-blank lines, then one empty rest |
| MapToXmlFileWriting.KeepNonBlankLinesIdempotent | src/main/kotlin/outputmaptofilewriters/MapToXmlFileWriting.kt:137-142 | dropping blank lines a second time changes nothing |
| MapToXmlFileWriting.StandaloneMatchEnd | src/main/kotlin/outputmaptofilewriters/MapToXmlFileWriting.kt:22 | the greedy end of a `\sstandalone=".*"` match at a position within its line, or none when there is no match there |
| MapToXmlFileWriting.FirstStandalone | src/main/kotlin/outputmaptofilewriters/MapToXmlFileWriting.kt:22 | the leftmost position where the standalone pattern matches, or none |
| MapToXmlFileWriting.ContainsStandaloneHintIffMatch | src/main/kotlin/outputmaptofilewriters/MapToXmlFileWriting.kt:56 | containsMatchIn holds exactly when the pattern matches somewhere |
| MapToXmlFileWriting.RemoveStandaloneHints | src/main/kotlin/outputmaptofilewriters/MapToXmlFileWriting.kt:145-149 | without a match the text stays; with one it gets shorter by at least a whole hint |
| MapToXmlFileWriting.XmlFileCleanup | src/main/kotlin/outputmaptofilewriters/MapToXmlFileWriting.kt:133-153 | the result neither starts nor ends with whitespace; without a hint, or without deletion, it is the trimmed non-blank lines |
| MapToXmlFileWriting.WriteMappingToXmlFile | src/main/kotlin/outputmaptofilewriters/MapToXmlFileWriting.kt:36-99 | FILE NOT FOUND exactly when the file is missing or lacks `.xml`; only the target changes, and the debug lists are those of the element update |
| MapToXmlFileWriting.WrittenXmlStandalone | src/main/kotlin/outputmaptofilewriters/MapToXmlFileWriting.kt:52-98 | the target becomes the cleaned serialisation of the updated elements; when the original first line has a standalone hint every hint is kept, otherwise any hint in the serialisation is removed before the trim |
| StateObserver.Reset | src/main/kotlin/utility/StateObserver.kt:25-28 | after reset no path has moved or unmoved ids |
| StateObserver.AddUnMovedData | src/main/kotlin/utility/StateObserver.kt:37-43 | the id joins its path's unmoved set, which is created when missing; nothing else changes |
| StateObserver.AddUnMovedDataIdempotent | src/main/kotlin/utility/StateObserver.kt:37-43 | adding the same id twice is adding it once |
| StateObserver.MoveData | src/main/kotlin/utility/StateObserver.kt:54-71 | OBSERVATION ERROR, with the source's two messages, exactly when the path or id is not unmoved; otherwise the id moves from unmoved to moved for that path only |
| StateObserver.MoveDataKeepsTracked | src/main/kotlin/utility/StateObserver.kt:54-71 | a move loses and invents no id, and keeps moved and unmoved apart |
| StateObserver.MoveDataTwiceFails | src/main/kotlin/utility/StateObserver.kt:57-62 | an id just moved cannot be moved again |
| StateObserver.AddThenMove | src/main/kotlin/utility/StateObserver.kt:37-71 | adding an id and then moving it succeeds and leaves it moved and not unmoved |
| ConfigBuilder.ResolveRootPath | src/main/kotlin/configbuilder/ConfigBuilder.kt:43-49 | an absolute rootPath stays; a relative one gets the longest last-slash prefix of the config path, or stays when there is none |
| ConfigBuilder.ResolvedRootPathIsAbsolute | src/main/kotlin/configbuilder/ConfigBuilder.kt:43-49 | with a config at an absolute path, the resolved rootPath is absolute |
| ConfigBuilder.ResolveRootPathIdempotent | src/main/kotlin/configbuilder/ConfigBuilder.kt:43-49 | resolving twice is resolving once |
| ConfigBuilder.RelativeRootPathInConfigDirectory | src/main/kotlin/configbuilder/ConfigBuilder.kt:43-49 | a relative rootPath is taken relative to the config file's directory |
| ConfigBuilder.ReadConfig | src/main/kotlin/configbuilder/ConfigBuilder.kt:24-51 | FILE NOT FOUND with its message exactly when there is no config; otherwise its translations, with the rootPath resolved |
| XdsTranslator.ArgumentOf | src/main/kotlin/XDSTranslator.kt:35-37 | an argument is found exactly when some declared command equals the string, and it is one with that command |
| XdsTranslator.ArgumentOfCommand | src/main/kotlin/XDSTranslator.kt:171-253 | every declared argument is found by its own command |
| XdsTranslator.ExtraRun | src/main/kotlin/XDSTranslator.kt:171-253 | the scan goes on exactly per continueAfter; only `--version` can fail (FORMAT ERROR) or crash (no version file) |
| XdsTranslator.ScanArguments | src/main/kotlin/XDSTranslator.kt:30-56 | no arguments leave the reset run values and go on; a scan never sets the debug message |
| XdsTranslator.ScanArgumentsLoop | src/main/kotlin/XDSTranslator.kt:30-56 | the iterator loop as written computes the functional scan |
| XdsTranslator.ScanFirstArgument | src/main/kotlin/XDSTranslator.kt:35-55 | an unknown argument is ILLEGAL ARGUMENT, `--help` stops, and the two mode flags set their value and go on |
| XdsTranslator.ScanConfigArgument | src/main/kotlin/XDSTranslator.kt:39-41 | `--config` takes the next argument as the config path, and crashes when there is none |
| XdsTranslator.ScanVersionArgument | src/main/kotlin/XDSTranslator.kt:244-272 | `--version` stops when the version is found, fails with FORMAT ERROR when not, and crashes without a version file |
| XdsTranslator.ScanConcat | src/main/kotlin/XDSTranslator.kt:33-56 | arguments are consumed left to right: a prefix that goes on hands its run values to the rest |
| XdsTranslator.UnknownArgumentFails | src/main/kotlin/XDSTranslator.kt:50-55 | an unknown argument after a prefix that goes on fails the scan, whatever follows it |
| XdsTranslator.HelpIgnoresTheRest | src/main/kotlin/XDSTranslator.kt:43-46 | nothing after `--help` is looked at |
| XdsTranslator.ScanFlagsFromArguments | src/main/kotlin/XDSTranslator.kt:213-243 | a mode is on afterwards only if it was on before or its flag occurs, and a mode once on stays on |
| XdsTranslator.ScanConfigFromArguments | src/main/kotlin/XDSTranslator.kt:223-233 | the config path afterwards is the old one or an argument directly after `--config` |
| XdsTranslator.DeclaredArgumentsAreLegal | src/main/kotlin/XDSTranslator.kt:35-55 | with only declared arguments, the only error is the version FORMAT ERROR |
| XdsTranslator.AbsoluteConfigPath | src/main/kotlin/XDSTranslator.kt:65-67 | an absolute config path stays; a relative one is placed under the working directory, keeping its text as a suffix |
| XdsTranslator.AbsoluteConfigPathIsAbsolute | src/main/kotlin/XDSTranslator.kt:65-67 | with an absolute working directory the result is absolute, and prefixing again changes nothing |
| XdsTranslator.SuffixesExclusive | src/main/kotlin/XDSTranslator.kt:82-91 | no name ends in both `.xml` and `.strings`, so the order of the suffix tests does not matter |
| XdsTranslator.ReadSource | src/main/kotlin/XDSTranslator.kt:82-91 | an `.xml` source is read by the XML reader and a `.strings` source by the `.strings` reader, both under the root path; any other suffix is ILLEGAL CONFIG |
| XdsTranslator.ReadSources | src/main/kotlin/XDSTranslator.kt:81-96 | when the read succeeds, it holds one mapping per source, in order |
| XdsTranslator.ReadSourcesFirstError | src/main/kotlin/XDSTranslator.kt:81-96 | a failed read reports the first failing source, and every source before it was read |
| XdsTranslator.ReadSourcesStopsAt | src/main/kotlin/XDSTranslator.kt:81-96 | the first failing source ends the read with its error |
| XdsTranslator.BadSourceFails | src/main/kotlin/XDSTranslator.kt:86-91 | a source with neither suffix after sources that read fails with ILLEGAL CONFIG |
| XdsTranslator.WriteDestination | src/main/kotlin/XDSTranslator.kt:103-112 | an `.xml` destination gets the XML writer's files and a `.strings` one the `.strings` writer's, their errors passed on; only the destination under the root path may change; any other suffix is ILLEGAL CONFIG |
| XdsTranslator.WriteDestinations | src/main/kotlin/XDSTranslator.kt:102-119 | no file is created, and a file that is no destination is left as it was |
| XdsTranslator.WriteDestinationsConcat | src/main/kotlin/XDSTranslator.kt:102-119 | destinations are written in order, each on the files the previous ones left |
| XdsTranslator.WriteDestinationsStep | src/main/kotlin/XDSTranslator.kt:102-119 | the first destination is written with the merged mapping; its error ends the loop on the untouched files, otherwise the rest is written on the files it produced |
| XdsTranslator.WriteOneDestinationOutcome | src/main/kotlin/XDSTranslator.kt:102-119 | a single destination leaves exactly the files its write produced, or its error on the untouched files |
| XdsTranslator.BadSecondDestinationAfterFirstWrite | src/main/kotlin/XDSTranslator.kt:102-112 | a bad second destination is reported on the files the first destination's write produced |
| XdsTranslator.BadDestinationAfterEarlierWrites | src/main/kotlin/XDSTranslator.kt:107-112 | a bad destination ends the run with ILLEGAL CONFIG after the earlier destinations were written |
| XdsTranslator.RunTranslation | src/main/kotlin/XDSTranslator.kt:79-119 | all sources are read and merged before any write; a failed read writes nothing, otherwise every destination gets the one merged mapping |
| XdsTranslator.ReadOneDotStringsSource | src/main/kotlin/XDSTranslator.kt:81-96 | a single `.strings` source reads as its file's mapping |
| XdsTranslator.WriteOwnDotStringsDestination | src/main/kotlin/XDSTranslator.kt:102-119 | writing a ';'-terminated `.strings` file with its own mapping leaves the file system as it was |
| XdsTranslator.SelfTranslationIsIdentity | src/main/kotlin/XDSTranslator.kt:73-127 | translating a ';'-terminated `.strings` file into itself leaves every file as it was |
| XdsTranslator.RunTranslations | src/main/kotlin/XDSTranslator.kt:73-127 | no translations leave the files as they are, no file is created, and the first failing translation ends the run with its outcome |
| XdsTranslator.RunTranslationsStep | src/main/kotlin/XDSTranslator.kt:73-120 | a translation that ends without error hands its files on to the next one |
| XdsTranslator.RunTranslationsConcat | src/main/kotlin/XDSTranslator.kt:73-120 | translations run in order, each on the files the previous ones left |
| XdsTranslator.Translate | src/main/kotlin/XDSTranslator.kt:22-143 | a scan error aborts before any file is touched, an uncaught exception in the scan is the crashed outcome, a scan that stops (`--help`, `--version`) stops with the run values set so far, and a finished run had its config at the resolved path and created no file |
| XdsTranslator.HelpFirstStops | src/main/kotlin/XDSTranslator.kt:58-62 | `--help` first ends the run before the config is read, whatever follows |
| XdsTranslator.TranslateRunsConfig | src/main/kotlin/XDSTranslator.kt:64-120 | with the scan going on and the config found, the run is the config's translations under its root path with the `--addNewEntries` value, finishing with their files or aborting with the first error and the files written so far |
| XdsTranslator.MissingConfigAborts | src/main/kotlin/XDSTranslator.kt:64-68 | with no config at the resolved path the run aborts with FILE NOT FOUND and writes nothing |
| Errors.MapResultOk | src/main/kotlin/XDSTranslator.kt:81-96 | a walk that stops at the first error succeeds exactly when every element succeeds, and then holds their values in order |
| Errors.MapResultFirstError | src/main/kotlin/XDSTranslator.kt:81-96 | a failed walk reports the first failing element's error |

## Left out

- File I/O, the DOM and the YAML parser. The file system is a map from path to text. An XML text's `string` elements, its serialiser and `createXmlMap` are parameters (`XmlCodec`). A config file is given already parsed, by path. `createXmlMap` (XMLInputMapCreator.kt) is not part of this model.
- Under `addNewEntries`, new XML elements go to the end of the element list. This stands for appending them under the first `resources` element, which the model does not represent.
- The greeting, the help text, the messages printed by the flags, `println` of errors and the debug printouts are left out. So are `StateObserver.toString`, `getDebugMessage` and the debug message of a run, which the model never sets.
- `exitProcess` and the effect of `debugMode` on it are left out. A run ends in an outcome value instead.
- The working directory (`user.dir`) is a parameter. The version file's text is an `Option` parameter: absent means the uncaught read failure. Its path is not modelled.
- The observer's bookkeeping is modelled on its own but not wired into the translation run. The entry point calls `addInputData` and `addUnmovedData`, which `StateObserver` does not declare, so that wiring has no defined meaning.
- `DOT_STRINGS_KEY_VALUE_CAPTURE_GROUPS_PATTERN_EXPERIMENTAL` is left out; nothing uses it.
- Paths are joined as strings (`root + "/" + from`); there is no path normalisation. The `.strings` and `.xml` suffix tests of a file name are tested on the whole path, which ends in the same characters.
- `readLines` (used by the XML clean-up) and `lines()` are both modelled by `Text.Lines`.
- RemoveStandaloneHints: states only that a text without a match stays and one with a match shrinks. It does not state that no hint is left, because removing one can join the text around it into a new match.
- RewriteChunks: its own contract states only the error tag. Its text is stated by RewriteText, its remaining mapping and matched keys by RewriteLeavesUnconsumed, and its keys by RewriteAgreesWithRead.
- WriteDotStringsText: reading the written text back is stated per statement (PatchStatementReadsBack) and for the appended block (ReadAppendedEntries), not for the whole file, because a content holding ';' or '"' changes how the written text splits into statements.
- WriteDestinations: its own contract states only which files may change. Each step of the loop (write the first destination, stop on its error, go on with its files) is stated by WriteDestinationsStep, and the loop's composition by WriteDestinationsConcat.
- Uncaught failures outside the argument scan have no outcome of their own: a malformed XML destination (the SAX parse), a `string` element without a `name` attribute or a document without a `resources` element (null dereferences in the XML writer), unparseable YAML or a missing `rootPath` in the config, and a directory whose name ends in `.strings`. Parsing, the DOM and the file system are not modelled, so these cannot arise in the model.
