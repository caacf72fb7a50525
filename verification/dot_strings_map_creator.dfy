/**
 * Reading a `.strings` file into a mapping (createDotStringsMap and
 * getNameContentTupleFrom).
 *
 * Both the reader and the `.strings` writer walk the scanned sections the same
 * way: a comment section is kept as it is, a content section is cut at every
 * ';' and each piece is either blank (whitespace only, kept as it is) or a
 * statement that the key/value pattern must match. `Chunks` is that walk,
 * flattened; the reader keeps only the statements.
 */
module DotStringsMapCreator {
  import opened Sequences
  import opened Errors
  import opened Text
  import opened Entries
  import opened RegexPatterns
  import opened DotStringsFileSplitting

  /** One unit of the walk: text passed through as it is, or a statement to parse. */
  datatype Chunk = Verbatim(text: string) | Statement(text: string)

  /** The pieces of one content section, each classified by the whitespace-only test. */
  function PieceChunks(pieces: seq<string>): (r: seq<Chunk>)
    ensures |r| == |pieces|
    ensures forall i :: 0 <= i < |r| ==> r[i].text == pieces[i]
    ensures forall i :: 0 <= i < |r| ==> (r[i].Statement? <==> !IsWhiteSpaceOnly(pieces[i]))
  {
    if |pieces| == 0 then []
    else [if IsWhiteSpaceOnly(pieces[0]) then Verbatim(pieces[0]) else Statement(pieces[0])] + PieceChunks(pieces[1..])
  }

  function SectionChunks(sec: DotStringsSection): seq<Chunk> {
    if sec.isComment then [Verbatim(sec.content)] else PieceChunks(Split(sec.content, ';'))
  }

  /** The concatenation of f over xs, in order. */
  function FlatMap<A, B>(f: A -> seq<B>, xs: seq<A>): seq<B> {
    if |xs| == 0 then [] else f(xs[0]) + FlatMap(f, xs[1..])
  }

  lemma {:induction false} FlatMapConcat<A, B>(f: A -> seq<B>, a: seq<A>, b: seq<A>)
    ensures FlatMap(f, a + b) == FlatMap(f, a) + FlatMap(f, b)
    decreases |a|
  {
    if |a| == 0 {
      assert a + b == b;
    } else {
      FlatMapConcat(f, a[1..], b);
      TailOfConcat(a, b);
    }
  }

  /** The walk over all sections, in file order. */
  function Chunks(sections: seq<DotStringsSection>): seq<Chunk> {
    FlatMap(SectionChunks, sections)
  }

  /** The texts of the statements among the chunks, in order. */
  function Statements(chunks: seq<Chunk>): (r: seq<string>)
    ensures |r| <= |chunks|
  {
    if |chunks| == 0 then []
    else if chunks[0].Statement? then [chunks[0].text] + Statements(chunks[1..])
    else Statements(chunks[1..])
  }

  /** The statements are exactly the texts of the Statement chunks. */
  lemma {:induction false} StatementsAreStatementChunks(chunks: seq<Chunk>)
    ensures forall s :: s in Statements(chunks) <==> Statement(s) in chunks
    decreases |chunks|
  {
    if |chunks| > 0 {
      StatementsAreStatementChunks(chunks[1..]);
      assert chunks == [chunks[0]] + chunks[1..];
    }
  }

  lemma ChunksConcat(a: seq<DotStringsSection>, b: seq<DotStringsSection>)
    ensures Chunks(a + b) == Chunks(a) + Chunks(b)
  {
    FlatMapConcat(SectionChunks, a, b);
  }

  lemma {:induction false} StatementsConcat(a: seq<Chunk>, b: seq<Chunk>)
    ensures Statements(a + b) == Statements(a) + Statements(b)
    decreases |a|
  {
    if |a| == 0 {
      assert a + b == b;
    } else {
      StatementsConcat(a[1..], b);
      TailOfConcat(a, b);
    }
  }

  /** Every statement is a non-blank piece of a content section, so it holds no ';'. */
  lemma {:induction false} StatementsAreNonBlankPieces(sections: seq<DotStringsSection>)
    ensures forall c :: c in Chunks(sections) && c.Statement? ==> !IsWhiteSpaceOnly(c.text) && ';' !in c.text
    decreases |sections|
  {
    if |sections| > 0 {
      StatementsAreNonBlankPieces(sections[1..]);
      var pieces := Split(sections[0].content, ';');
      assert forall c :: c in PieceChunks(pieces) ==> exists i :: 0 <= i < |pieces| && c.text == pieces[i];
    }
  }

  /** A comment section is passed through whole and holds no statement, whatever it contains. */
  lemma CommentSectionHasNoStatement(sec: DotStringsSection)
    requires sec.isComment
    ensures SectionChunks(sec) == [Verbatim(sec.content)]
    ensures Statements(SectionChunks(sec)) == []
  {
  }

  /**
   * A content section is cut at every ';' with empty pieces kept: its chunks,
   * glued back with ';', are its text, and there is one more chunk than ';'.
   */
  lemma ContentSectionPieces(sec: DotStringsSection)
    requires !sec.isComment
    ensures var texts := seq(|SectionChunks(sec)|, i requires 0 <= i < |SectionChunks(sec)| => SectionChunks(sec)[i].text);
            && Join(texts, ';') == sec.content
            && (forall i :: 0 <= i < |texts| ==> ';' !in texts[i])
  {
    var pieces := Split(sec.content, ';');
    var texts := seq(|SectionChunks(sec)|, i requires 0 <= i < |SectionChunks(sec)| => SectionChunks(sec)[i].text);
    assert texts == pieces;
  }

  /** getNameContentTupleFrom: group 1 and group 2 of the key/value pattern, or a format error. */
  function EntryOf(statement: string): (r: Result<NameContentTuple>)
    ensures r.Ok? <==> exists t :: Admissible(statement, t)
    ensures r.Ok? ==> var t := KeyValueMatch(statement).value;
                      r.value == NameContentTuple(statement[t.p..t.e], statement[t.q..t.e2])
    ensures r.Err? ==> r.error == Error(FormatError, "Tried to extract name from:\n\t" + statement)
  {
    match KeyValue(statement)
    case None => Err(Error(FormatError, "Tried to extract name from:\n\t" + statement))
    case Some(tuple) => Ok(tuple)
  }

  /**
   * One entry per statement, in order, duplicates kept; the first statement
   * the pattern does not match aborts the read with its format error.
   */
  function EntriesOf(statements: seq<string>): (r: Result<Mapping>)
    ensures r.Ok? <==> forall i :: 0 <= i < |statements| ==> EntryOf(statements[i]).Ok?
    ensures r.Ok? ==> |r.value| == |statements|
    ensures r.Ok? ==> forall i :: 0 <= i < |statements| ==> r.value[i] == EntryOf(statements[i]).value
  {
    MapResultOk(EntryOf, statements);
    MapResult(EntryOf, statements)
  }

  /** A failed read reports the format error of the first statement the pattern does not match. */
  lemma EntriesOfFirstError(statements: seq<string>)
    requires EntriesOf(statements).Err?
    ensures exists i :: && 0 <= i < |statements| && EntryOf(statements[i]).Err?
                        && EntriesOf(statements).error == EntryOf(statements[i]).error
                        && forall j :: 0 <= j < i ==> EntryOf(statements[j]).Ok?
  {
    var i := MapResultFirstError(EntryOf, statements);
    assert EntryOf(statements[i]).Err?;
  }

  /** The mapping of a `.strings` text: the entries of the statements of its content sections. */
  function ReadDotStrings(text: string): Result<Mapping> {
    EntriesOf(Statements(Chunks(Scan(text))))
  }

  /**
   * createDotStringsMap on a file system given as a map from path to text: a
   * missing file or a name without the `.strings` suffix is FILE NOT FOUND.
   */
  function CreateDotStringsMap(path: string, files: map<string, string>): (r: Result<Mapping>)
    ensures (path !in files || !EndsWith(path, ".strings")) ==>
              r == Err(Error(FileNotFound, "Could not find .strings file under:\t\n" + path))
    ensures path in files && EndsWith(path, ".strings") ==> r == ReadDotStrings(files[path])
  {
    if path !in files || !EndsWith(path, ".strings") then
      Err(Error(FileNotFound, "Could not find .strings file under:\t\n" + path))
    else
      ReadDotStrings(files[path])
  }
}
