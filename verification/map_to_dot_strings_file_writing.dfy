/**
 * Rewriting a `.strings` file with a mapping (writeMappingToDotStringsFile and
 * manipulateSectionContent).
 *
 * The writer walks the same chunks as the reader. Comment sections and blank
 * pieces are copied; every statement gets its value span replaced by the
 * content of the first remaining entry with the statement's key (that entry
 * is then consumed) and is closed with one ';'. Leftover entries can be
 * appended at the end. Two name lists are returned for debugging: every key
 * seen, and every key that was matched (appended names go into both).
 */
module MapToDotStringsFileWriting {
  import opened Sequences
  import opened Errors
  import opened Text
  import opened Entries
  import opened RegexPatterns
  import opened DotStringsFileSplitting
  import opened DotStringsMapCreator

  /** Kotlin `s.replaceRange(from, to, x)`. */
  function ReplaceRange(s: string, from: nat, to: nat, x: string): (r: string)
    requires from <= to <= |s|
    ensures |r| == |s| - (to - from) + |x|
  {
    s[..from] + x + s[to..]
  }

  /** The text before `from` and after `to` stays, and x sits in between. */
  lemma ReplaceRangeParts(s: string, from: nat, to: nat, x: string)
    requires from <= to <= |s|
    ensures var r := ReplaceRange(s, from, to, x);
            r[..from] == s[..from] && r[from..from + |x|] == x && r[from + |x|..] == s[to..]
  {
  }

  /** What manipulateSectionContent returns, plus its effects on the working mapping and on the debug lists. */
  datatype Manipulated = Manipulated(text: string, key: string, remaining: Mapping, matched: Option<string>)

  /**
   * manipulateSectionContent: the statement's key is looked up in the working
   * mapping; the first entry with that name (if any) is removed from it, the
   * key span is replaced by the entry's name (the same text, so the offset is
   * 0) and the value span by the entry's content. A statement the key/value
   * pattern does not match is a MATCHING ERROR.
   */
  function ManipulateSectionContent(content: string, mapping: Mapping): (r: Result<Manipulated>)
    ensures r.Err? <==> KeyValueMatch(content).None?
    ensures r.Err? ==> r.error == Error(MatchingError, "matching failed for key-value pair in:\t\n" + content)
    ensures r.Ok? ==> var t := KeyValueMatch(content).value; r.value.key == content[t.p..t.e]
    ensures r.Ok? ==> r.value.remaining == RemoveFirstNamed(mapping, r.value.key)
    ensures r.Ok? ==> (r.value.matched.Some? <==> HasName(mapping, r.value.key))
    ensures r.Ok? && r.value.matched.Some? ==> r.value.matched.value == r.value.key
    ensures r.Ok? && r.value.matched.None? ==> r.value.text == content
    ensures r.Ok? && r.value.matched.Some? ==>
              var t := KeyValueMatch(content).value;
              r.value.text == content[..t.q] + FindByName(mapping, r.value.key).value.content + content[t.e2..]
  {
    match KeyValueMatch(content)
    case None => Err(Error(MatchingError, "matching failed for key-value pair in:\t\n" + content))
    case Some(t) => Ok(ManipulateAt(content, t, mapping))
  }

  /** manipulateSectionContent once the pattern has matched with spans t. */
  function ManipulateAt(content: string, t: KeyValueSpans, mapping: Mapping): (r: Manipulated)
    requires t.p <= t.e <= t.q <= t.e2 <= |content|
    ensures r.key == content[t.p..t.e]
    ensures r.remaining == RemoveFirstNamed(mapping, r.key)
    ensures r.matched.Some? <==> HasName(mapping, r.key)
    ensures r.matched.Some? ==> r.matched.value == r.key
    ensures r.matched.None? ==> r.text == content
    ensures r.matched.Some? ==> r.text == content[..t.q] + FindByName(mapping, r.key).value.content + content[t.e2..]
  {
    var key := content[t.p..t.e];
    match FindByName(mapping, key)
    case None => Manipulated(content, key, RemoveFirstNamed(mapping, key), None)
    case Some(tuple) =>
      assert tuple.name == key;
      var afterKey := ReplaceRange(content, t.p, t.e, tuple.name);
      var offset := (t.e - 1) - t.p - |tuple.name| + 1;
      KeyThenValueReplaced(content, t.p, t.e, t.q, t.e2, tuple.content);
      assert afterKey == content && offset == 0;
      var text := ReplaceRange(afterKey, t.q + offset, t.e2 + offset, tuple.content);
      assert text == content[..t.q] + tuple.content + content[t.e2..];
      Manipulated(text, key, RemoveFirstNamed(mapping, key), Some(tuple.name))
  }

  /** Replacing the key span by itself changes nothing, so the value span keeps its place. */
  lemma KeyThenValueReplaced(s: string, p: nat, e: nat, q: nat, e2: nat, v: string)
    requires p <= e <= q <= e2 <= |s|
    ensures ReplaceRange(s, p, e, s[p..e]) == s
    ensures ReplaceRange(s, q, e2, v) == s[..q] + v + s[e2..]
  {
    assert s[..p] + s[p..e] + s[e..] == s;
  }

  /** The prefix before the value span decides the match; a changed value without '"' is read back as it was written. */
  lemma LastIndexSamePrefix(s: string, s': string, c: char, bound: nat, pre: nat)
    requires bound <= pre <= |s| && pre <= |s'| && s[..pre] == s'[..pre]
    ensures LastIndexBefore(s, c, bound) == LastIndexBefore(s', c, bound)
    decreases bound
  {
    if bound > 0 {
      assert s[bound - 1] == s[..pre][bound - 1];
      assert s'[bound - 1] == s'[..pre][bound - 1];
      LastIndexSamePrefix(s, s', c, bound - 1, pre);
    }
  }

  /**
   * Replacing the value span of a matched statement by a '"'-free text keeps
   * the four searches before it and moves only the closing quote.
   */
  lemma ChainAfterValueChange(s: string, s': string, t: KeyValueSpans, close: nat)
    requires MatchChain(s, t)
    requires t.q <= close < |s'| && t.q <= |s| && s'[..t.q] == s[..t.q] && s'[close] == '"'
    requires forall i :: t.q <= i < |s'| && i != close ==> s'[i] != '"'
    ensures MatchChain(s', KeyValueSpans(t.p, t.e, t.k, t.q, close))
  {
    LastIndexIs(s', '"', |s'|, close);
    LastIndexIs(s', '"', close, t.q - 1);
    LastIndexSamePrefix(s, s', '=', t.q - 1, t.q);
    LastIndexSamePrefix(s, s', '"', t.k, t.q);
    LastIndexSamePrefix(s, s', '"', t.e, t.q);
  }

  /** A matched statement whose value span is replaced by a '"'-free text reads back with that text as its value. */
  lemma ValueReplacedReadsBack(s: string, t: KeyValueSpans, v: string)
    requires KeyValueMatch(s) == Some(t) && '"' !in v
    ensures KeyValue(s[..t.q] + v + s[t.e2..]) == Some(NameContentTuple(s[t.p..t.e], v))
  {
    var s' := s[..t.q] + v + s[t.e2..];
    var close := t.q + |v|;
    assert s'[..t.q] == s[..t.q];
    assert s'[close] == '"';
    forall i | t.q <= i < |s'| && i != close
      ensures s'[i] != '"'
    {
      if i < close {
        assert s'[i] == v[i - t.q];
      } else {
        assert s'[i] == s[t.e2 + (i - close)];
      }
    }
    KeyValueMatchIsChain(s, t);
    var u := KeyValueSpans(t.p, t.e, t.k, t.q, close);
    ChainAfterValueChange(s, s', t, close);
    KeyValueMatchIsChain(s', u);
    assert s'[t.q..close] == v;
    SliceWithinPrefix(s', s, t.q, t.p, t.e);
  }

  /**
   * Reading a manipulated statement back gives the statement's key and the
   * content that was written, as long as that content holds no '"'.
   */
  lemma ManipulatedStatementReadsBack(content: string, mapping: Mapping)
    requires ManipulateSectionContent(content, mapping).Ok?
    requires var m := ManipulateSectionContent(content, mapping).value;
             m.matched.Some? ==> '"' !in FindByName(mapping, m.key).value.content
    ensures var m := ManipulateSectionContent(content, mapping).value;
            KeyValue(m.text) == Some(NameContentTuple(m.key,
              if m.matched.Some? then FindByName(mapping, m.key).value.content else KeyValue(content).value.content))
  {
    var m := ManipulateSectionContent(content, mapping).value;
    if m.matched.Some? {
      ValueReplacedReadsBack(content, KeyValueMatch(content).value, FindByName(mapping, m.key).value.content);
    }
  }

  lemma SpliceSame(s: string, a: nat, b: nat)
    requires a <= b <= |s|
    ensures s[..a] + s[a..b] + s[b..] == s
  {
  }

  /** Writing a statement's own value back leaves it exactly as it was. */
  lemma ManipulateWithOwnValue(content: string, mapping: Mapping)
    requires ManipulateSectionContent(content, mapping).Ok?
    requires var m := ManipulateSectionContent(content, mapping).value;
             m.matched.Some? ==> FindByName(mapping, m.key).value.content == KeyValue(content).value.content
    ensures ManipulateSectionContent(content, mapping).value.text == content
  {
    var t := KeyValueMatch(content).value;
    SpliceSame(content, t.q, t.e2);
  }

  /** The state the writer threads through the chunks. */
  datatype Rewrite = Rewrite(text: string, remaining: Mapping, keys: seq<string>, matched: seq<string>)

  /**
   * The section loop of writeMappingToDotStringsFile over the chunks: verbatim
   * text is copied, every statement is manipulated and followed by one ';',
   * and the first statement without a key/value match aborts the write.
   */
  function RewriteChunks(chunks: seq<Chunk>, mapping: Mapping): (r: Result<Rewrite>)
    ensures r.Err? ==> r.error.tag == MatchingError
    decreases |chunks|
  {
    if |chunks| == 0 then Ok(Rewrite("", mapping, [], []))
    else
      match chunks[0]
      case Verbatim(t) =>
        var rest :- RewriteChunks(chunks[1..], mapping);
        Ok(rest.(text := t + rest.text))
      case Statement(t) =>
        var m :- ManipulateSectionContent(t, mapping);
        var rest :- RewriteChunks(chunks[1..], m.remaining);
        Ok(Rewrite(m.text + ";" + rest.text, rest.remaining, [m.key] + rest.keys,
                   (if m.matched.Some? then [m.key] else []) + rest.matched))
  }

  /**
   * The writer fails exactly where the reader fails (a statement without a
   * key/value match; the reader calls it a FORMAT ERROR, the writer a
   * MATCHING ERROR), and the keys it reports are the names the reader reads.
   */
  lemma {:induction false} RewriteAgreesWithRead(chunks: seq<Chunk>, mapping: Mapping)
    ensures RewriteChunks(chunks, mapping).Ok? <==> EntriesOf(Statements(chunks)).Ok?
    ensures RewriteChunks(chunks, mapping).Ok? ==>
              RewriteChunks(chunks, mapping).value.keys == Names(EntriesOf(Statements(chunks)).value)
    decreases |chunks|
  {
    if |chunks| > 0 {
      var rest := chunks[1..];
      match chunks[0]
      case Verbatim(t) =>
        RewriteAgreesWithRead(rest, mapping);
        assert Statements(chunks) == Statements(rest);
      case Statement(t) =>
        var sts := Statements(chunks);
        assert sts == [t] + Statements(rest);
        assert sts[1..] == Statements(rest);
        match ManipulateSectionContent(t, mapping)
        case Err(_) =>
          assert EntryOf(sts[0]).Err?;
        case Ok(m) =>
          RewriteAgreesWithRead(rest, m.remaining);
          if EntriesOf(sts).Ok? {
            var es := EntriesOf(sts).value;
            assert es == [EntryOf(t).value] + EntriesOf(Statements(rest)).value;
            assert Names(es) == [es[0].name] + Names(es[1..]);
          }
    }
  }

  /**
   * How the working mapping is consumed: for every name x, the entries named
   * x that remain are those of the input mapping minus one for each statement
   * keyed x, from the front; one matched name is reported per statement that
   * still found an entry.
   */
  lemma {:induction false} RewriteConsumesFirstEntries(chunks: seq<Chunk>, mapping: Mapping, x: string)
    requires RewriteChunks(chunks, mapping).Ok?
    ensures var r := RewriteChunks(chunks, mapping).value;
            OfName(r.remaining, x) == DropFirst(OfName(mapping, x), Occurrences(r.keys, x))
    ensures var r := RewriteChunks(chunks, mapping).value;
            Occurrences(r.matched, x) ==
              if Occurrences(r.keys, x) <= CountName(mapping, x) then Occurrences(r.keys, x) else CountName(mapping, x)
    decreases |chunks|
  {
    if |chunks| > 0 {
      var rest := chunks[1..];
      match chunks[0]
      case Verbatim(t) =>
        RewriteConsumesFirstEntries(rest, mapping, x);
      case Statement(t) =>
        var m := ManipulateSectionContent(t, mapping).value;
        RewriteConsumesFirstEntries(rest, m.remaining, x);
        var r := RewriteChunks(chunks, mapping).value;
        var rr := RewriteChunks(rest, m.remaining).value;
        assert r.keys == [m.key] + rr.keys;
        var hd: seq<string> := if m.matched.Some? then [m.key] else [];
        assert r.matched == hd + rr.matched;
        OccurrencesConcat(hd, rr.matched, x);
        assert Occurrences(hd, x) == if m.matched.Some? && m.key == x then 1 else 0 by {
          if m.matched.Some? {
            assert hd[1..] == [];
          }
        }
        ConsumeOneStatement(mapping, m.key, x, rr.keys, rr.matched, rr.remaining);
    }
  }

  /** One statement keyed `key` consumes at most one entry of that name, the first, if there is one. */
  lemma ConsumeOneStatement(mapping: Mapping, key: string, x: string, keys: seq<string>, matched: seq<string>, remaining: Mapping)
    requires OfName(remaining, x) == DropFirst(OfName(RemoveFirstNamed(mapping, key), x), Occurrences(keys, x))
    requires Occurrences(matched, x) ==
               var c := CountName(RemoveFirstNamed(mapping, key), x);
               if Occurrences(keys, x) <= c then Occurrences(keys, x) else c
    ensures OfName(remaining, x) == DropFirst(OfName(mapping, x), Occurrences([key] + keys, x))
    ensures (if HasName(mapping, key) && key == x then 1 else 0) + Occurrences(matched, x) ==
              if Occurrences([key] + keys, x) <= CountName(mapping, x) then Occurrences([key] + keys, x) else CountName(mapping, x)
  {
    TailOfConcat([key], keys);
    OfNameAfterRemoveFirst(mapping, key, x);
    ConsumeOneRemaining(mapping, key, x, Occurrences(keys, x));
    HasNameIffOfName(mapping, key);
  }

  /** The entries of name x left after a statement keyed `key` and then n more statements keyed x. */
  lemma ConsumeOneRemaining(mapping: Mapping, key: string, x: string, n: nat)
    ensures DropFirst(OfName(RemoveFirstNamed(mapping, key), x), n)
            == DropFirst(OfName(mapping, x), (if key == x then 1 else 0) + n)
  {
    var all := OfName(mapping, x);
    OfNameAfterRemoveFirst(mapping, key, x);
    if key == x && |all| > 0 {
      DropFirstOfTail(all, n);
    }
  }

  /** A blank piece is copied as it is; a statement is kept with one ';' after it. */
  function Render(chunks: seq<Chunk>): string {
    if |chunks| == 0 then ""
    else (match chunks[0] case Verbatim(t) => t case Statement(t) => t + ";") + Render(chunks[1..])
  }

  lemma {:induction false} RenderConcat(a: seq<Chunk>, b: seq<Chunk>)
    ensures Render(a + b) == Render(a) + Render(b)
    decreases |a|
  {
    if |a| == 0 {
      assert a + b == b;
    } else {
      RenderConcat(a[1..], b);
      TailOfConcat(a, b);
    }
  }

  /** The key the pattern reads from a statement ("" when it does not match, which stops the writer anyway). */
  function KeyOf(statement: string): string {
    match KeyValue(statement)
    case None => ""
    case Some(entry) => entry.name
  }

  /** A matched statement with its value span replaced by v. */
  function WithValue(statement: string, v: string): string {
    match KeyValueMatch(statement)
    case None => statement
    case Some(t) => statement[..t.q] + v + statement[t.e2..]
  }

  /**
   * A statement as the writer emits it when k earlier statements carry the
   * same key: it takes the value of the (k+1)-th entry of that name, and
   * stays as it is when the mapping has no more entries of that name.
   */
  function PatchStatement(statement: string, mapping: Mapping, k: nat): string {
    var all := OfName(mapping, KeyOf(statement));
    if k < |all| then WithValue(statement, all[k].content) else statement
  }

  /**
   * The chunks as the writer emits them after statements with the keys
   * `earlier`: verbatim text stays, and every statement is patched against
   * the whole mapping by its rank among the statements with its key.
   */
  function PatchedFrom(chunks: seq<Chunk>, mapping: Mapping, earlier: seq<string>): seq<Chunk>
    decreases |chunks|
  {
    if |chunks| == 0 then []
    else
      match chunks[0]
      case Verbatim(t) => [Verbatim(t)] + PatchedFrom(chunks[1..], mapping, earlier)
      case Statement(t) =>
        [Statement(PatchStatement(t, mapping, Occurrences(earlier, KeyOf(t))))] + PatchedFrom(chunks[1..], mapping, earlier + [KeyOf(t)])
  }

  /** Every chunk as the writer emits it, from the start of the file. */
  function PatchedChunks(chunks: seq<Chunk>, mapping: Mapping): seq<Chunk> {
    PatchedFrom(chunks, mapping, [])
  }

  /** manipulateSectionContent patches a statement as the first one with its key. */
  lemma ManipulateIsFirstPatch(t: string, mapping: Mapping)
    requires ManipulateSectionContent(t, mapping).Ok?
    ensures ManipulateSectionContent(t, mapping).value.key == KeyOf(t)
    ensures ManipulateSectionContent(t, mapping).value.text == PatchStatement(t, mapping, 0)
  {
    var m := ManipulateSectionContent(t, mapping).value;
    assert Admissible(t, KeyValueMatch(t).value);
    HasNameIffOfName(mapping, m.key);
    if m.matched.Some? {
      FindByNameIsFirstOfName(mapping, m.key);
    }
  }

  /** Patching first against what the earlier keys left of the mapping is patching against the whole mapping by rank. */
  lemma PatchAfterRemoveEach(t: string, mapping: Mapping, earlier: seq<string>)
    ensures PatchStatement(t, RemoveEach(mapping, earlier), 0) == PatchStatement(t, mapping, Occurrences(earlier, KeyOf(t)))
  {
    var x := KeyOf(t);
    var n := Occurrences(earlier, x);
    var all := OfName(mapping, x);
    var left := OfName(RemoveEach(mapping, earlier), x);
    RemoveEachOfName(mapping, earlier, x);
    assert left == DropFirst(all, n);
    if 0 < |left| {
      assert left[0] == all[n];
    }
  }

  /**
   * A patched statement reads back under its key with the content it was
   * given (or its own, when it was left alone), as long as that content holds
   * no '"'.
   */
  lemma PatchStatementReadsBack(t: string, mapping: Mapping, k: nat)
    requires KeyValue(t).Some?
    requires var all := OfName(mapping, KeyOf(t)); k < |all| ==> '"' !in all[k].content
    ensures var all := OfName(mapping, KeyOf(t));
            KeyValue(PatchStatement(t, mapping, k))
            == Some(NameContentTuple(KeyOf(t), if k < |all| then all[k].content else KeyValue(t).value.content))
  {
    var all := OfName(mapping, KeyOf(t));
    var u := KeyValueMatch(t).value;
    if k < |all| {
      ValueReplacedReadsBack(t, u, all[k].content);
    }
  }

  /** Removing for one more name at the end is one more first-entry removal. */
  lemma {:induction false} RemoveEachSnoc(mapping: Mapping, names: seq<string>, x: string)
    ensures RemoveEach(mapping, names + [x]) == RemoveFirstNamed(RemoveEach(mapping, names), x)
    decreases |names|
  {
    if |names| == 0 {
      assert [] + [x] == [x];
      assert [x][1..] == [];
    } else {
      assert (names + [x])[0] == names[0];
      assert (names + [x])[1..] == names[1..] + [x];
      RemoveEachSnoc(RemoveFirstNamed(mapping, names[0]), names[1..], x);
    }
  }

  /**
   * The section loop, started on what the earlier keys left of the mapping,
   * writes the patched chunks: each statement keyed x takes the content of
   * the (k+1)-th entry named x, where k counts the statements keyed x before
   * it, and stays as it is once the entries named x are used up; each
   * statement is closed with one ';'.
   */
  lemma {:induction false} RewriteTextFrom(chunks: seq<Chunk>, mapping: Mapping, earlier: seq<string>)
    requires RewriteChunks(chunks, RemoveEach(mapping, earlier)).Ok?
    ensures RewriteChunks(chunks, RemoveEach(mapping, earlier)).value.text == Render(PatchedFrom(chunks, mapping, earlier))
    decreases |chunks|
  {
    if |chunks| > 0 {
      var working := RemoveEach(mapping, earlier);
      match chunks[0]
      case Verbatim(t) =>
        RewriteTextFrom(chunks[1..], mapping, earlier);
      case Statement(t) =>
        var x := KeyOf(t);
        var m := ManipulateSectionContent(t, working).value;
        StatementPatchedFrom(t, mapping, earlier);
        StatementConsumesFrom(t, mapping, earlier);
        RewriteTextFrom(chunks[1..], mapping, earlier + [x]);
        var head := Statement(PatchStatement(t, mapping, Occurrences(earlier, x)));
        RenderCons(head, PatchedFrom(chunks[1..], mapping, earlier + [x]));
    }
  }

  /** One statement of the section loop, against what the earlier keys left of the mapping, writes its patched text. */
  lemma StatementPatchedFrom(t: string, mapping: Mapping, earlier: seq<string>)
    requires ManipulateSectionContent(t, RemoveEach(mapping, earlier)).Ok?
    ensures ManipulateSectionContent(t, RemoveEach(mapping, earlier)).value.text
            == PatchStatement(t, mapping, Occurrences(earlier, KeyOf(t)))
  {
    ManipulateIsFirstPatch(t, RemoveEach(mapping, earlier));
    PatchAfterRemoveEach(t, mapping, earlier);
  }

  /** ... and leaves what the earlier keys and its own key leave of the mapping. */
  lemma StatementConsumesFrom(t: string, mapping: Mapping, earlier: seq<string>)
    requires ManipulateSectionContent(t, RemoveEach(mapping, earlier)).Ok?
    ensures ManipulateSectionContent(t, RemoveEach(mapping, earlier)).value.remaining
            == RemoveEach(mapping, earlier + [KeyOf(t)])
  {
    ManipulateIsFirstPatch(t, RemoveEach(mapping, earlier));
    RemoveEachSnoc(mapping, earlier, KeyOf(t));
  }

  lemma RenderCons(c: Chunk, rest: seq<Chunk>)
    ensures Render([c] + rest) == (match c case Verbatim(t) => t case Statement(t) => t + ";") + Render(rest)
  {
    assert ([c] + rest)[0] == c;
    assert ([c] + rest)[1..] == rest;
  }

  /** The text the section loop writes is the rendering of the patched chunks. */
  lemma RewriteText(chunks: seq<Chunk>, mapping: Mapping)
    requires RewriteChunks(chunks, mapping).Ok?
    ensures RewriteChunks(chunks, mapping).value.text == Render(PatchedChunks(chunks, mapping))
  {
    assert RemoveEach(mapping, []) == mapping;
    RewriteTextFrom(chunks, mapping, []);
  }

  /** The keys that find an entry when each key in turn consumes the first remaining entry of its name. */
  function MatchedKeys(keys: seq<string>, mapping: Mapping): seq<string>
    decreases |keys|
  {
    if |keys| == 0 then []
    else (if HasName(mapping, keys[0]) then [keys[0]] else []) + MatchedKeys(keys[1..], RemoveFirstNamed(mapping, keys[0]))
  }

  /**
   * What the section loop leaves of the mapping is the mapping with the first
   * remaining entry of each statement key removed, key by key; the matched
   * names are the keys that still found an entry.
   */
  lemma {:induction false} RewriteLeavesUnconsumed(chunks: seq<Chunk>, mapping: Mapping)
    requires RewriteChunks(chunks, mapping).Ok?
    ensures var r := RewriteChunks(chunks, mapping).value;
            r.remaining == RemoveEach(mapping, r.keys) && r.matched == MatchedKeys(r.keys, mapping)
    decreases |chunks|
  {
    if |chunks| > 0 {
      match chunks[0]
      case Verbatim(t) =>
        RewriteLeavesUnconsumed(chunks[1..], mapping);
      case Statement(t) =>
        var m := ManipulateSectionContent(t, mapping).value;
        RewriteLeavesUnconsumed(chunks[1..], m.remaining);
        var keys := RewriteChunks(chunks, mapping).value.keys;
        assert keys[0] == m.key && keys[1..] == RewriteChunks(chunks[1..], m.remaining).value.keys;
    }
  }

  /**
   * Rewriting with the mapping read from the same chunks reproduces their
   * rendering, consumes the whole mapping and matches every key.
   */
  lemma {:induction false} RewriteWithOwnEntries(chunks: seq<Chunk>)
    requires EntriesOf(Statements(chunks)).Ok?
    ensures var es := EntriesOf(Statements(chunks)).value;
            RewriteChunks(chunks, es) == Ok(Rewrite(Render(chunks), [], Names(es), Names(es)))
    decreases |chunks|
  {
    if |chunks| > 0 {
      var rest := chunks[1..];
      match chunks[0]
      case Verbatim(t) =>
        assert Statements(chunks) == Statements(rest);
        RewriteWithOwnEntries(rest);
      case Statement(t) =>
        var sts := Statements(chunks);
        assert sts == [t] + Statements(rest);
        assert sts[1..] == Statements(rest);
        var es := EntriesOf(sts).value;
        var esRest := EntriesOf(Statements(rest)).value;
        assert es == [EntryOf(t).value] + esRest;
        assert FirstIndexOfName(es, es[0].name) == Some(0);
        assert RemoveFirstNamed(es, es[0].name) == esRest;
        ManipulateWithOwnValue(t, es);
        RewriteWithOwnEntries(rest);
        assert Names(es) == [es[0].name] + Names(esRest);
    }
  }

  /**
   * The file shape that survives a rewrite unchanged: in every content
   * section every ';' closes a statement and only blank text follows the last
   * one.
   */
  predicate Terminated(sec: DotStringsSection) {
    var pieces := Split(sec.content, ';');
    sec.isComment ||
    ((forall i :: 0 <= i < |pieces| - 1 ==> !IsWhiteSpaceOnly(pieces[i])) && IsWhiteSpaceOnly(pieces[|pieces| - 1]))
  }

  lemma {:induction false} RenderTerminatedPieces(pieces: seq<string>)
    requires |pieces| >= 1
    requires forall i :: 0 <= i < |pieces| - 1 ==> !IsWhiteSpaceOnly(pieces[i])
    requires IsWhiteSpaceOnly(pieces[|pieces| - 1])
    ensures Render(PieceChunks(pieces)) == Join(pieces, ';')
    decreases |pieces|
  {
    if |pieces| > 1 {
      RenderTerminatedPieces(pieces[1..]);
      assert PieceChunks(pieces)[1..] == PieceChunks(pieces[1..]);
    }
  }

  lemma {:induction false} RenderTerminatedSections(sections: seq<DotStringsSection>)
    requires forall i :: 0 <= i < |sections| ==> Terminated(sections[i])
    ensures Render(Chunks(sections)) == Concat(sections)
    decreases |sections|
  {
    if |sections| > 0 {
      RenderTerminatedSections(sections[1..]);
      assert Chunks(sections) == SectionChunks(sections[0]) + Chunks(sections[1..]);
      RenderConcat(SectionChunks(sections[0]), Chunks(sections[1..]));
      if !sections[0].isComment {
        RenderTerminatedPieces(Split(sections[0].content, ';'));
      }
    }
  }

  /** The block writeMappingToDotStringsFile appends for the given entries. */
  function AppendedText(entries: Mapping): string {
    if |entries| == 0 then "" else "\n" + StatementText(entries[0].name, entries[0].content) + ";" + AppendedText(entries[1..])
  }

  datatype WriteOutput = WriteOutput(text: string, debug: seq<seq<string>>)

  /**
   * writeMappingToDotStringsFile from the file's text on: the rewritten text,
   * then (with addNewEntries) the entries no statement consumed, and the two
   * debug lists.
   */
  function WriteDotStringsText(fileText: string, mapping: Mapping, addNewEntries: bool): (r: Result<WriteOutput>)
    ensures r.Ok? <==> ReadDotStrings(fileText).Ok?
    ensures r.Ok? ==>
              var keys := Names(ReadDotStrings(fileText).value);
              var appended := if addNewEntries then RemoveEach(mapping, keys) else [];
              r.value.text == Render(PatchedChunks(Chunks(Scan(fileText)), mapping)) + AppendedText(appended)
    ensures r.Ok? ==>
              var keys := Names(ReadDotStrings(fileText).value);
              var appended := if addNewEntries then RemoveEach(mapping, keys) else [];
              r.value.debug == [keys + Names(appended), MatchedKeys(keys, mapping) + Names(appended)]
  {
    RewriteAgreesWithRead(Chunks(Scan(fileText)), mapping);
    var rw :- RewriteChunks(Chunks(Scan(fileText)), mapping);
    WriteDotStringsTextParts(fileText, mapping);
    if addNewEntries then
      Ok(WriteOutput(rw.text + AppendedText(rw.remaining),
                     [rw.keys + Names(rw.remaining), rw.matched + Names(rw.remaining)]))
    else
      assert AppendedText([]) == "" && Names([]) == [];
      assert rw.text + "" == rw.text && rw.keys + [] == rw.keys && rw.matched + [] == rw.matched;
      Ok(WriteOutput(rw.text, [rw.keys, rw.matched]))
  }

  /** The section loop on a readable file writes the patched chunks and leaves the mapping minus the consumed entries. */
  lemma WriteDotStringsTextParts(fileText: string, mapping: Mapping)
    requires ReadDotStrings(fileText).Ok?
    ensures RewriteChunks(Chunks(Scan(fileText)), mapping).Ok?
    ensures var rw := RewriteChunks(Chunks(Scan(fileText)), mapping).value;
            var keys := Names(ReadDotStrings(fileText).value);
            && rw.keys == keys
            && rw.text == Render(PatchedChunks(Chunks(Scan(fileText)), mapping))
            && rw.remaining == RemoveEach(mapping, keys)
            && rw.matched == MatchedKeys(keys, mapping)
  {
    var chunks := Chunks(Scan(fileText));
    RewriteAgreesWithRead(chunks, mapping);
    RewriteText(chunks, mapping);
    RewriteLeavesUnconsumed(chunks, mapping);
  }

  /**
   * A file made of terminated statements (and nothing dropped by the scanner)
   * is written back unchanged when the mapping is the one read from it; both
   * debug lists are then its keys, and nothing is appended even with
   * addNewEntries.
   */
  lemma WriteWithOwnMappingIsIdentity(fileText: string, addNewEntries: bool)
    requires ReadDotStrings(fileText).Ok?
    requires Concat(Scan(fileText)) == fileText
    requires forall i :: 0 <= i < |Scan(fileText)| ==> Terminated(Scan(fileText)[i])
    ensures var keys := Names(ReadDotStrings(fileText).value);
            WriteDotStringsText(fileText, ReadDotStrings(fileText).value, addNewEntries) == Ok(WriteOutput(fileText, [keys, keys]))
  {
    var chunks := Chunks(Scan(fileText));
    var es := ReadDotStrings(fileText).value;
    RewriteWithOwnEntries(chunks);
    RenderTerminatedSections(Scan(fileText));
    var keys := Names(es);
    assert RewriteChunks(chunks, es) == Ok(Rewrite(fileText, [], keys, keys));
    assert AppendedText([]) == "" && Names([]) == [];
    assert fileText + "" == fileText && keys + [] == keys;
  }

  /** The statements of the appended block, one per entry. */
  function AppendedPieces(entries: Mapping): (r: seq<string>)
    ensures |r| == |entries|
  {
    if |entries| == 0 then [] else ["\n" + StatementText(entries[0].name, entries[0].content)] + AppendedPieces(entries[1..])
  }

  /** Entries whose names and contents could be appended and read back verbatim. */
  predicate Plain(entries: Mapping) {
    forall i :: 0 <= i < |entries| ==>
      && '"' !in entries[i].name && '"' !in entries[i].content
      && ';' !in entries[i].name && ';' !in entries[i].content
      && '/' !in entries[i].name && '/' !in entries[i].content
  }

  /** The rest of a plain mapping is plain. */
  lemma PlainRest(entries: Mapping)
    requires Plain(entries) && |entries| > 0
    ensures Plain(entries[1..])
  {
    assert forall i :: 0 <= i < |entries[1..]| ==> entries[1..][i] == entries[i + 1];
  }

  /** The appended statement of an entry without ';' or '/' is not blank and holds neither. */
  lemma AppendedHead(name: string, content: string)
    requires ';' !in name && ';' !in content && '/' !in name && '/' !in content
    ensures var head := "\n" + StatementText(name, content);
            !IsWhiteSpaceOnly(head) && ';' !in head && '/' !in head
  {
    var head := "\n" + StatementText(name, content);
    assert head[1] == '"' && !IsRegexSpace(head[1]);
    assert head == "\n\"" + name + "\" = \"" + content + "\"";
  }

  /** A statement cut off by ';' in front of the rest of a text. */
  lemma StatementThenRest(head: string, tail: string)
    requires ';' !in head && !IsWhiteSpaceOnly(head)
    ensures Statements(PieceChunks(Split(head + [';'] + tail, ';'))) == [head] + Statements(PieceChunks(Split(tail, ';')))
  {
    SplitPieceThenRest(head, tail, ';');
    var pieces := Split(head + [';'] + tail, ';');
    assert pieces[0] == head && pieces[1..] == Split(tail, ';');
    assert PieceChunks(pieces) == [Statement(head)] + PieceChunks(pieces[1..]);
  }

  /** Cut at ';', the appended block is its statements followed by one empty piece. */
  lemma {:induction false} AppendedStatements(entries: Mapping)
    requires Plain(entries)
    ensures Statements(PieceChunks(Split(AppendedText(entries), ';'))) == AppendedPieces(entries)
    ensures '/' !in AppendedText(entries)
    decreases |entries|
  {
    if |entries| == 0 {
      SplitWithoutDelimiter("", ';');
      assert PieceChunks([""]) == [Verbatim("")];
    } else {
      var e := entries[0];
      PlainRest(entries);
      AppendedStatements(entries[1..]);
      AppendedHead(e.name, e.content);
      var head := "\n" + StatementText(e.name, e.content);
      assert AppendedText(entries) == head + [';'] + AppendedText(entries[1..]);
      StatementThenRest(head, AppendedText(entries[1..]));
    }
  }

  /** The appended statement at each position is the statement of the entry there. */
  lemma {:induction false} AppendedPieceAt(entries: Mapping, i: nat)
    requires i < |entries|
    ensures AppendedPieces(entries)[i] == "\n" + StatementText(entries[i].name, entries[i].content)
    decreases i
  {
    if i > 0 {
      AppendedPieceAt(entries[1..], i - 1);
    }
  }

  /** Each appended statement reads back as its entry. */
  lemma AppendedPiecesReadBack(entries: Mapping)
    requires Plain(entries)
    ensures EntriesOf(AppendedPieces(entries)) == Ok(entries)
  {
    var pieces := AppendedPieces(entries);
    forall i | 0 <= i < |pieces|
      ensures EntryOf(pieces[i]) == Ok(entries[i])
    {
      AppendedPieceAt(entries, i);
      KeyValueOfStatement("\n", entries[i].name, entries[i].content, "");
      assert pieces[i] == "\n" + StatementText(entries[i].name, entries[i].content) + "";
    }
    var r := EntriesOf(pieces);
    assert r.Ok?;
    assert r.value == entries;
  }

  /**
   * What writeMappingToDotStringsFile appends reads back as exactly the
   * appended entries, when their names and contents hold no '"', ';' or '/'.
   */
  lemma ReadAppendedEntries(entries: Mapping)
    requires Plain(entries)
    ensures ReadDotStrings(AppendedText(entries)) == Ok(entries)
  {
    var text := AppendedText(entries);
    AppendedStatements(entries);
    AppendedPiecesReadBack(entries);
    ScanWithoutSlash(text);
    if |text| == 0 {
      assert Chunks(Scan(text)) == [];
    } else {
      var sec := DotStringsSection(false, text);
      assert Scan(text) == [sec];
      assert Chunks([sec]) == SectionChunks(sec) + Chunks([]);
      assert Chunks(Scan(text)) == PieceChunks(Split(text, ';'));
      assert Statements(Chunks(Scan(text))) == AppendedPieces(entries);
    }
  }

  /**
   * writeMappingToDotStringsFile on a file system given as a map from path to
   * text: a missing file or a name without the `.strings` suffix is FILE NOT
   * FOUND and nothing is written; otherwise the file's text is replaced.
   */
  function WriteMappingToDotStringsFile(mapping: Mapping, path: string, addNewEntries: bool, files: map<string, string>)
    : (r: Result<(map<string, string>, seq<seq<string>>)>)
    ensures (path !in files || !EndsWith(path, ".strings")) ==>
              r == Err(Error(FileNotFound, "Could not find .strings file under:\n" + path))
    ensures r.Ok? ==> path in files && r.value.0.Keys == files.Keys
    ensures r.Ok? ==> forall p :: p in files && p != path ==> r.value.0[p] == files[p]
    ensures path in files && EndsWith(path, ".strings") ==> (r.Ok? <==> ReadDotStrings(files[path]).Ok?)
    ensures r.Ok? ==> var out := WriteDotStringsText(files[path], mapping, addNewEntries).value;
                      r.value.0[path] == out.text && r.value.1 == out.debug
  {
    if path !in files || !EndsWith(path, ".strings") then
      Err(Error(FileNotFound, "Could not find .strings file under:\n" + path))
    else
      var out :- WriteDotStringsText(files[path], mapping, addNewEntries);
      Ok((files[path := out.text], out.debug))
  }

  /** When the rewritten text is the file's own text, the files are left exactly as they were. */
  lemma WriteSameTextLeavesFiles(mapping: Mapping, path: string, addNewEntries: bool, files: map<string, string>)
    requires path in files && EndsWith(path, ".strings")
    requires WriteDotStringsText(files[path], mapping, addNewEntries).Ok?
    requires WriteDotStringsText(files[path], mapping, addNewEntries).value.text == files[path]
    ensures WriteMappingToDotStringsFile(mapping, path, addNewEntries, files)
            == Ok((files, WriteDotStringsText(files[path], mapping, addNewEntries).value.debug))
  {
    assert files[path := files[path]] == files;
  }
}
