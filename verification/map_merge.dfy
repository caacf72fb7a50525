/**
 * Merging the mappings read from several sources (both mergeMappings
 * overloads). The pairwise merge is "top first": the top mapping is copied
 * as it is, each top entry removes the FIRST bottom entry with its name, and
 * whatever is left of the bottom follows. The list merge folds that from the
 * left, starting with the empty mapping, so earlier sources win.
 */
module MapMerge {
  import opened Sequences
  import opened Errors
  import opened Entries

  /** The pairwise merge: the top mapping, then the bottom entries no top entry removed. */
  function MergePair(top: Mapping, bottom: Mapping): (r: Mapping)
    ensures |top| <= |r| <= |top| + |bottom|
    ensures r[..|top|] == top
  {
    top + RemoveEach(bottom, Names(top))
  }

  /** The list merge: a left fold of MergePair over the mappings, from the empty mapping. */
  function MergeMappings(mappings: seq<Mapping>): (r: Mapping)
    ensures |mappings| == 0 ==> r == []
    ensures |mappings| == 1 ==> r == mappings[0]
    decreases |mappings|
  {
    if |mappings| == 0 then []
    else MergePair(MergeMappings(mappings[..|mappings| - 1]), mappings[|mappings| - 1])
  }

  lemma {:induction false} CountNameIsOccurrences(m: Mapping, x: string)
    ensures CountName(m, x) == Occurrences(Names(m), x)
    decreases |m|
  {
    if |m| > 0 {
      CountNameIsOccurrences(m[1..], x);
      assert Names(m)[1..] == Names(m[1..]);
    }
  }

  /**
   * Per name x, the merge holds the top's x entries and then the bottom's x
   * entries without as many of its first ones as the top has: each top entry
   * removes one bottom entry of its name, duplicates within the top are kept
   * and extra bottom duplicates survive.
   */
  lemma MergePairOfName(top: Mapping, bottom: Mapping, x: string)
    ensures OfName(MergePair(top, bottom), x) == OfName(top, x) + DropFirst(OfName(bottom, x), CountName(top, x))
  {
    OfNameConcat(top, RemoveEach(bottom, Names(top)), x);
    RemoveEachOfName(bottom, Names(top), x);
    CountNameIsOccurrences(top, x);
  }

  /** The merge has a name exactly when one of its inputs has it. */
  lemma MergePairHasName(top: Mapping, bottom: Mapping, x: string)
    ensures HasName(MergePair(top, bottom), x) <==> HasName(top, x) || HasName(bottom, x)
  {
    MergePairOfName(top, bottom, x);
    HasNameIffOfName(MergePair(top, bottom), x);
    HasNameIffOfName(top, x);
    HasNameIffOfName(bottom, x);
  }

  /** a is b with some elements deleted, the rest kept in order. */
  predicate Subsequence<T(==)>(a: seq<T>, b: seq<T>)
    decreases |b|
  {
    if |a| == 0 then true
    else if |b| == 0 then false
    else (a[0] == b[0] && Subsequence(a[1..], b[1..])) || Subsequence(a, b[1..])
  }

  lemma {:induction false} SubsequenceRefl<T>(a: seq<T>)
    ensures Subsequence(a, a)
    decreases |a|
  {
    if |a| > 0 {
      SubsequenceRefl(a[1..]);
    }
  }

  lemma {:induction false} SubsequenceTrans<T>(a: seq<T>, b: seq<T>, c: seq<T>)
    requires Subsequence(a, b) && Subsequence(b, c)
    ensures Subsequence(a, c)
    decreases |c|
  {
    if |a| > 0 {
      if b[0] == c[0] && Subsequence(b[1..], c[1..]) {
        if a[0] == b[0] && Subsequence(a[1..], b[1..]) {
          SubsequenceTrans(a[1..], b[1..], c[1..]);
        } else {
          SubsequenceTrans(a, b[1..], c[1..]);
        }
      } else {
        SubsequenceTrans(a, b, c[1..]);
      }
    }
  }

  lemma {:induction false} RemoveFirstNamedSubsequence(m: Mapping, n: string)
    ensures Subsequence(RemoveFirstNamed(m, n), m)
    decreases |m|
  {
    if |m| > 0 {
      if m[0].name == n {
        SubsequenceRefl(m[1..]);
        if |m[1..]| > 0 {
          assert Subsequence(m[1..], m[1..]);
        }
      } else {
        RemoveFirstNamedSubsequence(m[1..], n);
        assert RemoveFirstNamed(m, n)[1..] == RemoveFirstNamed(m[1..], n);
      }
    }
  }

  lemma {:induction false} RemoveEachSubsequence(bottom: Mapping, names: seq<string>)
    ensures Subsequence(RemoveEach(bottom, names), bottom)
    decreases |names|
  {
    if |names| == 0 {
      SubsequenceRefl(bottom);
    } else {
      var b' := RemoveFirstNamed(bottom, names[0]);
      RemoveFirstNamedSubsequence(bottom, names[0]);
      RemoveEachSubsequence(b', names[1..]);
      SubsequenceTrans(RemoveEach(b', names[1..]), b', bottom);
    }
  }

  /** After the top entries come surviving bottom entries, in their original relative order. */
  lemma MergePairKeepsBottomOrder(top: Mapping, bottom: Mapping)
    ensures Subsequence(MergePair(top, bottom)[|top|..], bottom)
  {
    assert MergePair(top, bottom)[|top|..] == RemoveEach(bottom, Names(top));
    RemoveEachSubsequence(bottom, Names(top));
  }

  lemma {:induction false} RemoveEachAbsent(bottom: Mapping, names: seq<string>)
    requires forall i, j :: 0 <= i < |bottom| && 0 <= j < |names| ==> bottom[i].name != names[j]
    ensures RemoveEach(bottom, names) == bottom
    decreases |names|
  {
    if |names| > 0 {
      assert FirstIndexOfName(bottom, names[0]).None?;
      RemoveEachAbsent(bottom, names[1..]);
    }
  }

  /** Mappings with no name in common merge to their concatenation. */
  lemma MergePairDisjoint(top: Mapping, bottom: Mapping)
    requires forall i, j :: 0 <= i < |top| && 0 <= j < |bottom| ==> top[i].name != bottom[j].name
    ensures MergePair(top, bottom) == top + bottom
  {
    RemoveEachAbsent(bottom, Names(top));
  }

  /** The entries of b whose names are not in names, in order. */
  function WithoutNames(b: Mapping, names: seq<string>): (r: Mapping)
    ensures |r| <= |b|
  {
    if |b| == 0 then []
    else (if b[0].name in names then [] else [b[0]]) + WithoutNames(b[1..], names)
  }

  /** What is left are entries of `b` whose names are not among `names`. */
  lemma {:induction false} WithoutNamesFilters(b: Mapping, names: seq<string>)
    ensures forall e :: e in WithoutNames(b, names) ==> e in b && e.name !in names
    decreases |b|
  {
    if |b| > 0 {
      WithoutNamesFilters(b[1..], names);
    }
  }

  lemma {:induction false} WithoutNamesNothing(b: Mapping, names: seq<string>)
    requires forall i :: 0 <= i < |b| ==> b[i].name !in names
    ensures WithoutNames(b, names) == b
    decreases |b|
  {
    if |b| > 0 {
      WithoutNamesNothing(b[1..], names);
    }
  }

  lemma {:induction false} WithoutNamesTwice(b: Mapping, ns: seq<string>, ms: seq<string>)
    ensures WithoutNames(WithoutNames(b, ns), ms) == WithoutNames(b, ns + ms)
    decreases |b|
  {
    if |b| > 0 {
      WithoutNamesTwice(b[1..], ns, ms);
      var head: Mapping := if b[0].name in ns then [] else [b[0]];
      WithoutNamesConcat(head, WithoutNames(b[1..], ns), ms);
    }
  }

  lemma {:induction false} WithoutNamesConcat(a: Mapping, b: Mapping, names: seq<string>)
    ensures WithoutNames(a + b, names) == WithoutNames(a, names) + WithoutNames(b, names)
    decreases |a|
  {
    if |a| == 0 {
      assert a + b == b;
    } else {
      var head: Mapping := if a[0].name in names then [] else [a[0]];
      var wa, wb := WithoutNames(a[1..], names), WithoutNames(b, names);
      WithoutNamesConcat(a[1..], b, names);
      TailOfConcat(a, b);
      assert WithoutNames(a + b, names) == head + (wa + wb);
      assert head + (wa + wb) == (head + wa) + wb;
    }
  }

  lemma {:induction false} WithoutNamesUnique(b: Mapping, names: seq<string>)
    requires UniqueNames(b)
    ensures UniqueNames(WithoutNames(b, names))
    decreases |b|
  {
    if |b| > 0 {
      var rest := WithoutNames(b[1..], names);
      WithoutNamesUnique(b[1..], names);
      WithoutNamesFilters(b[1..], names);
      forall e | e in rest
        ensures e.name != b[0].name
      {
        var j :| 0 <= j < |b[1..]| && b[1..][j] == e;
        assert b[j + 1] == e;
      }
    }
  }

  /** With unique names, removing the first entry called n removes every entry called n. */
  lemma {:induction false} RemoveFirstNamedUnique(b: Mapping, n: string)
    requires UniqueNames(b)
    ensures RemoveFirstNamed(b, n) == WithoutNames(b, [n])
    decreases |b|
  {
    if |b| > 0 {
      if b[0].name == n {
        WithoutNamesNothing(b[1..], [n]);
      } else {
        RemoveFirstNamedUnique(b[1..], n);
      }
    }
  }

  lemma {:induction false} RemoveEachUnique(b: Mapping, names: seq<string>)
    requires UniqueNames(b)
    ensures RemoveEach(b, names) == WithoutNames(b, names)
    decreases |names|
  {
    if |names| == 0 {
      WithoutNamesNothing(b, names);
    } else {
      RemoveFirstNamedUnique(b, names[0]);
      WithoutNamesUnique(b, [names[0]]);
      RemoveEachUnique(WithoutNames(b, [names[0]]), names[1..]);
      WithoutNamesTwice(b, [names[0]], names[1..]);
      assert [names[0]] + names[1..] == names;
    }
  }

  /**
   * With names unique within each input, the merge is the top followed by
   * the bottom entries whose names the top lacks, and is unique by name.
   */
  lemma MergePairUnique(top: Mapping, bottom: Mapping)
    requires UniqueNames(top) && UniqueNames(bottom)
    ensures MergePair(top, bottom) == top + WithoutNames(bottom, Names(top))
    ensures UniqueNames(MergePair(top, bottom))
  {
    RemoveEachUnique(bottom, Names(top));
    var w := WithoutNames(bottom, Names(top));
    WithoutNamesUnique(bottom, Names(top));
    WithoutNamesFilters(bottom, Names(top));
    forall k | 0 <= k < |w|
      ensures w[k].name !in Names(top)
    {
      assert w[k] in w;
    }
    ConcatUnique(top, w);
  }

  /** Two mappings unique by name, the second using none of the first's names, concatenate to one unique by name. */
  lemma ConcatUnique(a: Mapping, b: Mapping)
    requires UniqueNames(a) && UniqueNames(b)
    requires forall k :: 0 <= k < |b| ==> b[k].name !in Names(a)
    ensures UniqueNames(a + b)
  {
    var r := a + b;
    forall i, j | 0 <= i < j < |r|
      ensures r[i].name != r[j].name
    {
      if i < |a| <= j {
        assert r[j] == b[j - |a|];
        assert Names(a)[i] == r[i].name;
      } else if |a| <= i {
        assert r[i] == b[i - |a|] && r[j] == b[j - |a|];
      }
    }
  }

  /** The list merge has a name exactly when one of the merged mappings has it. */
  lemma {:induction false} MergeMappingsHasName(mappings: seq<Mapping>, x: string)
    ensures HasName(MergeMappings(mappings), x) <==> exists i :: 0 <= i < |mappings| && HasName(mappings[i], x)
    decreases |mappings|
  {
    if |mappings| > 0 {
      var init := mappings[..|mappings| - 1];
      var last := mappings[|mappings| - 1];
      MergeMappingsHasName(init, x);
      MergePairHasName(MergeMappings(init), last, x);
      if exists i :: 0 <= i < |mappings| && HasName(mappings[i], x) {
        var i :| 0 <= i < |mappings| && HasName(mappings[i], x);
        if i < |mappings| - 1 {
          assert init[i] == mappings[i];
        }
      }
      if exists i :: 0 <= i < |init| && HasName(init[i], x) {
        var i :| 0 <= i < |init| && HasName(init[i], x);
        assert mappings[i] == init[i];
      }
    }
  }

  predicate AllUnique(mappings: seq<Mapping>) {
    forall i :: 0 <= i < |mappings| ==> UniqueNames(mappings[i])
  }

  /** Merging mappings that are each unique by name gives a mapping unique by name. */
  lemma {:induction false} MergeMappingsUnique(mappings: seq<Mapping>)
    requires AllUnique(mappings)
    ensures UniqueNames(MergeMappings(mappings))
    decreases |mappings|
  {
    if |mappings| > 0 {
      var init := mappings[..|mappings| - 1];
      InitAllUnique(mappings);
      MergeMappingsUnique(init);
      MergePairUnique(MergeMappings(init), mappings[|mappings| - 1]);
    }
  }

  lemma {:induction false} FindByNameConcat(a: Mapping, b: Mapping, x: string)
    ensures FindByName(a + b, x) == if HasName(a, x) then FindByName(a, x) else FindByName(b, x)
    decreases |a|
  {
    if |a| == 0 {
      assert a + b == b;
    } else {
      FindByNameConcat(a[1..], b, x);
      TailOfConcat(a, b);
      if a[0].name != x {
        assert HasName(a, x) <==> HasName(a[1..], x) by {
          if HasName(a, x) {
            var i :| 0 <= i < |a| && a[i].name == x;
            assert a[1..][i - 1] == a[i];
          }
          if HasName(a[1..], x) {
            var i :| 0 <= i < |a[1..]| && a[1..][i].name == x;
            assert a[i + 1] == a[1..][i];
          }
        }
      }
    }
  }

  lemma {:induction false} FindByNameWithout(b: Mapping, names: seq<string>, x: string)
    ensures FindByName(WithoutNames(b, names), x) == if x in names then None else FindByName(b, x)
    decreases |b|
  {
    if |b| > 0 {
      FindByNameWithout(b[1..], names, x);
      assert b == [b[0]] + b[1..];
      FindByNameConcat([b[0]], b[1..], x);
      var head: Mapping := if b[0].name in names then [] else [b[0]];
      assert WithoutNames(b, names) == head + WithoutNames(b[1..], names);
      FindByNameConcat(head, WithoutNames(b[1..], names), x);
      assert HasName([b[0]], x) <==> b[0].name == x;
    }
  }

  /** In a merge of mappings unique by name, a name's entry comes from the top if the top has it, else from the bottom. */
  lemma MergePairFind(top: Mapping, bottom: Mapping, x: string)
    requires UniqueNames(top) && UniqueNames(bottom)
    ensures FindByName(MergePair(top, bottom), x) == if HasName(top, x) then FindByName(top, x) else FindByName(bottom, x)
  {
    MergePairUnique(top, bottom);
    FindByNameConcat(top, WithoutNames(bottom, Names(top)), x);
    FindByNameWithout(bottom, Names(top), x);
  }

  /**
   * First come, first served: with names unique within each mapping, the
   * merged entry for a name is the one of the earliest mapping that has it.
   */
  lemma {:induction false} MergeMappingsFirstWins(mappings: seq<Mapping>, i: nat, x: string)
    requires AllUnique(mappings)
    requires i < |mappings| && HasName(mappings[i], x)
    requires forall j :: 0 <= j < i ==> !HasName(mappings[j], x)
    ensures FindByName(MergeMappings(mappings), x) == FindByName(mappings[i], x)
    decreases |mappings|
  {
    var init := mappings[..|mappings| - 1];
    var last := mappings[|mappings| - 1];
    var m := MergeMappings(init);
    InitAllUnique(mappings);
    MergeMappingsUnique(init);
    MergePairFind(m, last, x);
    if i < |mappings| - 1 {
      assert init[i] == mappings[i];
      MergeMappingsFirstWins(init, i, x);
    } else {
      NoneBeforeLast(mappings, x);
    }
  }

  lemma InitAllUnique(mappings: seq<Mapping>)
    requires |mappings| > 0 && AllUnique(mappings)
    ensures AllUnique(mappings[..|mappings| - 1])
  {
    var init := mappings[..|mappings| - 1];
    forall k | 0 <= k < |init|
      ensures UniqueNames(init[k])
    {
      assert init[k] == mappings[k];
    }
  }

  /** No mapping before the last has x, so neither has their merge. */
  lemma NoneBeforeLast(mappings: seq<Mapping>, x: string)
    requires |mappings| > 0
    requires forall j :: 0 <= j < |mappings| - 1 ==> !HasName(mappings[j], x)
    ensures !HasName(MergeMappings(mappings[..|mappings| - 1]), x)
  {
    var init := mappings[..|mappings| - 1];
    MergeMappingsHasName(init, x);
    forall j | 0 <= j < |init|
      ensures !HasName(init[j], x)
    {
      assert init[j] == mappings[j];
    }
  }

  /** Two sources with no name in common merge to their concatenation. */
  lemma MergeTwoDisjoint(first: Mapping, second: Mapping)
    requires forall i, j :: 0 <= i < |first| && 0 <= j < |second| ==> first[i].name != second[j].name
    ensures MergeMappings([first, second]) == first + second
  {
    assert [first, second][..1] == [first];
    MergePairDisjoint(first, second);
  }
}
