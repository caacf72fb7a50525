/**
 * The shared record of the translator (NameContentTuple) and the list
 * operations on mappings that both the merge and the writers use: Kotlin's
 * `find { it.name == n }` and `remove(found)`, which touch only the FIRST
 * entry carrying a name.
 */
module Entries {
  import opened Sequences
  import opened Errors

  /** One string resource: its key (`name`) and its localized text (`content`). */
  datatype NameContentTuple = NameContentTuple(name: string, content: string)

  /** An ordered list of entries; names need not be unique. */
  type Mapping = seq<NameContentTuple>

  function Names(m: Mapping): (r: seq<string>)
    ensures |r| == |m|
    ensures forall i :: 0 <= i < |m| ==> r[i] == m[i].name
  {
    if |m| == 0 then [] else [m[0].name] + Names(m[1..])
  }

  predicate HasName(m: Mapping, name: string) {
    exists i :: 0 <= i < |m| && m[i].name == name
  }

  predicate UniqueNames(m: Mapping) {
    forall i, j :: 0 <= i < j < |m| ==> m[i].name != m[j].name
  }

  /** Index of the first entry called `name`, if any. */
  function FirstIndexOfName(m: Mapping, name: string): (r: Option<nat>)
    ensures r.Some? ==> r.value < |m| && m[r.value].name == name
    ensures r.Some? ==> forall j :: 0 <= j < r.value ==> m[j].name != name
    ensures r.None? <==> !HasName(m, name)
  {
    if |m| == 0 then None
    else if m[0].name == name then Some(0)
    else
      match FirstIndexOfName(m[1..], name)
      case None =>
        assert forall i :: 1 <= i < |m| ==> m[i] == m[1..][i - 1];
        None
      case Some(j) => Some(j + 1)
  }

  /** Kotlin `m.find { it.name == name }`: the first entry with that name. */
  function FindByName(m: Mapping, name: string): (r: Option<NameContentTuple>)
    ensures r.Some? <==> HasName(m, name)
    ensures r.Some? ==> r.value == m[FirstIndexOfName(m, name).value]
  {
    match FirstIndexOfName(m, name)
    case None => None
    case Some(j) => Some(m[j])
  }

  /**
   * `m.remove(m.find { it.name == name })`: drops the first entry with that
   * name and keeps every other entry, in order.
   */
  function RemoveFirstNamed(m: Mapping, name: string): (r: Mapping)
    ensures FirstIndexOfName(m, name).None? ==> r == m
    ensures FirstIndexOfName(m, name).Some? ==>
              var j := FirstIndexOfName(m, name).value; r == m[..j] + m[j + 1..]
  {
    if |m| == 0 then []
    else if m[0].name == name then m[1..]
    else
      var rest := RemoveFirstNamed(m[1..], name);
      FirstIndexOfNameCons(m, name);
      match FirstIndexOfName(m[1..], name)
      case None =>
        assert [m[0]] + m[1..] == m;
        [m[0]] + rest
      case Some(j) =>
        ConsOfSplice(m, j);
        [m[0]] + rest
  }

  /** Past a head with another name, the first index of `name` is one more than in the tail. */
  lemma FirstIndexOfNameCons(m: Mapping, name: string)
    requires |m| > 0 && m[0].name != name
    ensures FirstIndexOfName(m[1..], name).None? ==> FirstIndexOfName(m, name).None?
    ensures FirstIndexOfName(m[1..], name).Some? ==> FirstIndexOfName(m, name) == Some(FirstIndexOfName(m[1..], name).value + 1)
  {
  }

  /** Number of entries called `name`. */
  function CountName(m: Mapping, name: string): nat
  {
    if |m| == 0 then 0 else (if m[0].name == name then 1 else 0) + CountName(m[1..], name)
  }

  /** The entries called `name`, in mapping order. */
  function OfName(m: Mapping, name: string): (r: Mapping)
    ensures |r| == CountName(m, name)
    ensures forall i :: 0 <= i < |r| ==> r[i].name == name
  {
    if |m| == 0 then []
    else if m[0].name == name then [m[0]] + OfName(m[1..], name)
    else OfName(m[1..], name)
  }

  lemma {:induction false} OfNameConcat(a: Mapping, b: Mapping, name: string)
    ensures OfName(a + b, name) == OfName(a, name) + OfName(b, name)
    decreases |a|
  {
    if |a| == 0 {
      assert a + b == b;
    } else {
      OfNameConcat(a[1..], b, name);
      TailOfConcat(a, b);
    }
  }

  /**
   * Removing the first entry called `n` shortens the list of entries called
   * `n` by its head and leaves the entries of every other name alone.
   */
  lemma {:induction false} OfNameAfterRemoveFirst(m: Mapping, n: string, name: string)
    ensures OfName(RemoveFirstNamed(m, n), name) ==
              if name == n && |OfName(m, name)| > 0 then OfName(m, name)[1..] else OfName(m, name)
    decreases |m|
  {
    if |m| > 0 && m[0].name != n {
      OfNameAfterRemoveFirst(m[1..], n, name);
      assert RemoveFirstNamed(m, n) == [m[0]] + RemoveFirstNamed(m[1..], n);
      assert ([m[0]] + RemoveFirstNamed(m[1..], n))[1..] == RemoveFirstNamed(m[1..], n);
    }
  }

  lemma {:induction false} HasNameIffOfName(m: Mapping, name: string)
    ensures HasName(m, name) <==> |OfName(m, name)| > 0
    decreases |m|
  {
    if |m| > 0 {
      HasNameIffOfName(m[1..], name);
      if HasName(m[1..], name) {
        var i :| 0 <= i < |m[1..]| && m[1..][i].name == name;
        assert m[i + 1].name == name;
      }
      if HasName(m, name) && m[0].name != name {
        var i :| 0 <= i < |m| && m[i].name == name;
        assert m[1..][i - 1].name == name;
      }
    }
  }

  /** How often x occurs in a list of names. */
  function Occurrences(names: seq<string>, x: string): nat
  {
    if |names| == 0 then 0 else (if names[0] == x then 1 else 0) + Occurrences(names[1..], x)
  }

  lemma {:induction false} OccurrencesConcat(a: seq<string>, b: seq<string>, x: string)
    ensures Occurrences(a + b, x) == Occurrences(a, x) + Occurrences(b, x)
    decreases |a|
  {
    if |a| == 0 {
      assert a + b == b;
    } else {
      OccurrencesConcat(a[1..], b, x);
      TailOfConcat(a, b);
    }
  }

  /** s without its first n elements (nothing left when n exceeds its length). */
  function DropFirst<T>(s: seq<T>, n: nat): (r: seq<T>)
    ensures |r| == if n <= |s| then |s| - n else 0
  {
    if n <= |s| then s[n..] else []
  }

  /** Dropping n from the tail is dropping n + 1 from the whole. */
  lemma DropFirstOfTail<T>(s: seq<T>, n: nat)
    requires |s| > 0
    ensures DropFirst(s[1..], n) == DropFirst(s, n + 1)
  {
    if n + 1 <= |s| {
      assert s[1..][n..] == s[n + 1..];
    }
  }

  /** The mapping after removing, for each name in turn, its first remaining entry. */
  function RemoveEach(m: Mapping, names: seq<string>): (r: Mapping)
    ensures |m| - |names| <= |r| <= |m|
    decreases |names|
  {
    if |names| == 0 then m else RemoveEach(RemoveFirstNamed(m, names[0]), names[1..])
  }

  /** Removing the first remaining entry per name drops, per name x, as many first x entries as x occurs among the names. */
  lemma {:induction false} RemoveEachOfName(m: Mapping, names: seq<string>, x: string)
    ensures OfName(RemoveEach(m, names), x) == DropFirst(OfName(m, x), Occurrences(names, x))
    decreases |names|
  {
    if |names| > 0 {
      RemoveEachOfName(RemoveFirstNamed(m, names[0]), names[1..], x);
      OfNameAfterRemoveFirst(m, names[0], x);
    }
  }

  /** The entry Kotlin's find returns is the first entry of that name. */
  lemma {:induction false} FindByNameIsFirstOfName(m: Mapping, name: string)
    requires HasName(m, name)
    ensures |OfName(m, name)| > 0 && FindByName(m, name).value == OfName(m, name)[0]
    decreases |m|
  {
    if m[0].name != name {
      var i :| 0 <= i < |m| && m[i].name == name;
      assert m[1..][i - 1].name == name;
      FindByNameIsFirstOfName(m[1..], name);
      assert FirstIndexOfName(m, name).value == FirstIndexOfName(m[1..], name).value + 1;
    }
  }
}
