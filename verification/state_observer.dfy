/**
 * The bookkeeping of which ids were written where (StateObserver): for each
 * file path a set of ids not yet moved and a set of ids moved. The singleton's
 * mutable maps become an immutable value that every operation returns anew.
 */
module StateObserver {
  import opened Errors

  datatype Observer = Observer(moved: map<string, set<string>>, unmoved: map<string, set<string>>)

  /** The ids of a path in one of the maps; a missing path has none. */
  function IdsAt(m: map<string, set<string>>, path: string): set<string> {
    if path in m then m[path] else {}
  }

  /** reset: both maps empty. */
  function Reset(): (r: Observer)
    ensures forall path :: IdsAt(r.moved, path) == {} && IdsAt(r.unmoved, path) == {}
  {
    Observer(map[], map[])
  }

  /** addUnMovedData: id joins the unmoved set of path, which is created when missing; nothing else changes. */
  function AddUnMovedData(o: Observer, path: string, id: string): (r: Observer)
    ensures path in r.unmoved && r.unmoved.Keys == o.unmoved.Keys + {path}
    ensures IdsAt(r.unmoved, path) == IdsAt(o.unmoved, path) + {id}
    ensures forall p :: p != path ==> IdsAt(r.unmoved, p) == IdsAt(o.unmoved, p)
    ensures r.moved == o.moved
  {
    if path in o.unmoved then o.(unmoved := o.unmoved[path := o.unmoved[path] + {id}])
    else o.(unmoved := o.unmoved[path := {id}])
  }

  /** Adding the same id twice is adding it once. */
  lemma AddUnMovedDataIdempotent(o: Observer, path: string, id: string)
    ensures AddUnMovedData(AddUnMovedData(o, path, id), path, id) == AddUnMovedData(o, path, id)
  {
    var once := AddUnMovedData(o, path, id);
    assert once.unmoved[path] + {id} == once.unmoved[path];
    assert once.unmoved[path := once.unmoved[path]] == once.unmoved;
  }

  /**
   * moveData: an OBSERVATION ERROR when path has no unmoved set or id is not
   * in it; otherwise id leaves the unmoved set of path and joins its moved
   * set (created when missing), and nothing else changes.
   */
  function MoveData(o: Observer, path: string, id: string): (r: Result<Observer>)
    ensures path !in o.unmoved ==>
              r == Err(Error(ObservationError, " Tried to move " + path + ", but it doesn't exist"))
    ensures path in o.unmoved && id !in o.unmoved[path] ==>
              r == Err(Error(ObservationError, " Tried to move " + path + " with id: $, but it doesn't exist"))
    ensures r.Ok? <==> path in o.unmoved && id in o.unmoved[path]
    ensures r.Ok? ==> r.value.unmoved == o.unmoved[path := o.unmoved[path] - {id}]
    ensures r.Ok? ==> IdsAt(r.value.moved, path) == IdsAt(o.moved, path) + {id} && path in r.value.moved
    ensures r.Ok? ==> forall p :: p != path ==> IdsAt(r.value.moved, p) == IdsAt(o.moved, p)
  {
    if path !in o.unmoved then
      Err(Error(ObservationError, " Tried to move " + path + ", but it doesn't exist"))
    else if id !in o.unmoved[path] then
      Err(Error(ObservationError, " Tried to move " + path + " with id: $, but it doesn't exist"))
    else
      var unmoved := o.unmoved[path := o.unmoved[path] - {id}];
      if path in o.moved then Ok(Observer(o.moved[path := o.moved[path] + {id}], unmoved))
      else Ok(Observer(o.moved[path := {id}], unmoved))
  }

  /** All ids recorded for a path, moved or not. */
  function Tracked(o: Observer, path: string): set<string> {
    IdsAt(o.unmoved, path) + IdsAt(o.moved, path)
  }

  /** No id of a path is both moved and unmoved. */
  predicate Separated(o: Observer) {
    forall p :: p in o.unmoved && p in o.moved ==> o.unmoved[p] * o.moved[p] == {}
  }

  /** A move loses and invents no id and keeps moved and unmoved apart. */
  lemma MoveDataKeepsTracked(o: Observer, path: string, id: string)
    requires MoveData(o, path, id).Ok?
    ensures forall p :: Tracked(MoveData(o, path, id).value, p) == Tracked(o, p)
    ensures Separated(o) ==> Separated(MoveData(o, path, id).value)
  {
  }

  /** An id that was just moved cannot be moved again until it is added anew. */
  lemma MoveDataTwiceFails(o: Observer, path: string, id: string)
    requires MoveData(o, path, id).Ok?
    ensures MoveData(MoveData(o, path, id).value, path, id).Err?
  {
  }

  /** Adding an id and moving it succeeds and leaves it moved and no longer unmoved. */
  lemma AddThenMove(o: Observer, path: string, id: string)
    ensures MoveData(AddUnMovedData(o, path, id), path, id).Ok?
    ensures var r := MoveData(AddUnMovedData(o, path, id), path, id).value;
            id in IdsAt(r.moved, path) && id !in IdsAt(r.unmoved, path)
  {
  }
}
