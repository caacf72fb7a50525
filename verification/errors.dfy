/**
 * The single error taxonomy of the translator: every failure carries a short
 * bracketed tag and a human-readable message (DotStringsTranslatorException).
 * Operations that can fail return a `Result`.
 */
module Errors {

  datatype Option<+T> = None | Some(value: T)

  /** A tagged error, e.g. Error("[FORMAT ERROR]", "Tried to extract name from: ...") */
  datatype Error = Error(tag: string, message: string)

  datatype Result<+T> = Ok(value: T) | Err(error: Error) {
    predicate IsFailure() {
      Err?
    }

    function PropagateFailure<U>(): Result<U>
      requires Err?
    {
      Err(error)
    }

    function Extract(): T
      requires Ok?
    {
      value
    }
  }

  /** f applied to each of xs, in order; the first error ends the walk and is the result. */
  function MapResult<A, B>(f: A -> Result<B>, xs: seq<A>): (r: Result<seq<B>>)
    ensures r.Ok? ==> |r.value| == |xs|
    decreases |xs|
  {
    if |xs| == 0 then Ok([])
    else
      match f(xs[0])
      case Err(e) => Err(e)
      case Ok(head) =>
        match MapResult(f, xs[1..])
        case Err(e) => Err(e)
        case Ok(tail) => Ok([head] + tail)
  }

  /** The walk succeeds exactly when every element succeeds, and then holds their values in order. */
  lemma {:induction false} MapResultOk<A, B>(f: A -> Result<B>, xs: seq<A>)
    ensures MapResult(f, xs).Ok? <==> forall i :: 0 <= i < |xs| ==> f(xs[i]).Ok?
    ensures MapResult(f, xs).Ok? ==> forall i :: 0 <= i < |xs| ==> MapResult(f, xs).value[i] == f(xs[i]).value
    decreases |xs|
  {
    if |xs| > 0 {
      MapResultOk(f, xs[1..]);
      assert forall i :: 1 <= i < |xs| ==> xs[i] == xs[1..][i - 1];
    }
  }

  /** A failed walk reports the error of the first element that fails; every element before it succeeded. */
  lemma {:induction false} MapResultFirstError<A, B>(f: A -> Result<B>, xs: seq<A>) returns (i: nat)
    requires MapResult(f, xs).Err?
    ensures i < |xs| && f(xs[i]) == Err(MapResult(f, xs).error)
    ensures forall j :: 0 <= j < i ==> f(xs[j]).Ok?
    decreases |xs|
  {
    if f(xs[0]).Err? {
      i := 0;
    } else {
      var k := MapResultFirstError(f, xs[1..]);
      i := k + 1;
      assert xs[i] == xs[1..][k];
      assert forall j :: 1 <= j < i ==> xs[j] == xs[1..][j - 1];
    }
  }

  /** Walking a[k..] after an error-free a[..k], the error at a[k] ends the walk with that error. */
  lemma {:induction false} MapResultStopsAt<A, B>(f: A -> Result<B>, xs: seq<A>, k: nat)
    requires k < |xs| && f(xs[k]).Err?
    requires forall j :: 0 <= j < k ==> f(xs[j]).Ok?
    ensures MapResult(f, xs) == Err(f(xs[k]).error)
    decreases k
  {
    if k > 0 {
      var tail := xs[1..];
      forall j | 0 <= j < k - 1
        ensures f(tail[j]).Ok?
      {
        assert tail[j] == xs[j + 1];
      }
      assert tail[k - 1] == xs[k];
      MapResultStopsAt(f, tail, k - 1);
      assert f(xs[0]).Ok?;
    }
  }

  const FileNotFound := "[FILE NOT FOUND]"
  const FormatError := "[FORMAT ERROR]"
  const MatchingError := "[MATCHING ERROR]"
  const IllegalConfig := "[ILLEGAL CONFIG]"
  const IllegalArgument := "[ILLEGAL ARGUMENT]"
  const ObservationError := "[OBSERVATION ERROR]"
}
