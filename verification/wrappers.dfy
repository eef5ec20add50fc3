/** Failure-carrying values used across the model in place of thrown exceptions
    and `undefined`. */
module Wrappers {

  /** A value that may be absent (JavaScript's `undefined` / `null`). */
  datatype Option<+T> = None | Some(value: T) {

    /** Returns the value or the given default when absent. */
    function GetOr(default: T): T {
      match this
      case Some(v) => v
      case None => default
    }
  }

  /** Either a computed value or the error that a JavaScript `throw` would have carried. */
  datatype Result<+R, +E> = Success(value: R) | Failure(error: E) {

    predicate IsFailure() {
      Failure?
    }

    function PropagateFailure<U>(): Result<U, E>
      requires Failure?
    {
      Failure(error)
    }

    function Extract(): R
      requires Success?
    {
      value
    }
  }

  /** Runs the steps in order and stops at the first failure, as a loop whose
      body may throw does: all values when every step succeeds, otherwise the
      error of the first step that failed. */
  function Sequence<R, E>(rs: seq<Result<R, E>>): (r: Result<seq<R>, E>)
    ensures r.Success? ==> |r.value| == |rs| && forall i :: 0 <= i < |rs| ==> rs[i] == Success(r.value[i])
    ensures r.Failure? ==> exists i :: 0 <= i < |rs| && rs[i] == Failure(r.error) && forall j :: 0 <= j < i ==> rs[j].Success?
  {
    if |rs| == 0 then Success([])
    else
      match rs[0]
      case Failure(e) => Failure(e)
      case Success(v) =>
        match Sequence(rs[1..])
        case Failure(e) =>
          ghost var i :| 0 <= i < |rs[1..]| && rs[1..][i] == Failure(e) && forall j :: 0 <= j < i ==> rs[1..][j].Success?;
          assert rs[i + 1] == Failure(e);
          Failure(e)
        case Success(vs) => Success([v] + vs)
  }
}
