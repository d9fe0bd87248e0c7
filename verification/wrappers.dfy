/** `Option`, `Result` and `Outcome`, used to model a Java reference that
    may be null or a lookup that may miss (`Option`), a call that either
    returns a value or throws (`Result`), and a call that returns nothing but
    may throw (`Outcome`). */
module Wrappers {

  datatype Option<+T> = None | Some(value: T) {

    /** The value, or `default` when there is none. */
    function GetOr(default: T): (v: T) {
      match this
      case Some(v) => v
      case None => default
    }
  }

  datatype Result<+R, +E> = Success(value: R) | Failure(error: E) {

    /** Applies `f` to a successful value and passes a failure through. */
    function MapValue<U>(f: R -> U): (r: Result<U, E>)
      ensures r.Success? <==> Success?
      ensures Success? ==> r.value == f(value)
      ensures Failure? ==> r.error == error
    {
      match this
      case Success(v) => Success(f(v))
      case Failure(e) => Failure(e)
    }
  }

  datatype Outcome<+E> = Pass | Fail(error: E)
}
