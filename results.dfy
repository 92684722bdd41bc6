/** Failure-compatible wrappers used in place of Python's exceptions. */
module Results {

  /** A value that may be missing, used where the source raises `ValueError`. */
  datatype Option<+T> = None | Some(value: T) {
    predicate IsFailure() { None? }

    function PropagateFailure<U>(): Option<U>
      requires None?
    {
      None
    }

    function Extract(): T
      requires Some?
    {
      value
    }
  }

  /** A value or the reason it could not be produced. */
  datatype Result<+T, +E> = Success(value: T) | Failure(error: E) {
    predicate IsFailure() { Failure? }

    function PropagateFailure<U>(): Result<U, E>
      requires Failure?
    {
      Failure(error)
    }

    function Extract(): T
      requires Success?
    {
      value
    }
  }

  /** Turns a missing value into a failure that carries `error`. */
  function Need<T, E>(o: Option<T>, error: E): (r: Result<T, E>)
    ensures r.Success? <==> o.Some?
    ensures r.Success? ==> r.value == o.value
    ensures r.Failure? ==> r.error == error
  {
    match o
    case Some(v) => Success(v)
    case None => Failure(error)
  }
}
