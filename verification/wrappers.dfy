/** Failure-compatible wrappers used by every service of the booking system:
    an optional value (Java's nullable references) and a result that either
    carries a value or the error the source would have thrown. */
module Wrappers {

  /** A nullable reference: `None` stands for Java's `null`. */
  datatype Option<+T> = None | Some(value: T) {
    predicate IsFailure() { None? }

    function PropagateFailure<U>(): Option<U>
      requires None?
    {
      None
    }

    function Extract(): T
      requires Some?
    {
      value
    }

    function GetOr(default: T): T {
      match this
      case Some(v) => v
      case None => default
    }
  }

  /** The outcome of an operation that may throw: `Ok` carries the returned
      value, `Err` the exception. */
  datatype Result<+T, +E> = Ok(value: T) | Err(error: E) {
    predicate IsFailure() { Err? }

    function PropagateFailure<U>(): Result<U, E>
      requires Err?
    {
      Err(error)
    }

    function Extract(): T
      requires Ok?
    {
      value
    }
  }

  /** A check that either passes or fails with an error. */
  datatype Outcome<+E> = Pass | Fail(error: E) {
    predicate IsFailure() { Fail? }

    function PropagateFailure<U>(): Result<U, E>
      requires Fail?
    {
      Err(error)
    }
  }

  /** `:- Need(c, e)` fails with `e` unless `c` holds. */
  function Need<E>(condition: bool, error: E): (o: Outcome<E>)
    ensures o.Pass? <==> condition
  {
    if condition then Pass else Fail(error)
  }
}
