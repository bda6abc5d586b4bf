/** Failure-compatible wrappers used across the model: a nullable Java
    reference becomes an `Option`, a call that may throw becomes a `Result`
    whose error is the Java exception it would raise. */
module Wrappers {

  /** A Java reference that may be null. */
  datatype Option<+T> = None | Some(value: T) {
    predicate IsFailure() { None? }

    function PropagateFailure<U>(): Option<U>
      requires None?
    {
      None
    }

    function Extract(): T
      requires Some?
    {
      value
    }
  }

  /** The outcome of a Java call that either returns a value or throws. */
  datatype Result<+T, +E> = Success(value: T) | Failure(error: E) {
    predicate IsFailure() { Failure? }

    function PropagateFailure<U>(): Result<U, E>
      requires Failure?
    {
      Failure(error)
    }

    function Extract(): T
      requires Success?
    {
      value
    }
  }

  /** The outcome of a Java `void` call that may throw. */
  datatype Outcome<+E> = Pass | Fail(error: E) {
    predicate IsFailure() { Fail? }

    function PropagateFailure<U>(): Result<U, E>
      requires Fail?
    {
      Failure(error)
    }
  }

  /** The unchecked Java exceptions the modelled code throws, with their messages. */
  datatype Exception =
    | IllegalArgument(message: string)
    | IllegalState(message: string)
    | NullPointer(message: string)

  /** `Objects.requireNonNull(x, message)`. */
  function RequireNonNull<T>(x: Option<T>, message: string): (r: Result<T, Exception>)
    ensures x.Some? <==> r.Success?
    ensures r.Success? ==> r.value == x.value
    ensures r.Failure? ==> r.error == NullPointer(message)
  {
    match x
    case Some(v) => Success(v)
    case None => Failure(NullPointer(message))
  }
}
