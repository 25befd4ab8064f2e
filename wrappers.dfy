/** Nullable values and Java exceptions, as values. */
module Wrappers {

  /** A Java reference that may be null: None stands for null. */
  datatype Option<+T> = None | Some(value: T)

  /** The unchecked exceptions the query engine can raise at run time. */
  datatype Fault =
    | NullPointerException
    | IndexOutOfBoundsException
    | IllegalArgumentException

  /** A computation that either returns normally or throws. */
  datatype Result<+T> = Success(value: T) | Failure(fault: Fault) {

    predicate IsFailure() {
      Failure?
    }

    function PropagateFailure<U>(): Result<U>
      requires Failure?
    {
      Failure(fault)
    }

    function Extract(): T
      requires Success?
    {
      value
    }
  }
}
