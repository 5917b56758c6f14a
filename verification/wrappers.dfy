/** Optional values and fallible results shared by every module of the model. */
module Wrappers {

  /** A nullable reference: `None` plays the role of a null pointer. */
  datatype Option<+T> = None | Some(value: T)

  /** Why an operation of the model could not complete. */
  datatype Fault =
    | NullDereference   // a pointer the source dereferences is null or dangling
    | AssertionFailed   // one of the source's `assert`s would fire
    | OutOfFuel         // a walk took more steps than the tree has nodes
    | Truncated         // the input is too short to hold what is read from it

  /** The outcome of an operation that may fail. */
  datatype Result<+T> = Success(value: T) | Failure(fault: Fault) {
    predicate IsFailure() {
      Failure?
    }

    function PropagateFailure<U>(): Result<U>
      requires Failure?
    {
      Failure(fault)
    }

    function Extract(): T
      requires Success?
    {
      value
    }
  }
}
