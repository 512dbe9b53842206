/** Failure-carrying result types shared by every module of the merger model. */
module Wrappers {

  /** An optional value; `None` stands for a lookup that found nothing. */
  datatype Option<+T> = None | Some(value: T)

  /** A computation that either succeeds with a value or fails with an error. */
  datatype Result<+R, +E> = Success(value: R) | Failure(error: E) {

    predicate IsFailure() {
      Failure?
    }

    function PropagateFailure<U>(): Result<U, E>
      requires Failure?
    {
      Failure(error)
    }

    function Extract(): R
      requires Success?
    {
      value
    }
  }

  /** Why a computation of the merger aborts: a Rust panic (`assert!`, `unwrap`, `todo!`)
      is not a recoverable error of the library, but the model must still say when it happens. */
  datatype Panic =
    | KeyAlreadyPresent     // an `assert!(map.insert(..).is_none())` or `assert!(set.insert(..))` failed
    | KeyMissing            // an `unwrap()` on a failed map lookup
    | EmptyStack            // an `unwrap()` on popping or peeking an empty stack
    | AssertionFailed       // an `assert_eq!` failed
    | Unimplemented         // a `todo!()` was reached
}
