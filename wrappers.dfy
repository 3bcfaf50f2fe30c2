/** Failure-carrying values used to model the exceptions the library throws. */
module Wrappers {

  /** An optional value; `None` also stands for Java's NaN where a ratio is 0/0. */
  datatype Option<+T> = None | Some(value: T)

  /** The value of an operation that either succeeds or throws. */
  datatype Result<+R, +E> = Success(value: R) | Failure(error: E)

  /** The outcome of an operation that returns nothing or throws. */
  datatype Outcome<+E> = Pass | Fail(error: E)
}
