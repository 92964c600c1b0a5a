/** Small failure-carrying wrappers shared by the other modules. */
module Outcomes {

  /** An optional value; `None` is an absent attribute, name or class. */
  datatype Option<+T> = None | Some(value: T)

  /** The outcome of an operation that the source lets raise an exception. */
  datatype Result<+T, +E> = Success(value: T) | Failure(error: E)
}
