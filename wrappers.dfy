/** Wrappers shared by the model: a nullable value and an
    operation that either returns a value or throws. */
module Wrappers {

  /** A reference or nullable value: `None` stands for `null`. */
  datatype Option<+T> = None | Some(value: T)

  /** The outcome of an operation that returns `value` or throws `error`. */
  datatype Result<+T, +E> = Success(value: T) | Failure(error: E)
}
