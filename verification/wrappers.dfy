/** Failure-compatible wrappers used across the model: a value that may be
    absent (a null reference in the original program) and a computation that
    may fail with an error. */
module Wrappers {

  /** `None` stands for a null reference. */
  datatype Option<+T> = None | Some(value: T)

  datatype Result<+R, +E> = Success(value: R) | Failure(error: E)
}
