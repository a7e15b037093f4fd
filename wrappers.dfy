/** Option stands for a nullable Go pointer, Result for a `(value, error)` pair in
    which exactly one side is meaningful. */
module Wrappers {

  datatype Option<+T> = None | Some(value: T)

  datatype Result<+T, +E> = Success(value: T) | Failure(error: E)
}
