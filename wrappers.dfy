/** Option and Result types shared by the stages. */
module Wrappers {

  /** An optional value: `None` stands for Python's `None` or a pandas missing value. */
  datatype Option<+T> = None | Some(value: T)

  /** The outcome of a stage that may stop with an error the source does not catch. */
  datatype Result<+T, +E> = Success(value: T) | Failure(error: E)
}
