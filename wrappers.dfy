/** The Option and Result datatypes the model uses for nullable columns and for
    operations that throw in the source. */
module Wrappers {

  /** A nullable value (a SQL `NULL` or a JavaScript `undefined` is `None`). */
  datatype Option<+T> = None | Some(value: T)

  /** A value, or the error an operation would have thrown. */
  datatype Result<+R, +E> = Success(value: R) | Failure(error: E)
}
