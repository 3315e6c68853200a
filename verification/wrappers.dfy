/** Failure-carrying result types shared by the pathway-adherence model. */
module Wrappers {

  /** A value that may be absent: a dictionary miss, a step that matched nothing. */
  datatype Option<+T> = None | Some(value: T)

  /** Either a value or the error the Python code would have raised instead. */
  datatype Result<+R, +E> = Success(value: R) | Failure(error: E)
}
