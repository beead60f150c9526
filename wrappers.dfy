/** Optional values and results shared by the indicator model.
    `None` plays the role of a NaN cell of a pandas column. */
module Wrappers {

  datatype Option<+T> = None | Some(value: T)

  /** The outcome of a step that can fail with an error value. */
  datatype Result<+R, +E> = Success(value: R) | Failure(error: E)
}
