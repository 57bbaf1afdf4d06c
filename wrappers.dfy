/** Optional values and error-or-value results, used for JavaScript's `null`
    and for the validation failures that the component reports with `alert`. */
module Wrappers {

  datatype Option<+T> = None | Some(value: T)

  datatype Result<+T, +E> = Success(value: T) | Failure(error: E)
}
