/** Optional values and success-or-error results, standing for Python's
    `None` and for the exceptions the converter raises. */
module Wrappers {

  datatype Option<+T> = None | Some(value: T)

  datatype Result<+T, +E> = Success(value: T) | Failure(error: E)
}
