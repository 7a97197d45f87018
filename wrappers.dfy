/** Optional values and results with an error: stand-ins for Python's None and for
    the exceptions the modelled code raises or catches. */
module Wrappers {

  datatype Option<+T> = None | Some(value: T)

  datatype Result<+T, +E> = Success(value: T) | Failure(error: E)
}
