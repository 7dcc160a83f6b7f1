/** Optional values and error-carrying results, for the places where the PHP code
    leaves a variable unset or throws. */
module Wrappers {

  datatype Option<+T> = None | Some(value: T)

  datatype Result<+R, +E> = Success(value: R) | Failure(error: E)
}
