/** Option and Result: the absent value (`undefined` from a failed lookup) and a computation
    that either yields a value or throws. */
module Wrappers {

  datatype Option<+T> = None | Some(value: T)

  datatype Result<+R, +E> = Success(value: R) | Failure(error: E)
}
