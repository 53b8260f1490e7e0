/** Optional values and results with an error side, used where the Ruby code
    returns nil, aborts the process or lets an exception escape. */
module Wrappers {

  datatype Option<+T> = None | Some(value: T)

  datatype Result<+T, +E> = Success(value: T) | Failure(error: E)
}
