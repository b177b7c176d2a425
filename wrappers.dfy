/** Optional values and results with an error, used for the source's
    `re.match` results (a match object or None) and its raised errors. */
module Wrappers {

  datatype Option<+T> = None | Some(value: T)

  datatype Result<+R, +E> = Success(value: R) | Failure(error: E)
}
