/** Optional values and results, for the host's nullable payloads, requests that
    throw and the error `onScheduled` raises. */
module Wrappers {

  datatype Option<+T> = None | Some(value: T)

  datatype Result<+R, +E> = Success(value: R) | Failure(error: E)
}
