/** Option, Result and Outcome: the cache's unbounded limit, the optional
    bounds of retrieve, and the configuration error of the limit checks. */
module Wrappers {

  datatype Option<+T> = None | Some(value: T)

  datatype Result<+R, +E> = Success(value: R) | Failure(error: E)

  datatype Outcome<+E> = Pass | Fail(error: E)
}
