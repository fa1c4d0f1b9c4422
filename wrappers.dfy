/** Optional values and results with an error, used for JavaScript's `null`/`undefined`
    and for the front end's failure exits. */
module Wrappers {

  datatype Option<+T> = None | Some(value: T)

  datatype Result<+R, +E> = Success(value: R) | Failure(error: E)
}
