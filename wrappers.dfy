/** Optional values, results that carry an error, and pass/fail outcomes.
    Python's `None` and raised exceptions are modelled with these. */
module Wrappers {

  datatype Option<+T> = None | Some(value: T)

  datatype Result<+R, +E> = Success(value: R) | Failure(error: E)

  datatype Outcome<+E> = Pass | Fail(error: E)
}
