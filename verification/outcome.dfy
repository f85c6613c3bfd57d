/** Optional values and results with an error, for the places where the
    engine caches a value or where the source raises instead of returning. */
module Outcome {

  datatype Option<+T> = None | Some(value: T)

  datatype Result<+T, +E> = Success(value: T) | Failure(error: E)
}
