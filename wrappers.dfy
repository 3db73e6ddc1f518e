/** Optional values and success-or-error results, used wherever the Java code
    returns `Optional`, a nullable value, or throws an exception the caller catches. */
module Wrappers {

  datatype Option<+T> = None | Some(value: T)

  datatype Result<+T, +E> = Success(value: T) | Failure(error: E)
}
