/** Optional values and results with an error message, shared by the
    models of the Python and TypeScript code. */
module Wrappers {

  /** Python's `Optional[T]` / a JavaScript value that may be undefined. */
  datatype Option<T> = None | Some(value: T)

  /** A value, or the message of the error thrown instead. */
  datatype Result<T> = Success(value: T) | Failure(error: string)
}
