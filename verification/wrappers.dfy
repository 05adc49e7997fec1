/** Optional values and `(T, error)`-shaped results, used in place of Go's nil and error pairs. */
module Wrappers {

  /** An optional value; `None` stands for Go's nil. */
  datatype Option<+T> = None | Some(value: T)

  /** Either a successful value or an error, the shape of a Go `(T, error)` return. */
  datatype Result<+T, +E> = Success(value: T) | Failure(error: E)
}
