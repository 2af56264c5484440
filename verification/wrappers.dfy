/** Failure-carrying values used in place of Go's `(value, error)` pairs and `nil` pointers. */
module Wrappers {

  /** An optional value: `None` stands for a Go `nil` pointer. */
  datatype Option<+T> = None | Some(value: T)

  /** A value or an error: Go's `(v, nil)` is `Success(v)`, `(nil, err)` is `Failure(err)`. */
  datatype Result<+R, +E> = Success(value: R) | Failure(error: E)

  /** A bare Go `error` return: `Pass` is `nil`. */
  datatype Outcome<+E> = Pass | Fail(error: E)
}
