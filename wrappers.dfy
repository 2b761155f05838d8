/** Option and Result, the two failure-carrying shapes the Go code expresses
    with nil pointers and `error` return values. */
module Wrappers {

  /** A value that may be absent: Go's nil pointer or nil slice. */
  datatype Option<+T> = None | Some(value: T)

  /** Either a value or the error the Go function returns beside it. */
  datatype Result<+T, +E> = Ok(value: T) | Err(error: E)
}
