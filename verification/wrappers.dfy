/** Optional values and Go's two-result return convention. */
module Wrappers {

  /** A value that may be absent; also stands for Go's nil-or-error `error`. */
  datatype Option<+T> = None | Some(value: T)

  /** A Go `(value, error)` return pair. `err` is `None` for a nil error; Go
      functions in this system return a zero value beside every non-nil error. */
  datatype Returns<+T, +E> = Returns(value: T, err: Option<E>)
}
