/** Option and Result: the failure-carrying values that stand for Go's
    `(value, error)` returns and `sql.ErrNoRows`. */
module Wrappers {

  datatype Option<+T> = None | Some(value: T)

  datatype Result<+T, +E> = Success(value: T) | Failure(error: E)
}
