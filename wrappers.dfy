/** Option and Result, the two failure-carrying types the imprint code uses
    (Rust's `Option` and `io::Result`). */
module Wrappers {

  datatype Option<+T> = None | Some(value: T)

  datatype Result<+R, +E> = Success(value: R) | Failure(error: E)
}
