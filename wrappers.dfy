/** Failure-carrying values shared by the model. */
module Wrappers {

  /** Rust's `Option<T>`. */
  datatype Option<+T> = None | Some(value: T)

  /** How a call of a Rust function ends: it returns a value, or it panics
      (an `unwrap` on a `None` or an `Err`) and aborts the thread. */
  datatype Completion<+T> = Returned(value: T) | Panicked
}
