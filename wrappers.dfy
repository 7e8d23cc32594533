/** Failure-compatible values returned by the grid's accessors. */
module Wrappers {

  /** Rust's `Option<T>`. */
  datatype Option<T> = None | Some(value: T)

  /** Rust's `Result<(), ()>`: the grid's setters report success or an
      out-of-range cell and carry nothing else. */
  datatype Outcome = Ok | Err
}
