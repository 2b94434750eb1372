/** The optional and fallible values the planner works with, in the shape of
    Rust's `Option` and `Result`. */
module Wrappers {

  /** An optional value: a missing catalogue entry, an absent filter, an empty cell. */
  datatype Option<+T> = None | Some(value: T)

  /** The outcome of a planning call: a value, or the reason the input was refused. */
  datatype Result<+T, +E> = Ok(value: T) | Err(error: E)
}
