/** Failure-carrying values shared by the splitter and the allocator. */
module Wrappers {

  datatype Option<+T> = None | Some(value: T)

  /** The outcome of an operation that may fail, like Rust's `Result`. */
  datatype Result<+T, +E> = Ok(value: T) | Err(error: E)
}
