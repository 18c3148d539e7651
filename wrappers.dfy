/** The optional value returned by the fallible conversions (Rust's `Option`). */
module Wrappers {

  datatype Option<+T> = None | Some(value: T)
}
