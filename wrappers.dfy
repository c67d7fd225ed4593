/** The optional value used wherever the bound code returns Rust's `Option`. */
module Wrappers {
  datatype Option<+T> = None | Some(value: T)
}
