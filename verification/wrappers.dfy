/** Rust's `Option`, the absence marker every lookup of the registry returns. */
module Wrappers {

  datatype Option<+T> = None | Some(value: T)

}
