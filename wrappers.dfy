/** The optional value that Rust's `Iterator::next` and `slice::get` return. */
module Wrappers {

  datatype Option<+T> = None | Some(value: T)
}
