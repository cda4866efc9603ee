/** Rust's `Option<T>`, the return type of the bounds-checked accessors and of `long_ext`. */
module Wrappers {

  datatype Option<+T> = None | Some(value: T)

}
