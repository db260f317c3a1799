/// The optional value Rust writes as `Option<T>`.
module Wrappers {

  datatype Option<+T> = None | Some(value: T)
}
