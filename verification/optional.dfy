/** Rust's `Option<T>`. */
module Optional {

  datatype Option<T> = None | Some(value: T)
}
