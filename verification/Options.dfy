/** A value that may be missing, as the C code says with NULL or 0. */
module Options {
  datatype Option<T> = None | Some(value: T)
}
