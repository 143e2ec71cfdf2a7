/** The value that C code writes as a possibly null pointer. */
module Options {
  datatype Option<+T> = None | Some(value: T)
}
