/** The result of an operation that the C code reports with a pointer that may be null. */
module Options {
  datatype Option<+T> = None | Some(value: T)
}
