/** A value that may be missing: the code's NULL pointers, -1 indices and failure returns. */
module Options {
  datatype Option<+T> = None | Some(value: T)
}
