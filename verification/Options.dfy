/** A value that may be missing: an abort, a failed read, a pointer or index not set. */
module Options {
  datatype Option<+T> = None | Some(value: T)
}
