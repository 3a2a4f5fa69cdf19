/** A pointer that may be NULL, or a value that may be missing. */
module Options {
  datatype Option<+T> = None | Some(value: T)
}
