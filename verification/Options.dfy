/** A value that may be missing, as a NULL or None may be. */
module Options {
  datatype Option<+T> = None | Some(value: T)
}
