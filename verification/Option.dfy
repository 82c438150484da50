/** A pointer that may be NULL. */
module Option {
  datatype Option<+T> = None | Some(value: T)
}
