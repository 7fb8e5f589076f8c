/** A value that may be missing: SQL NULL, a thrown error, or an absent argument. */
module Options {
  datatype Option<+T> = None | Some(value: T)
}
