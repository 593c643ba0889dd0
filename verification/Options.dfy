/** A value that may be missing: where the repository uses a null pointer or a flag. */
module Options {
  datatype Option<+T> = None | Some(value: T)
}
