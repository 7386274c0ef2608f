/** A value that may be missing: null pointers, failed reads and unset submessages. */
module Options {
  datatype Option<+T> = None | Some(value: T)
}
