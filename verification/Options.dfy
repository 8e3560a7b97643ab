/** A value that may be absent: the C code's pointer that may be NULL. */
module Options {
  datatype Option<+T> = None | Some(value: T)
}
