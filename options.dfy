/** The optional value used where the C code returns a pointer that may be NULL. */
module Options {
  datatype Option<+T> = None | Some(value: T)
}
