/** A value that may be absent: the program's pointers that may be NULL. */
module Optional {
  datatype Option<+T> = None | Some(value: T)
}
