// A value or nothing: the source's pointers that may be NULL.
module Options {
  datatype Option<+T> = None | Some(value: T)
}
