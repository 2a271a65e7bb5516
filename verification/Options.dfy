/** A value that may be missing: the source's null pointers, -1 and error returns. */
module Options {
  datatype Option<T> = None | Some(value: T)
}
