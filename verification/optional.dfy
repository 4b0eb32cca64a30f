/** A value that may be absent: a null pointer, or a library call that failed. */
module Optional {
  datatype Option<T> = None | Some(value: T)
}
