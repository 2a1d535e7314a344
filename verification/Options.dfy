/** A value that may be absent: None of Python, NULL of a database column. */
module Options {
  datatype Option<T> = None | Some(value: T)
}
