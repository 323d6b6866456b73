module Options {
  /** A pointer that may be null. */
  datatype Option<T> = None | Some(value: T)
}
