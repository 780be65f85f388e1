/** Nullable pointers. */
module Options {

  /** A pointer that may be NULL: `None` stands for NULL. */
  datatype Option<T> = None | Some(value: T)
}
