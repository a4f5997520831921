/** The optional value used where the source returns `None` or a missing entry. */
module Options {
  datatype Option<T> = None | Some(value: T)
}
