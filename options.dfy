/** The optional value used for a cell's `int?` displayed value. */
module Options {
  datatype Option<T> = None | Some(value: T)
}
