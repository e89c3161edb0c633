/** The "value or null" of the source, written as an explicit optional type. */
module Options {
  datatype Option<+T> = None | Some(value: T)
}
