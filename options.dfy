/** The optional value used in place of a nullable pointer. */
module Options {
  datatype Option<+T> = None | Some(value: T)
}
