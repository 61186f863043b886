/** The optional value returned by a match that may fail. */
module Options {
  datatype Option<+T> = None | Some(value: T)
}
