/** The optional value used for conversions that Python would report by raising ValueError. */
module Options {
  datatype Option<+T> = None | Some(value: T)
}
