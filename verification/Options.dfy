/** The optional value used wherever the program returns a nil pointer or a nil error. */
module Options {
  datatype Option<+T> = None | Some(value: T)
}
