/** The conventional Some/None type, in place of a value that may be missing. */
module Options {
  datatype Option<+T> = None | Some(value: T)
}
