/** The usual Some/None wrapper, used for values that may be missing. */
module Optional {
  datatype Option<+T> = None | Some(value: T)
}
