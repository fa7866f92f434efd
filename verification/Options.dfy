/**
 A value or nothing, for searches that may fail and runs the program does not survive.
 */
module Options {
  datatype Option<+T> = None | Some(value: T)
}
