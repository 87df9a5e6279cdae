/** The usual Some/None datatype, used for remote responses that may be absent. */
module Optional {

  datatype Option<+T> = None | Some(value: T)
}
