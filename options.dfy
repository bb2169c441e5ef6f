/** The usual optional value, for "not found" and "not present" results. */
module Options {

  datatype Option<+T> = None | Some(value: T)
}
