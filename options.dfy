/** An optional value, for command-line options that may be absent. */
module Options {

  datatype Option<+T> = None | Some(value: T)
}
