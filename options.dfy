/** The optional value used wherever the dashboard meets `None` or a call that may fail. */
module Options {
  datatype Option<+T> = None | Some(value: T)
}
