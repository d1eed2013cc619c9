/** A value that may be missing, shared by the models. */
module Options {
  datatype Option<+T> = None | Some(value: T)
}
