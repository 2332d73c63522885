/** The usual optional value, shared by every part of the model. */
module Options {
  datatype Option<+T> = None | Some(value: T)
}
