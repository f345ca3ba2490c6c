/** The optional value used by every module: a lookup that may find nothing. */
module Options {
  datatype Option<+T> = None | Some(value: T)
}
