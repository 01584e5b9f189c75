/** The optional value used wherever the source has `undefined` or `null` as a possible answer. */
module Options {
  datatype Option<+T> = None | Some(value: T)
}
