/** The optional value used wherever the source has `T | null` or an optional field. */
module Options {
  datatype Option<+T> = None | Some(value: T)
}
