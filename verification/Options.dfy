/** The absent-or-present result shared by the searches. */
module Options {
  datatype Option<+T> = None | Some(value: T)
}
