/** The absent-or-present value used wherever the source yields `None` or raises. */
module Options {
  datatype Option<+T> = None | Some(value: T)
}
