/** An optional value, as the source's `Option` and `None` results. */
module Options {
  datatype Option<+T> = None | Some(value: T)
}
