/** An optional value: a read that may fail, a search that may find nothing. */
module Options {
  datatype Option<+T> = None | Some(value: T)
}
