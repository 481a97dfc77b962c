/** The two outcomes of a lookup. */
module Options {
  datatype Option<+T> = None | Some(value: T)
}
