/** Values that may be absent, for the source's NULL results. */
module Options {
  datatype Option<+T> = None | Some(value: T)
}
