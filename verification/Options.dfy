/** A value that may be missing: a NULL pointer, a scan that finds nothing. */
module Options {
  datatype Option<+T> = None | Some(value: T)
}
