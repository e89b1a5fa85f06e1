/** A value that may be absent: the null pointer or the missing key of the source. */
module Options {
  datatype Option<+T> = None | Some(value: T)
}
