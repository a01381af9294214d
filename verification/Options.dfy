/** A value that may be absent: a null pointer, a failed call, an empty optional field. */
module Options {
  datatype Option<+T> = None | Some(value: T)
}
