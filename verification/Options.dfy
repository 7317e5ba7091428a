/** A value that may be absent: a null pointer, a failed lookup, a step that could not be taken. */
module Options {
  datatype Option<+T> = None | Some(value: T)
}
