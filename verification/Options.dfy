/** Results that may be absent: the source's null pointers and error values. */
module Options {
  datatype Option<+T> = None | Some(value: T)
}
