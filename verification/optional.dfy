/** The optional value used wherever the source can raise instead of producing one. */
module Optional {
  datatype Option<T> = None | Some(value: T)
}
