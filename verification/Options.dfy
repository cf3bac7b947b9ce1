/** Values that may be absent: a missing map key, an SQL NULL, an error return. */
module Options {
  datatype Option<+T> = None | Some(value: T)
}
