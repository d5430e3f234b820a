/** Values that may be absent: nullable columns and missing rows. */
module Options {
  datatype Option<T> = None | Some(value: T)
}
