/** An optional value: a grid cell that may be empty, a lookup that may find nothing. */
module Options {
  datatype Option<+T> = None | Some(value: T)
}
