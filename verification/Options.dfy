// The usual "maybe a value" datatype: a NULL pointer, a free slot, a lookup that finds nothing.
module Options {
  datatype Option<+T> = None | Some(value: T)
}
