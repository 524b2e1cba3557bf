// A value or nothing: null pointers, failed lookups and reads that deliver nothing.
module Options {
  datatype Option<+T> = None | Some(value: T)
}
