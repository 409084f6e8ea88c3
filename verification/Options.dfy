/** The conventional optional value, used wherever the Go code has a nilable handle or result. */
module Options {
  datatype Option<+T> = None | Some(value: T)
}
