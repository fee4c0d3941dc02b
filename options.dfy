/** An optional value, used where the source signals "no result" by a `false` return or `None`. */
module Options {
  datatype Option<+T> = None | Some(value: T)
}
