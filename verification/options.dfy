/** An optional value, used where the source signals "not found" or "failed". */
module Options {
  datatype Option<+T> = None | Some(value: T)
}
