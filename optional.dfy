/** An optional value: a byte that may be absent, a hook that may not be supplied. */
module Optional {
  datatype Option<+T> = None | Some(value: T)
}
