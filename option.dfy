/** The source's `null`/-1 "nothing here" results, as a value. */
module Optional {
  datatype Option<+T> = None | Some(value: T)
}
