/** The optional values used throughout the model: SQL's NULL and Go's nil pointer. */
module Options {
  datatype Option<+T> = None | Some(value: T)
}
