/** A value or none: what stands for a null pointer, a missing entry or a failed call. */
module Options {
  datatype Option<+T> = None | Some(value: T)
}
