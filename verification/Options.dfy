/** A value that may be missing: NULL results and refused inputs of the C code. */
module Options {
  datatype Option<+T> = Some(value: T) | None
}
