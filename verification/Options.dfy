/** A value that may be missing: a C pointer that may be NULL, or an out-parameter that may be left unset. */
module Options {
  datatype Option<+T> = None | Some(value: T)
}
