/** A value that may be missing: what the C code says with a null pointer, a count
    of zero or an untouched out-parameter. */
module Wrappers {
  datatype Option<+T> = None | Some(value: T)
}
