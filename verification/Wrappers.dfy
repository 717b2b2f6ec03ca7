module Wrappers {

  /* A pointer that may be NULL, or a value that may be absent. */
  datatype Option<+T> = None | Some(value: T)
}
