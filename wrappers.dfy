/** The optional value that stands for a C pointer which may be NULL, or a lookup that may fail. */
module Wrappers {

  datatype Option<+T> = None | Some(value: T)
}
