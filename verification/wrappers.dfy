/** Option, standing in for the values parse.c returns that may be NULL. */
module Wrappers {
  datatype Option<+T> = None | Some(value: T)
}
