/** The option type used throughout: a value, or nothing where the program reports an error. */
module Wrappers {
  datatype Option<+T> = None | Some(value: T)
}
