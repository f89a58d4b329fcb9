/** The usual optional value, for parsers that can fail. */
module Wrappers {

  datatype Option<+T> = None | Some(value: T)
}
