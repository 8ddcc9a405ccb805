/** Small option type shared by the parser and the row pipeline. */
module Wrappers {
  datatype Option<+T> = None | Some(value: T)
}
