/** A value that may be absent: what a regular-expression match or a parse returns. */
module Wrappers {

  datatype Option<+T> = None | Some(value: T)
}
