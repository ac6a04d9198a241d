/** The Some/None datatype, used for a selection slot that may hold no tile. */
module Wrappers {

  datatype Option<+T> = None | Some(value: T)
}
