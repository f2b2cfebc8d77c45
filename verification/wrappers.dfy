/** The Some/None datatype used for "a value or nothing" results. */
module Wrappers {

  datatype Option<+T> = None | Some(value: T)
}
