/** The conventional Some/None datatype, used for a lookup that can fail. */
module Wrappers {

  datatype Option<+T> = None | Some(value: T)
}
