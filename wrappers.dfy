/** The optional value used for "not found" and "raised" outcomes. */
module Wrappers {

  datatype Option<+T> = None | Some(value: T)
}
