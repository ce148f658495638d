/** The optional value used where the modelled Java code throws or returns nothing. */
module Wrappers {

  datatype Option<+T> = None | Some(value: T)
}
