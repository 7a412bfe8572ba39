/** The optional value used for a waiter's slot and a session's current waiter. */
module Wrappers {

  datatype Option<+T> = None | Some(value: T)
}
