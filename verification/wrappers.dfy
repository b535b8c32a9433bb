/** The optional value returned by lookups that can come up empty. */
module Wrappers {

  datatype Option<+T> = None | Some(value: T)
}
