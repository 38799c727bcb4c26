/** An optional value: a field that may be missing, a call that may fail. */
module Wrappers {

  datatype Option<+T> = None | Some(value: T)
}
