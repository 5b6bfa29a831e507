/** The absent-or-present value used where the application passes `undefined` or `null`. */
module Wrappers {

  datatype Option<+T> = None | Some(value: T)
}
