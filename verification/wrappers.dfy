/** The absent-or-present value used for local-storage slots and catalog look-ups. */
module Wrappers {

  datatype Option<+T> = None | Some(value: T)
}
