/** The optional value used for searches that may fail and for the
    evaluation step, which may throw. */
module Wrappers {

  datatype Option<+T> = None | Some(value: T)
}
