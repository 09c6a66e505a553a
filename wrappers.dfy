/** The optional value used for parses that may fail and selections that may be empty. */
module Wrappers {

  datatype Option<+T> = None | Some(value: T)
}
