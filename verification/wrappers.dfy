/** The optional value used where the source reads a property that may be missing. */
module Wrappers {

  datatype Option<+T> = None | Some(value: T)
}
