/** The optional-value datatype used where the tool has a "not found" or
    "could not open" outcome. */
module Wrappers {

  datatype Option<+T> = None | Some(value: T)
}
