/** The usual optional-value datatype, used for "maybe absent" inputs and results. */
module Wrappers {

  datatype Option<+T> = None | Some(value: T)
}
