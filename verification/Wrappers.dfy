/** The optional value that stands for a regular-expression search that may find nothing. */
module Wrappers {

  datatype Option<+T> = None | Some(value: T)

}
