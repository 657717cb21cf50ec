/** The optional value used for partial results (a parse that fails, no keyword found). */
module Wrappers {
  datatype Option<+T> = None | Some(value: T)
}
