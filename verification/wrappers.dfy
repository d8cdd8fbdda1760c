/** The optional-value datatype used for the operations that can fail
    (a malformed Base64 text, a line with no percentage in it). */
module Wrappers {

  datatype Option<+T> = None | Some(value: T)
}
