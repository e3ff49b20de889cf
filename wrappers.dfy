/** The optional-value wrapper used for JavaScript properties that may be `undefined`. */
module Wrappers {

  datatype Option<+T> = None | Some(value: T)
}
