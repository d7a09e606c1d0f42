/** The optional value used where the JavaScript code yields `null` or `NaN`. */
module Wrappers {
  datatype Option<+T> = None | Some(value: T)
}
