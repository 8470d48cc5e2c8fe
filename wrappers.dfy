/** The optional value used wherever the JavaScript code tests a value for
    `null`, `undefined` or falsiness. */
module Wrappers {

  datatype Option<+T> = None | Some(value: T)
}
