/** The optional value used throughout the model: a JavaScript lookup that may give `undefined`. */
module Wrappers {

  datatype Option<T> = None | Some(value: T)
}
