/** The optional value used wherever the source returns `undefined`. */
module Wrappers {

  datatype Option<+T> = None | Some(value: T)

}
