/** The optional value used wherever the screens may produce nothing. */
module Wrappers {

  datatype Option<+T> = None | Some(value: T)
}
