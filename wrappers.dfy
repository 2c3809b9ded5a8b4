/** The optional value used wherever the source has `null`, a missing key or a caught exception. */
module Wrappers {

  datatype Option<+T> = None | Some(value: T)

}
