/** The optional value used wherever the PHP code returns null or leaves an array key unset. */
module Wrappers {

  datatype Option<+T> = None | Some(value: T)
}
