/** The optional value used where the program returns or stores a null reference. */
module Wrappers {

  datatype Option<+T> = None | Some(value: T)
}
