/** The optional value used for the `field?: T` members of the client's records. */
module Wrappers {

  datatype Option<+T> = None | Some(value: T)
}
