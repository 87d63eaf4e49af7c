/** The optional value used for the component's nullable Date fields. */
module Wrappers {

  datatype Option<+T> = None | Some(value: T)
}
