/** The optional value used for the scripts' "may raise" and "may be absent" cases. */
module Wrappers {

  datatype Option<T> = None | Some(value: T)
}
