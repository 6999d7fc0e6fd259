/** The optional value used where the Python code raises KeyError. */
module Wrappers {

  datatype Option<T> = None | Some(value: T)

}
