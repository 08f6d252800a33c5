/** The optional value used for "no descriptor found" and "nothing printed". */
module Wrappers {

  datatype Option<+T> = None | Some(value: T)

}
