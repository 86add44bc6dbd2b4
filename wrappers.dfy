/** The optional value used for PHP's null and for "no exception". */
module Wrappers {

  datatype Option<+T> = None | Some(value: T)
}
