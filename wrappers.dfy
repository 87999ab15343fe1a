/** The optional value used for PHP's "FALSE or a value" results and for lookups that may miss. */
module Wrappers {

  datatype Option<+T> = None | Some(value: T)
}
