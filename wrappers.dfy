/** The usual Some/None datatype, for reads that may fail. */
module Wrappers {

  datatype Option<+T> = None | Some(value: T)

}
