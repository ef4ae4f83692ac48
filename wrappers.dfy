/** A value that may be missing: pandas' NaN/None in a cell becomes `None`. */
module Wrappers {

  datatype Option<+T> = None | Some(value: T)
}
