/** The optional value the resolver uses where the handler holds `None`. */
module Wrappers {

  datatype Option<+T> = None | Some(value: T)
}
