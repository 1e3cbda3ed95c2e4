/** The optional-value datatype used for parse results and for the error
    paths of the listing. */
module Wrappers {

  datatype Option<+T> = None | Some(value: T)
}
