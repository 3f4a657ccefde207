/** The optional-value datatype used throughout the model (a missing row, an absent
    header, an absent form field). */
module Wrappers {

  datatype Option<+T> = None | Some(value: T)

}
