/** The optional values of the model: an absent command-line option, or a
    speaker name that was not given. */
module Wrappers {

  datatype Option<+T> = None | Some(value: T)
}
