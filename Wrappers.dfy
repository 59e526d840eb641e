/** The optional value the pipeline uses for a sample whose fetch or decode failed. */
module Wrappers {

  datatype Option<+T> = None | Some(value: T)
}
