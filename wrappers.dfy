/** The optional value used for table cells and for the chooser's answer. */
module Wrappers {

  /** `None` stands for a missing cell (pandas NaN) or for "no value chosen". */
  datatype Option<+T> = None | Some(value: T)
}
