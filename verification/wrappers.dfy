/** The optional-value datatype shared by the models. */
module Wrappers {

  /** `None` stands for "not written" or "absent". */
  datatype Option<+T> = None | Some(value: T)
}
