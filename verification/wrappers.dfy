/** The optional-value datatype shared by the model. */
module Wrappers {

  /** `None` stands for an absent dictionary key or a value that does not parse. */
  datatype Option<+T> = None | Some(value: T)
}
