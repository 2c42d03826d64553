/** The optional-value datatype used for attributes that may be absent and for
    parses that may fail. */
module Wrappers {

  /** `None` stands for Python's `None`: an absent attribute or a failed parse. */
  datatype Option<+T> = None | Some(value: T)
}
